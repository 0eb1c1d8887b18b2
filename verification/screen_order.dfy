/** Drag-and-drop reordering of root screens (`reorder_screen_priority`)
    and the id-based deletions of screens and anchors, all from
    src/dashboard/views/screens.rs, over the active profile of the shared
    state. */
module ScreenOrder {
  import opened Wrappers
  import opened Numeric
  import opened Profiles
  import opened Sorting
  import opened Registry
  import opened Hierarchy
  import opened AppState

  // ---------------------------------------------------------------------
  // The root list
  // ---------------------------------------------------------------------

  /** A root screen as the reorder code lists it: id and priority. */
  type Entry = (string, u32)

  function EntryId(e: Entry): string { e.0 }

  function EntryPriority(e: Entry): int { e.1 }

  function ScreenId(s: ScreenDefinition): string { s.id }

  function AnchorId(a: ScreenAnchor): string { a.id }

  /** Some screen without a parent has this id. */
  predicate IsRoot(screens: seq<ScreenDefinition>, id: string)
  {
    exists i :: 0 <= i < |screens| && screens[i].parentId.None? && screens[i].id == id
  }

  /** The roots, in table order, as (id, priority) pairs. */
  function RootEntries(screens: seq<ScreenDefinition>): (r: seq<Entry>)
    ensures |r| <= |screens|
    ensures forall e :: e in r <==>
      (exists i :: 0 <= i < |screens| && screens[i].parentId.None? && e == (screens[i].id, screens[i].priority))
  {
    if |screens| == 0 then []
    else
      var rest := RootEntries(screens[1..]);
      assert forall i :: 1 <= i < |screens| ==> screens[i] == screens[1..][i - 1];
      assert forall i :: 0 <= i < |screens| - 1 ==> screens[1..][i] == screens[i + 1];
      if screens[0].parentId.None? then [(screens[0].id, screens[0].priority)] + rest else rest
  }

  /** Roots at table positions `i < j` are listed in that order. */
  lemma {:induction false} RootEntriesInOrder(screens: seq<ScreenDefinition>, i: nat, j: nat) returns (a: nat, b: nat)
    requires i < j < |screens| && screens[i].parentId.None? && screens[j].parentId.None?
    ensures a < b < |RootEntries(screens)|
    ensures RootEntries(screens)[a] == (screens[i].id, screens[i].priority)
    ensures RootEntries(screens)[b] == (screens[j].id, screens[j].priority)
    decreases |screens|
  {
    var tail := screens[1..];
    var rest := RootEntries(tail);
    assert screens[j] == tail[j - 1];
    if i == 0 {
      assert (screens[j].id, screens[j].priority) in rest;
      var b' :| 0 <= b' < |rest| && rest[b'] == (screens[j].id, screens[j].priority);
      a, b := 0, b' + 1;
    } else {
      assert screens[i] == tail[i - 1];
      var a', b' := RootEntriesInOrder(tail, i - 1, j - 1);
      if screens[0].parentId.None? {
        a, b := a' + 1, b' + 1;
      } else {
        a, b := a', b';
      }
    }
  }

  /** With distinct screen ids the root list has distinct ids. */
  lemma {:induction false} RootEntriesUnique(screens: seq<ScreenDefinition>)
    requires UniqueIds(screens)
    ensures UniqueKeys(RootEntries(screens), EntryId)
    decreases |screens|
  {
    if |screens| > 0 {
      var tail := screens[1..];
      var rest := RootEntries(tail);
      RootEntriesUnique(tail);
      forall k | 0 <= k < |rest| ensures rest[k].0 != screens[0].id {
        assert rest[k] in rest;
        var i :| 0 <= i < |tail| && tail[i].parentId.None? && rest[k] == (tail[i].id, tail[i].priority);
        assert tail[i] == screens[i + 1];
      }
    }
  }

  /** The root list depends only on ids, parents and priorities, position by
      position. */
  lemma {:induction false} RootEntriesSameRoots(screens: seq<ScreenDefinition>, other: seq<ScreenDefinition>)
    requires |other| == |screens|
    requires forall i :: 0 <= i < |screens| ==> other[i] == screens[i].(priority := other[i].priority)
    ensures |RootEntries(other)| == |RootEntries(screens)|
    ensures forall k :: 0 <= k < |RootEntries(screens)| ==> RootEntries(other)[k].0 == RootEntries(screens)[k].0
    decreases |screens|
  {
    if |screens| > 0 {
      assert forall i :: 0 <= i < |screens| - 1 ==> other[1..][i] == other[i + 1] && screens[1..][i] == screens[i + 1];
      RootEntriesSameRoots(screens[1..], other[1..]);
    }
  }

  /** The list the drag starts from: roots stably sorted by descending
      priority. */
  function RootOrder(screens: seq<ScreenDefinition>): (r: seq<Entry>)
    ensures SortedDesc(r, EntryPriority)
    ensures multiset(r) == multiset(RootEntries(screens))
    ensures UniqueIds(screens) ==> UniqueKeys(r, EntryId)
  {
    var r := SortDesc(RootEntries(screens), EntryPriority);
    if UniqueIds(screens) then
      RootEntriesUnique(screens);
      PermutationKeepsUnique(RootEntries(screens), r, EntryId);
      r
    else r
  }

  /** Of two roots with equal priority, the one earlier in the table comes
      first in the starting list. */
  lemma RootOrderStable(screens: seq<ScreenDefinition>, i: nat, j: nat) returns (p: nat, q: nat)
    requires i < j < |screens| && screens[i].parentId.None? && screens[j].parentId.None?
    requires screens[i].priority == screens[j].priority
    ensures p < q < |RootOrder(screens)|
    ensures RootOrder(screens)[p] == (screens[i].id, screens[i].priority)
    ensures RootOrder(screens)[q] == (screens[j].id, screens[j].priority)
  {
    var a, b := RootEntriesInOrder(screens, i, j);
    p, q := SortDescStable(RootEntries(screens), EntryPriority, a, b);
  }

  // ---------------------------------------------------------------------
  // Moving the dragged entry
  // ---------------------------------------------------------------------

  /** Where the dragged entry goes once it has been taken out of `rest`:
      in front of the target, behind it, or at the end when there is no
      target or the target is not in the list. */
  function InsertPos(rest: seq<Entry>, target: Option<(string, bool)>): (k: nat)
    ensures k <= |rest|
  {
    var wanted :=
      match target
      case None => |rest|
      case Some((t, before)) =>
        match Position(rest, EntryId, t)
        case None => |rest|
        case Some(tp) => if before then tp else tp + 1;
    Min(wanted, |rest|)
  }

  /** The entry at `p` taken out and put back so that it lands at `k`. */
  function MoveTo<T>(xs: seq<T>, p: nat, k: nat): (r: seq<T>)
    requires p < |xs| && k < |xs|
    ensures |r| == |xs| && multiset(r) == multiset(xs)
  {
    var rest := xs[..p] + xs[p + 1..];
    MoveIsPermutation(xs, p, k);
    rest[..k] + [xs[p]] + rest[k..]
  }

  /** The new root order: the first entry with the dragged id is removed and
      reinserted; None when no root has that id. */
  function ReorderEntries(order: seq<Entry>, dragged: string, target: Option<(string, bool)>): (r: Option<seq<Entry>>)
    ensures r.None? <==> forall i :: 0 <= i < |order| ==> order[i].0 != dragged
    ensures r.Some? ==> |r.value| == |order| && multiset(r.value) == multiset(order)
  {
    match Position(order, EntryId, dragged)
    case None => None
    case Some(p) => Some(MoveTo(order, p, InsertPos(order[..p] + order[p + 1..], target)))
  }

  /** Taking the element at `p` out and putting it back at `k` rearranges. */
  lemma MoveIsPermutation<T>(xs: seq<T>, p: nat, k: nat)
    requires p < |xs| && k < |xs|
    ensures var rest := xs[..p] + xs[p + 1..];
            multiset(rest[..k] + [xs[p]] + rest[k..]) == multiset(xs)
  {
    var rest := xs[..p] + xs[p + 1..];
    assert xs == xs[..p] + [xs[p]] + xs[p + 1..];
    assert rest == rest[..k] + rest[k..];
    assert multiset(xs) == multiset(xs[..p]) + multiset{xs[p]} + multiset(xs[p + 1..]);
    assert multiset(rest) == multiset(xs[..p]) + multiset(xs[p + 1..]);
    assert multiset(rest) == multiset(rest[..k]) + multiset(rest[k..]);
    calc {
      multiset(rest[..k] + [xs[p]] + rest[k..]);
      multiset(rest[..k]) + multiset{xs[p]} + multiset(rest[k..]);
      multiset(rest) + multiset{xs[p]};
      multiset(xs[..p]) + multiset(xs[p + 1..]) + multiset{xs[p]};
      multiset(xs);
    }
  }

  /** `rest` with `x` inserted at `k`, read by index. */
  lemma InsertedAt<T>(rest: seq<T>, k: nat, x: T, r: seq<T>)
    requires k <= |rest| && r == rest[..k] + [x] + rest[k..]
    ensures k < |r| == |rest| + 1 && r[k] == x
    ensures forall t :: 0 <= t < k ==> r[t] == rest[t]
    ensures forall t :: k < t < |r| ==> r[t] == rest[t - 1]
    ensures r[..k] + r[k + 1..] == rest
  {
    assert r[..k] == rest[..k];
    assert r[k + 1..] == rest[k..];
    assert rest == rest[..k] + rest[k..];
  }

  /** The moved list by index: `rest` with the dragged entry at `k`. */
  lemma MovedAt(order: seq<Entry>, dragged: string, target: Option<(string, bool)>, p: nat) returns (k: nat)
    requires Position(order, EntryId, dragged) == Some(p)
    ensures var rest := order[..p] + order[p + 1..];
            var r := ReorderEntries(order, dragged, target).value;
            && k == InsertPos(rest, target) && k < |r| && r[k] == order[p]
            && (forall t :: 0 <= t < k ==> r[t] == rest[t])
            && (forall t :: k < t < |r| ==> r[t] == rest[t - 1])
            && r[..k] + r[k + 1..] == rest
  {
    var rest := order[..p] + order[p + 1..];
    k := InsertPos(rest, target);
    InsertedAt(rest, k, order[p], MoveTo(order, p, k));
  }

  /** The entries other than the dragged one keep their relative order. */
  lemma ReorderKeepsOthers(order: seq<Entry>, dragged: string, target: Option<(string, bool)>, p: nat) returns (k: nat)
    requires Position(order, EntryId, dragged) == Some(p)
    ensures var r := ReorderEntries(order, dragged, target).value;
            k < |r| && r[k] == order[p] && r[..k] + r[k + 1..] == order[..p] + order[p + 1..]
  {
    k := MovedAt(order, dragged, target, p);
  }

  /** With no target, or a target that is not a root, the dragged entry goes
      last. */
  lemma ReorderToEnd(order: seq<Entry>, dragged: string, target: Option<(string, bool)>, p: nat)
    requires Position(order, EntryId, dragged) == Some(p)
    requires target.None? || Position(order[..p] + order[p + 1..], EntryId, target.value.0).None?
    ensures var r := ReorderEntries(order, dragged, target).value;
            r[|r| - 1] == order[p]
  {
    var k := MovedAt(order, dragged, target, p);
  }

  /** Dropped in front of a target: the dragged entry sits right before it. */
  lemma ReorderBefore(order: seq<Entry>, dragged: string, t: string, p: nat, tp: nat)
    requires Position(order, EntryId, dragged) == Some(p)
    requires Position(order[..p] + order[p + 1..], EntryId, t) == Some(tp)
    ensures var r := ReorderEntries(order, dragged, Some((t, true))).value;
            tp + 1 < |r| && r[tp] == order[p] && r[tp + 1].0 == t
  {
    var k := MovedAt(order, dragged, Some((t, true)), p);
  }

  /** Dropped behind a target: the dragged entry sits right after it. */
  lemma ReorderAfter(order: seq<Entry>, dragged: string, t: string, p: nat, tp: nat)
    requires Position(order, EntryId, dragged) == Some(p)
    requires Position(order[..p] + order[p + 1..], EntryId, t) == Some(tp)
    ensures var r := ReorderEntries(order, dragged, Some((t, false))).value;
            tp + 1 < |r| && r[tp].0 == t && r[tp + 1] == order[p]
  {
    var k := MovedAt(order, dragged, Some((t, false)), p);
  }

  // ---------------------------------------------------------------------
  // Writing the priorities back
  // ---------------------------------------------------------------------

  /** `iter_mut().find(|s| s.id == id)` followed by a priority write: only the
      first screen with the id changes. */
  function SetFirstPriority(screens: seq<ScreenDefinition>, id: string, p: u32): (r: seq<ScreenDefinition>)
    ensures |r| == |screens|
    ensures forall i :: 0 <= i < |r| ==> r[i] == screens[i].(priority := r[i].priority)
    ensures forall i :: 0 <= i < |r| && screens[i].id != id ==> r[i] == screens[i]
    ensures forall i :: (0 <= i < |r| && screens[i].id == id && (forall j :: 0 <= j < i ==> screens[j].id != id))
                        ==> r[i].priority == p
  {
    match Position(screens, ScreenId, id)
    case None => screens
    case Some(i) => screens[i := screens[i].(priority := p)]
  }

  /** The loop over the new order: entry `k` writes `prios[k]` to the first
      screen with its id. */
  function AssignPriorities(screens: seq<ScreenDefinition>, ids: seq<string>, prios: seq<u32>): (r: seq<ScreenDefinition>)
    requires |ids| == |prios|
    ensures |r| == |screens|
    ensures forall i :: 0 <= i < |r| ==> r[i] == screens[i].(priority := r[i].priority)
    ensures forall i :: 0 <= i < |r| && screens[i].id !in ids ==> r[i] == screens[i]
    decreases |ids|
  {
    if |ids| == 0 then screens
    else
      var r := AssignPriorities(SetFirstPriority(screens, ids[0], prios[0]), ids[1..], prios[1..]);
      assert forall i :: 0 <= i < |screens| && screens[i].id !in ids ==> screens[i].id != ids[0] && screens[i].id !in ids[1..];
      r
  }

  predicate DistinctIds(ids: seq<string>)
  {
    forall k, l :: 0 <= k < l < |ids| ==> ids[k] != ids[l]
  }

  /** With distinct screen ids and a list of distinct ids, the screen named
      by entry `k` ends up with priority `prios[k]`. */
  lemma {:induction false} AssignedPriority(screens: seq<ScreenDefinition>, ids: seq<string>, prios: seq<u32>)
    requires |ids| == |prios| && UniqueIds(screens) && DistinctIds(ids)
    ensures forall k, i :: 0 <= k < |ids| && 0 <= i < |screens| && screens[i].id == ids[k] ==>
              AssignPriorities(screens, ids, prios)[i].priority == prios[k]
    decreases |ids|
  {
    if |ids| > 0 {
      var next := SetFirstPriority(screens, ids[0], prios[0]);
      var r := AssignPriorities(next, ids[1..], prios[1..]);
      assert r == AssignPriorities(screens, ids, prios);
      assert forall i :: 0 <= i < |screens| ==> next[i].id == screens[i].id;
      AssignedPriority(next, ids[1..], prios[1..]);
      forall k, i | 0 <= k < |ids| && 0 <= i < |screens| && screens[i].id == ids[k]
        ensures r[i].priority == prios[k]
      {
        if k == 0 {
          assert ids[0] !in ids[1..] by {
            forall l | 0 <= l < |ids| - 1 ensures ids[1..][l] != ids[0] {
              assert ids[1..][l] == ids[l + 1];
            }
          }
          assert r[i] == next[i];
        } else {
          assert ids[1..][k - 1] == ids[k];
        }
      }
    }
  }

  /** `100u32.saturating_sub(idx as u32 * 10)`. */
  function AsWrittenPriority(idx: nat): u32
  {
    if idx * 10 >= 100 then 0 else 100 - idx * 10
  }

  /** A scheme that keeps the as-written values while they do not saturate
      and otherwise starts high enough that every step is 10. */
  function CorrectedPriority(n: nat, idx: nat): u32
  {
    var top := Max(100, 10 * (n - 1));
    var p := if top >= 10 * idx then top - 10 * idx else 0;
    Min(p, U32_MAX)
  }

  datatype Scheme = AsWritten | Corrected

  function Priorities(scheme: Scheme, n: nat): (r: seq<u32>)
    ensures |r| == n
  {
    match scheme
    case AsWritten => seq(n, k requires 0 <= k => AsWrittenPriority(k))
    case Corrected => seq(n, k requires 0 <= k => CorrectedPriority(n, k))
  }

  function Ids(order: seq<Entry>): (r: seq<string>)
    ensures |r| == |order| && forall k :: 0 <= k < |order| ==> r[k] == order[k].0
  {
    seq(|order|, k requires 0 <= k < |order| => order[k].0)
  }

  /** The new root order of a table, if the dragged id names a root. */
  function NewOrder(screens: seq<ScreenDefinition>, dragged: string, target: Option<(string, bool)>): (r: Option<seq<Entry>>)
    ensures r.None? <==> !IsRoot(screens, dragged)
  {
    RootOrderHasRoot(screens, dragged);
    ReorderEntries(RootOrder(screens), dragged, target)
  }

  /** A root id is listed in the starting order, and only root ids are. */
  lemma RootOrderHasRoot(screens: seq<ScreenDefinition>, id: string)
    ensures IsRoot(screens, id) <==> exists k :: 0 <= k < |RootOrder(screens)| && RootOrder(screens)[k].0 == id
  {
    var order := RootOrder(screens);
    var entries := RootEntries(screens);
    if IsRoot(screens, id) {
      var i :| 0 <= i < |screens| && screens[i].parentId.None? && screens[i].id == id;
      var e := (screens[i].id, screens[i].priority);
      assert e in entries;
      assert e in multiset(order);
      var k :| 0 <= k < |order| && order[k] == e;
    }
    forall k | 0 <= k < |order| && order[k].0 == id ensures IsRoot(screens, id) {
      assert order[k] in multiset(entries);
      assert order[k] in entries;
    }
  }

  /** The screen table after a drop: the new order written back as
      priorities under the given scheme. */
  function ReorderScreens(screens: seq<ScreenDefinition>, dragged: string, target: Option<(string, bool)>, scheme: Scheme): (r: Option<seq<ScreenDefinition>>)
    ensures r.None? <==> !IsRoot(screens, dragged)
    ensures r.Some? ==> |r.value| == |screens|
    ensures r.Some? ==> forall i :: 0 <= i < |screens| ==> r.value[i] == screens[i].(priority := r.value[i].priority)
  {
    match NewOrder(screens, dragged, target)
    case None => None
    case Some(order) => Some(AssignPriorities(screens, Ids(order), Priorities(scheme, |order|)))
  }

  /** What the new order holds: the root entries, each id once. */
  lemma NewOrderFacts(screens: seq<ScreenDefinition>, dragged: string, target: Option<(string, bool)>)
    requires IsRoot(screens, dragged)
    ensures var o := NewOrder(screens, dragged, target).value;
            && multiset(o) == multiset(RootEntries(screens))
            && (forall k :: 0 <= k < |o| ==> o[k] in RootEntries(screens))
            && (UniqueIds(screens) ==> UniqueKeys(o, EntryId) && DistinctIds(Ids(o)))
  {
    var o := NewOrder(screens, dragged, target).value;
    forall k | 0 <= k < |o| ensures o[k] in RootEntries(screens) {
      assert o[k] in multiset(o);
    }
    if UniqueIds(screens) {
      PermutationKeepsUnique(RootOrder(screens), o, EntryId);
    }
  }

  /** A screen whose id the new order lists is a root, and with distinct ids
      it is the only screen with that id. */
  lemma ListedIsRoot(screens: seq<ScreenDefinition>, dragged: string, target: Option<(string, bool)>, k: nat, i: nat)
    requires UniqueIds(screens) && IsRoot(screens, dragged)
    requires k < |NewOrder(screens, dragged, target).value| && i < |screens|
    requires screens[i].id == NewOrder(screens, dragged, target).value[k].0
    ensures screens[i].parentId.None?
    ensures NewOrder(screens, dragged, target).value[k] == (screens[i].id, screens[i].priority)
  {
    NewOrderFacts(screens, dragged, target);
    var e := NewOrder(screens, dragged, target).value[k];
    var j :| 0 <= j < |screens| && screens[j].parentId.None? && e == (screens[j].id, screens[j].priority);
  }

  /** Only root screens change, and only in their priority. */
  lemma ReorderOnlyRoots(screens: seq<ScreenDefinition>, dragged: string, target: Option<(string, bool)>, scheme: Scheme)
    requires UniqueIds(screens) && IsRoot(screens, dragged)
    ensures var r := ReorderScreens(screens, dragged, target, scheme).value;
            forall i :: 0 <= i < |screens| && screens[i].parentId.Some? ==> r[i] == screens[i]
  {
    var o := NewOrder(screens, dragged, target).value;
    forall i | 0 <= i < |screens| && screens[i].parentId.Some? ensures screens[i].id !in Ids(o) {
      forall k | 0 <= k < |o| ensures Ids(o)[k] != screens[i].id {
        if Ids(o)[k] == screens[i].id {
          ListedIsRoot(screens, dragged, target, k, i);
        }
      }
    }
  }

  /** Every screen of `ns` whose id is listed at place `k` of `o` (by the
      ids of the table `screens` it was rewritten from) carries `prios[k]`. */
  predicate PrioritiesFollow(screens: seq<ScreenDefinition>, ns: seq<ScreenDefinition>, o: seq<Entry>, prios: seq<u32>)
  {
    forall k, i :: 0 <= k < |o| && k < |prios| && 0 <= i < |screens| && i < |ns| && screens[i].id == o[k].0 ==>
      ns[i].priority == prios[k]
  }

  /** Along `o`, the screens of `ns` that carry its ids never gain
      priority. */
  predicate NonIncreasingAlong(screens: seq<ScreenDefinition>, ns: seq<ScreenDefinition>, o: seq<Entry>)
  {
    forall k, l, i, j :: (0 <= k < l < |o| && 0 <= i < |screens| && 0 <= j < |screens| && i < |ns| && j < |ns|
                          && screens[i].id == o[k].0 && screens[j].id == o[l].0)
                         ==> ns[i].priority >= ns[j].priority
  }

  /** Priorities that follow a non-increasing list are non-increasing along
      the order. */
  lemma FollowNonIncreasing(screens: seq<ScreenDefinition>, ns: seq<ScreenDefinition>, o: seq<Entry>, prios: seq<u32>)
    requires |prios| == |o| && PrioritiesFollow(screens, ns, o, prios)
    requires forall k, l :: 0 <= k < l < |prios| ==> prios[k] >= prios[l]
    ensures NonIncreasingAlong(screens, ns, o)
  {
    forall k, l, i, j | (0 <= k < l < |o| && 0 <= i < |screens| && 0 <= j < |screens| && i < |ns| && j < |ns|
                         && screens[i].id == o[k].0 && screens[j].id == o[l].0)
      ensures ns[i].priority >= ns[j].priority
    {
      assert ns[i].priority == prios[k] && ns[j].priority == prios[l];
    }
  }

  /** The root at position `k` of the new order gets the `k`-th priority of
      the scheme. */
  lemma ReorderPriorityByPosition(screens: seq<ScreenDefinition>, dragged: string, target: Option<(string, bool)>, scheme: Scheme)
    requires UniqueIds(screens) && IsRoot(screens, dragged)
    ensures var o := NewOrder(screens, dragged, target).value;
            PrioritiesFollow(screens, ReorderScreens(screens, dragged, target, scheme).value, o, Priorities(scheme, |o|))
  {
    var o := NewOrder(screens, dragged, target).value;
    NewOrderFacts(screens, dragged, target);
    AssignedPriority(screens, Ids(o), Priorities(scheme, |o|));
  }

  lemma AsWrittenList(n: nat)
    ensures forall k :: 0 <= k < n ==> Priorities(AsWritten, n)[k] == AsWrittenPriority(k)
  {
  }

  /** Priorities that follow the as-written list, read place by place. */
  lemma FollowAsWritten(screens: seq<ScreenDefinition>, ns: seq<ScreenDefinition>, o: seq<Entry>, prios: seq<u32>)
    requires |prios| == |o| && |ns| == |screens| && PrioritiesFollow(screens, ns, o, prios)
    requires forall k :: 0 <= k < |prios| ==> prios[k] == AsWrittenPriority(k)
    ensures forall k, i :: 0 <= k < |o| && 0 <= i < |screens| && screens[i].id == o[k].0 ==>
              ns[i].priority == (if k < 10 then 100 - 10 * k else 0)
  {
    forall k, i | 0 <= k < |o| && 0 <= i < |screens| && screens[i].id == o[k].0
      ensures ns[i].priority == (if k < 10 then 100 - 10 * k else 0)
    {
      assert ns[i].priority == prios[k];
    }
  }

  /** As written, the `k`-th root gets `100 - 10k`, and 0 from position 10
      on. */
  lemma ReorderAsWrittenPriorities(screens: seq<ScreenDefinition>, dragged: string, target: Option<(string, bool)>)
    requires UniqueIds(screens) && IsRoot(screens, dragged)
    ensures var o := NewOrder(screens, dragged, target).value;
            var r := ReorderScreens(screens, dragged, target, AsWritten).value;
            forall k, i :: 0 <= k < |o| && 0 <= i < |screens| && screens[i].id == o[k].0 ==>
              r[i].priority == (if k < 10 then 100 - 10 * k else 0)
  {
    var o := NewOrder(screens, dragged, target).value;
    var r := ReorderScreens(screens, dragged, target, AsWritten).value;
    ReorderPriorityByPosition(screens, dragged, target, AsWritten);
    AsWrittenList(|o|);
    FollowAsWritten(screens, r, o, Priorities(AsWritten, |o|));
  }

  /** Both schemes hand out non-increasing priorities along the order. */
  lemma PrioritiesNonIncreasing(scheme: Scheme, n: nat)
    ensures forall k, l :: 0 <= k < l < n ==> Priorities(scheme, n)[k] >= Priorities(scheme, n)[l]
  {
  }

  /** After a drop, priorities never increase along the new order. */
  lemma ReorderNonIncreasing(screens: seq<ScreenDefinition>, dragged: string, target: Option<(string, bool)>, scheme: Scheme)
    requires UniqueIds(screens) && IsRoot(screens, dragged)
    ensures var o := NewOrder(screens, dragged, target).value;
            NonIncreasingAlong(screens, ReorderScreens(screens, dragged, target, scheme).value, o)
  {
    var o := NewOrder(screens, dragged, target).value;
    var r := ReorderScreens(screens, dragged, target, scheme).value;
    ReorderPriorityByPosition(screens, dragged, target, scheme);
    PrioritiesNonIncreasing(scheme, |o|);
    FollowNonIncreasing(screens, r, o, Priorities(scheme, |o|));
  }

  /** The corrected scheme agrees with the one as written whenever the one
      as written does not reach 0 before the last root. */
  lemma CorrectedAgreesWhenShort(n: nat)
    requires n <= 11
    ensures Priorities(Corrected, n) == Priorities(AsWritten, n)
  {
  }

  /** Under the corrected scheme each step down is exactly 10. */
  lemma CorrectedStrictlyDecreasing(n: nat)
    requires 10 * n <= U32_MAX
    ensures forall k, l :: 0 <= k < l < n ==> Priorities(Corrected, n)[k] > Priorities(Corrected, n)[l]
  {
  }

  /** As written, two roots that were given different places can end up
      with the same priority: from 12 roots on, places 10 and 11 both get
      0. */
  lemma AsWrittenTiesFromTen(screens: seq<ScreenDefinition>, dragged: string, target: Option<(string, bool)>, i: nat, j: nat)
    requires UniqueIds(screens) && IsRoot(screens, dragged)
    requires |NewOrder(screens, dragged, target).value| >= 12
    requires i < |screens| && j < |screens|
    requires screens[i].id == NewOrder(screens, dragged, target).value[10].0
    requires screens[j].id == NewOrder(screens, dragged, target).value[11].0
    ensures i != j
    ensures ReorderScreens(screens, dragged, target, AsWritten).value[i].priority == 0
    ensures ReorderScreens(screens, dragged, target, AsWritten).value[j].priority == 0
  {
    NewOrderFacts(screens, dragged, target);
    ReorderAsWrittenPriorities(screens, dragged, target);
  }

  /** The roots of the new table, as entries: the new order with the
      scheme's priorities. */
  lemma ReorderedRootEntries(screens: seq<ScreenDefinition>, dragged: string, target: Option<(string, bool)>, scheme: Scheme)
    requires UniqueIds(screens) && IsRoot(screens, dragged)
    ensures var o := NewOrder(screens, dragged, target).value;
            var ns := ReorderScreens(screens, dragged, target, scheme).value;
            var prios := Priorities(scheme, |o|);
            forall e :: e in RootEntries(ns) <==> exists k :: 0 <= k < |o| && e == (o[k].0, prios[k])
  {
    var o := NewOrder(screens, dragged, target).value;
    NewOrderFacts(screens, dragged, target);
    ReorderPriorityByPosition(screens, dragged, target, scheme);
    RootsOfRewritten(screens, ReorderScreens(screens, dragged, target, scheme).value, o, Priorities(scheme, |o|));
  }

  /** The root entries of a table whose priorities were rewritten from a
      list `o` of its roots. */
  lemma RootsOfRewritten(screens: seq<ScreenDefinition>, ns: seq<ScreenDefinition>, o: seq<Entry>, prios: seq<u32>)
    requires |ns| == |screens| && forall i :: 0 <= i < |screens| ==> ns[i] == screens[i].(priority := ns[i].priority)
    requires |prios| == |o|
    requires multiset(o) == multiset(RootEntries(screens))
    requires forall k :: 0 <= k < |o| ==> o[k] in RootEntries(screens)
    requires PrioritiesFollow(screens, ns, o, prios)
    ensures forall e :: e in RootEntries(ns) <==> exists k :: 0 <= k < |o| && e == (o[k].0, prios[k])
  {
    forall e | e in RootEntries(ns) ensures exists k :: 0 <= k < |o| && e == (o[k].0, prios[k]) {
      var i :| 0 <= i < |ns| && ns[i].parentId.None? && e == (ns[i].id, ns[i].priority);
      var before := (screens[i].id, screens[i].priority);
      assert before in RootEntries(screens);
      assert before in multiset(o);
      var k :| 0 <= k < |o| && o[k] == before;
      assert e == (o[k].0, prios[k]);
    }
    forall k | 0 <= k < |o| ensures (o[k].0, prios[k]) in RootEntries(ns) {
      assert o[k] in RootEntries(screens);
      var i :| 0 <= i < |screens| && screens[i].parentId.None? && o[k] == (screens[i].id, screens[i].priority);
      assert ns[i].parentId.None? && (ns[i].id, ns[i].priority) == (o[k].0, prios[k]);
    }
  }

  /** The table after a drop still has distinct ids. */
  lemma ReorderKeepsUniqueIds(screens: seq<ScreenDefinition>, dragged: string, target: Option<(string, bool)>, scheme: Scheme)
    requires UniqueIds(screens) && IsRoot(screens, dragged)
    ensures UniqueIds(ReorderScreens(screens, dragged, target, scheme).value)
  {
  }

  /** The table as written after a drop can list its roots in an order other
      than the one the user dropped them into: two roots at places 10 and
      11 both get priority 0, and the next sort puts them back in table
      order. */
  lemma AsWrittenOrderLost(screens: seq<ScreenDefinition>, dragged: string, target: Option<(string, bool)>, i: nat, j: nat)
    requires UniqueIds(screens) && IsRoot(screens, dragged)
    requires |NewOrder(screens, dragged, target).value| >= 12
    requires i < j < |screens|
    requires screens[i].id == NewOrder(screens, dragged, target).value[11].0
    requires screens[j].id == NewOrder(screens, dragged, target).value[10].0
    ensures Ids(RootOrder(ReorderScreens(screens, dragged, target, AsWritten).value)) != Ids(NewOrder(screens, dragged, target).value)
  {
    var o := NewOrder(screens, dragged, target).value;
    var ns := ReorderScreens(screens, dragged, target, AsWritten).value;
    ListedIsRoot(screens, dragged, target, 11, i);
    ListedIsRoot(screens, dragged, target, 10, j);
    AsWrittenTiesFromTen(screens, dragged, target, j, i);
    ReorderKeepsUniqueIds(screens, dragged, target, AsWritten);
    var p, q := RootOrderStable(ns, i, j);
    NewOrderFacts(screens, dragged, target);
    SwappedIds(RootOrder(ns), o, p, q, 10, 11);
  }

  /** A list that shows the ids of places `x < y` of a list with distinct
      ids in the opposite order has different ids. */
  lemma SwappedIds(a: seq<Entry>, o: seq<Entry>, p: nat, q: nat, x: nat, y: nat)
    requires UniqueKeys(o, EntryId)
    requires p < q < |a| && x < y < |o|
    requires a[p].0 == o[y].0 && a[q].0 == o[x].0
    ensures Ids(a) != Ids(o)
  {
  }

  /** Under the corrected scheme the drop sticks: sorting the new table's
      roots by priority gives back exactly the order the user made. */
  lemma CorrectedOrderPersists(screens: seq<ScreenDefinition>, dragged: string, target: Option<(string, bool)>)
    requires UniqueIds(screens) && IsRoot(screens, dragged)
    requires 10 * |screens| <= U32_MAX
    ensures Ids(RootOrder(ReorderScreens(screens, dragged, target, Corrected).value)) == Ids(NewOrder(screens, dragged, target).value)
  {
    var o := NewOrder(screens, dragged, target).value;
    var ns := ReorderScreens(screens, dragged, target, Corrected).value;
    NewOrderFacts(screens, dragged, target);
    assert |o| == |RootEntries(screens)| by {
      assert |multiset(o)| == |multiset(RootEntries(screens))|;
    }
    CorrectedStrictlyDecreasing(|o|);
    ReorderedRootEntries(screens, dragged, target, Corrected);
    ReorderKeepsUniqueIds(screens, dragged, target, Corrected);
    RootEntriesUnique(ns);
    SortRecoversOrder(RootEntries(ns), RootOrder(ns), o, Priorities(Corrected, |o|));
  }

  /** Sorting distinct entries that carry the ids of `o` with priorities
      strictly decreasing along `o` gives the ids of `o` back in order. */
  lemma SortRecoversOrder(roots: seq<Entry>, sorted: seq<Entry>, o: seq<Entry>, prios: seq<u32>)
    requires |prios| == |o|
    requires UniqueKeys(roots, EntryId) && UniqueKeys(o, EntryId)
    requires forall k, l :: 0 <= k < l < |o| ==> prios[k] > prios[l]
    requires forall e :: e in roots <==> exists k :: 0 <= k < |o| && e == (o[k].0, prios[k])
    requires SortedDesc(sorted, EntryPriority) && multiset(sorted) == multiset(roots)
    ensures Ids(sorted) == Ids(o)
  {
    var want := seq(|o|, k requires 0 <= k < |o| => (o[k].0, prios[k]));
    forall e ensures e in roots <==> e in want {
      if e in want {
        var k :| 0 <= k < |want| && want[k] == e;
      }
      if e in roots {
        var k :| 0 <= k < |o| && e == (o[k].0, prios[k]);
        assert want[k] == e;
      }
    }
    SameMembersPermutation(roots, want, EntryId);
    SortedPermutationOfStrict(sorted, want, EntryPriority);
    StrictlyDescUnique(sorted, want, EntryPriority);
  }

  // ---------------------------------------------------------------------
  // Edits of the active profile
  // ---------------------------------------------------------------------

  /** The state with the screens of profile `k` replaced. */
  function WithScreens(st: SharedAppState, k: nat, screens: seq<ScreenDefinition>): (r: SharedAppState)
    requires k < |st.profiles|
    ensures |r.profiles| == |st.profiles| && r.profiles[k].screens == screens
    ensures forall i :: 0 <= i < |st.profiles| && i != k ==> r.profiles[i] == st.profiles[i]
    ensures r.profiles[k] == st.profiles[k].(screens := screens)
    ensures r.activeProfileId == st.activeProfileId && r.runtime == st.runtime
  {
    st.(profiles := st.profiles[k := st.profiles[k].(screens := screens)])
  }

  /** `reorder_screen_priority` on the shared state, with the corrected
      priorities: the result carries the `screens_dirty` flag. Nothing
      changes when no profile is active or the dragged id is not a root of
      the active profile. */
  function ReorderScreenPriority(st: SharedAppState, dragged: string, target: Option<(string, bool)>): (r: (SharedAppState, bool))
    ensures !r.1 ==> r.0 == st
    ensures r.1 <==> ActiveProfile(st).Some? && IsRoot(ActiveProfile(st).value.screens, dragged)
    ensures r.1 ==> var k := ActiveIndex(st).value;
                    r.0 == WithScreens(st, k, ReorderScreens(st.profiles[k].screens, dragged, target, Corrected).value)
  {
    match ActiveIndex(st)
    case None => (st, false)
    case Some(k) =>
      match ReorderScreens(st.profiles[k].screens, dragged, target, Corrected)
      case None => (st, false)
      case Some(screens) => (WithScreens(st, k, screens), true)
  }

  /** The screen deletion of the details panel: every screen with the id is
      dropped from the active profile, the rest keep their order. */
  function DeleteScreen(st: SharedAppState, id: string): (r: (SharedAppState, bool))
    ensures !r.1 ==> r.0 == st
    ensures r.1 <==> ActiveProfile(st).Some?
    ensures |r.0.profiles| == |st.profiles|
    ensures r.1 ==> var k := ActiveIndex(st).value;
                    var after := r.0.profiles[k].screens;
                    && r.0 == WithScreens(st, k, after)
                    && (forall s :: s in after <==> s in st.profiles[k].screens && s.id != id)
                    && IsSubsequence(after, st.profiles[k].screens)
  {
    match ActiveIndex(st)
    case None => (st, false)
    case Some(k) => (WithScreens(st, k, Retain(st.profiles[k].screens, ScreenId, id)), true)
  }

  /** The anchor deletion of the details panel: on the first screen of the
      active profile with `screenId`, every anchor with `anchorId` is
      dropped, the rest keep their order. */
  function DeleteAnchor(st: SharedAppState, screenId: string, anchorId: string): (r: (SharedAppState, bool))
    ensures !r.1 ==> r.0 == st
    ensures r.1 <==> ActiveProfile(st).Some? && Position(ActiveProfile(st).value.screens, ScreenId, screenId).Some?
    ensures |r.0.profiles| == |st.profiles|
    ensures r.1 ==> var k := ActiveIndex(st).value;
                    var screens := st.profiles[k].screens;
                    var i := Position(screens, ScreenId, screenId).value;
                    var after := r.0.profiles[k].screens;
                    && r.0 == WithScreens(st, k, after)
                    && |after| == |screens|
                    && (forall j :: 0 <= j < |screens| && j != i ==> after[j] == screens[j])
                    && after[i] == screens[i].(anchors := after[i].anchors)
                    && (forall a :: a in after[i].anchors <==> a in screens[i].anchors && a.id != anchorId)
                    && IsSubsequence(after[i].anchors, screens[i].anchors)
  {
    match ActiveIndex(st)
    case None => (st, false)
    case Some(k) =>
      var screens := st.profiles[k].screens;
      match Position(screens, ScreenId, screenId)
      case None => (st, false)
      case Some(i) =>
        var edited := screens[i].(anchors := Retain(screens[i].anchors, AnchorId, anchorId));
        (WithScreens(st, k, screens[i := edited]), true)
  }
}
