/** Id-keyed vectors as the application edits them: `iter().position` by
    id, `retain(|x| x.id != id)`, and removal at a position. Profiles,
    screens and anchors are all kept this way; `key` selects the id. */
module Registry {
  import opened Wrappers
  import opened Sorting

  predicate UniqueKeys<T>(xs: seq<T>, key: T -> string)
  {
    forall i, j :: 0 <= i < j < |xs| ==> key(xs[i]) != key(xs[j])
  }

  /** `a` is `b` with some elements left out, the rest in their order. */
  predicate IsSubsequence<T(==,!new)>(a: seq<T>, b: seq<T>)
    decreases |b|
  {
    |a| == 0 || (|b| > 0 && ((a[0] == b[0] && IsSubsequence(a[1..], b[1..])) || IsSubsequence(a, b[1..])))
  }

  /** `iter().position(|x| key(x) == id)`: the first index with that id. */
  function Position<T>(xs: seq<T>, key: T -> string, id: string): (r: Option<nat>)
    ensures r.Some? ==> r.value < |xs| && key(xs[r.value]) == id
    ensures r.Some? ==> forall j :: 0 <= j < r.value ==> key(xs[j]) != id
    ensures r.None? <==> forall j :: 0 <= j < |xs| ==> key(xs[j]) != id
  {
    if |xs| == 0 then None
    else if key(xs[0]) == id then Some(0)
    else
      match Position(xs[1..], key, id)
      case None =>
        assert forall j :: 1 <= j < |xs| ==> xs[j] == xs[1..][j - 1];
        None
      case Some(p) =>
        assert forall j :: 1 <= j <= p + 1 ==> xs[j] == xs[1..][j - 1];
        Some(p + 1)
  }

  /** `retain(|x| key(x) != id)`. */
  function Retain<T(==,!new)>(xs: seq<T>, key: T -> string, id: string): (r: seq<T>)
    ensures forall x :: x in r <==> x in xs && key(x) != id
    ensures IsSubsequence(r, xs)
    ensures |r| <= |xs|
  {
    if |xs| == 0 then []
    else
      var rest := Retain(xs[1..], key, id);
      if key(xs[0]) != id then
        var r := [xs[0]] + rest;
        assert r[1..] == rest;
        r
      else
        rest
  }

  /** Nothing is dropped when no element has the id. */
  lemma {:induction false} RetainAbsent<T(!new)>(xs: seq<T>, key: T -> string, id: string)
    requires forall j :: 0 <= j < |xs| ==> key(xs[j]) != id
    ensures Retain(xs, key, id) == xs
    decreases |xs|
  {
    if |xs| > 0 {
      RetainAbsent(xs[1..], key, id);
      assert xs == [xs[0]] + xs[1..];
    }
  }

  /** A subsequence of a sequence with distinct ids has distinct ids. */
  lemma {:induction false} SubsequenceKeepsUnique<T(!new)>(a: seq<T>, b: seq<T>, key: T -> string)
    requires IsSubsequence(a, b) && UniqueKeys(b, key)
    ensures UniqueKeys(a, key)
    decreases |b|
  {
    if |a| > 0 {
      assert forall i, j :: 0 <= i < j < |b| - 1 ==> b[1..][i] == b[i + 1] && b[1..][j] == b[j + 1];
      if a[0] == b[0] && IsSubsequence(a[1..], b[1..]) {
        SubsequenceKeepsUnique(a[1..], b[1..], key);
        SubsequenceMembers(a[1..], b[1..]);
        forall j | 1 <= j < |a| ensures key(a[0]) != key(a[j]) {
          assert a[j] == a[1..][j - 1];
          assert a[j] in b[1..];
        }
        forall i, j | 0 <= i < j < |a| ensures key(a[i]) != key(a[j]) {
          if i > 0 {
            assert a[i] == a[1..][i - 1] && a[j] == a[1..][j - 1];
          }
        }
      } else {
        SubsequenceKeepsUnique(a, b[1..], key);
      }
    }
  }

  lemma {:induction false} SubsequenceMembers<T(!new)>(a: seq<T>, b: seq<T>)
    requires IsSubsequence(a, b)
    ensures forall x :: x in a ==> x in b
    decreases |b|
  {
    if |a| > 0 {
      if a[0] == b[0] && IsSubsequence(a[1..], b[1..]) {
        SubsequenceMembers(a[1..], b[1..]);
        assert a == [a[0]] + a[1..];
      } else {
        SubsequenceMembers(a, b[1..]);
      }
    }
  }

  /** Under distinct ids, removing at the first position of `id` is the same
      as retaining every other id. */
  lemma {:induction false} RemoveFirstIsRetain<T(!new)>(xs: seq<T>, key: T -> string, id: string, p: nat)
    requires UniqueKeys(xs, key) && Position(xs, key, id) == Some(p)
    ensures xs[..p] + xs[p + 1..] == Retain(xs, key, id)
    decreases |xs|
  {
    UniqueKeysTail(xs, key);
    if p == 0 {
      assert forall j :: 0 <= j < |xs| - 1 ==> key(xs[1..][j]) != id by {
        assert forall j :: 0 <= j < |xs| - 1 ==> xs[1..][j] == xs[j + 1];
      }
      RetainAbsent(xs[1..], key, id);
    } else {
      assert Position(xs[1..], key, id) == Some(p - 1);
      RemoveFirstIsRetain(xs[1..], key, id, p - 1);
      DropInTail(xs, p);
    }
  }

  /** Dropping place `p > 0` keeps the head and drops place `p - 1` of the
      tail. */
  lemma DropInTail<T>(xs: seq<T>, p: nat)
    requires 0 < p < |xs|
    ensures xs[..p] + xs[p + 1..] == [xs[0]] + (xs[1..][..p - 1] + xs[1..][p..])
  {
  }

  /** The tail of a sequence with distinct ids has distinct ids. */
  lemma UniqueKeysTail<T>(xs: seq<T>, key: T -> string)
    requires UniqueKeys(xs, key) && |xs| > 0
    ensures UniqueKeys(xs[1..], key)
  {
    assert forall i :: 0 <= i < |xs| - 1 ==> xs[1..][i] == xs[i + 1];
  }

  /** A rearrangement of a sequence with distinct ids has distinct ids. */
  lemma PermutationKeepsUnique<T>(a: seq<T>, b: seq<T>, key: T -> string)
    requires multiset(a) == multiset(b) && UniqueKeys(a, key)
    ensures UniqueKeys(b, key)
  {
    DistinctCountAtMostOne(a);
    CountsAtMostOneDistinct(b);
    forall i, j | 0 <= i < j < |b| ensures key(b[i]) != key(b[j]) {
      var x := IndexOf(a, b, i);
      var y := IndexOf(a, b, j);
    }
  }

  /** Two sequences with distinct ids and the same members hold each member
      exactly once, so they are rearrangements of each other. */
  lemma SameMembersPermutation<T>(a: seq<T>, b: seq<T>, key: T -> string)
    requires UniqueKeys(a, key) && UniqueKeys(b, key)
    requires forall x :: x in a <==> x in b
    ensures multiset(a) == multiset(b)
  {
    DistinctCountAtMostOne(a);
    DistinctCountAtMostOne(b);
    forall z ensures multiset(a)[z] == multiset(b)[z] {
      assert z in multiset(a) <==> z in a;
      assert z in multiset(b) <==> z in b;
    }
  }
}
