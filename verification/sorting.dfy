/** Stable sort by a descending integer key: the model of
    `v.sort_by(|a, b| key(b).cmp(&key(a)))`, used for screen priorities. */
module Sorting {

  ghost predicate SortedDesc<T>(xs: seq<T>, key: T -> int)
  {
    forall i, j :: 0 <= i < j < |xs| ==> key(xs[i]) >= key(xs[j])
  }

  /** Inserts `x` before the first element whose key is at most `key(x)`,
      so `x` precedes the elements of equal key that come after it in the
      input (stability of an insertion sort fed from the back). */
  function InsertDesc<T>(x: T, ys: seq<T>, key: T -> int): (r: seq<T>)
    requires SortedDesc(ys, key)
    ensures SortedDesc(r, key)
    ensures multiset(r) == multiset(ys) + multiset{x}
    ensures |r| == |ys| + 1
  {
    if |ys| == 0 then [x]
    else if key(ys[0]) <= key(x) then [x] + ys
    else
      SortedDescTail(ys, key);
      var rest := InsertDesc(x, ys[1..], key);
      BelowHead(x, ys, rest, key);
      ConsSorted(ys[0], rest, key);
      ConsMultiset(ys, rest, x);
      [ys[0]] + rest
  }

  lemma SortedDescTail<T>(xs: seq<T>, key: T -> int)
    requires SortedDesc(xs, key) && |xs| > 0
    ensures SortedDesc(xs[1..], key)
  {
    assert forall i :: 0 <= i < |xs| - 1 ==> xs[1..][i] == xs[i + 1];
  }

  /** What the tail of a sorted sequence holds, together with an element of
      smaller key, stays below the head. */
  lemma BelowHead<T>(x: T, ys: seq<T>, rest: seq<T>, key: T -> int)
    requires SortedDesc(ys, key) && |ys| > 0 && key(x) < key(ys[0])
    requires multiset(rest) == multiset(ys[1..]) + multiset{x}
    ensures forall k :: 0 <= k < |rest| ==> key(rest[k]) <= key(ys[0])
  {
    forall k | 0 <= k < |rest| ensures key(rest[k]) <= key(ys[0]) {
      assert rest[k] in multiset(rest);
      if rest[k] != x {
        assert rest[k] in multiset(ys[1..]);
        var i :| 0 <= i < |ys[1..]| && ys[1..][i] == rest[k];
        assert ys[i + 1] == rest[k];
      }
    }
  }

  lemma ConsSorted<T>(h: T, rest: seq<T>, key: T -> int)
    requires SortedDesc(rest, key)
    requires forall k :: 0 <= k < |rest| ==> key(rest[k]) <= key(h)
    ensures SortedDesc([h] + rest, key)
  {
    var r := [h] + rest;
    forall i, j | 0 <= i < j < |r| ensures key(r[i]) >= key(r[j]) {
      assert r[j] == rest[j - 1];
      if i > 0 {
        assert r[i] == rest[i - 1];
      }
    }
  }

  lemma ConsMultiset<T>(ys: seq<T>, rest: seq<T>, x: T)
    requires |ys| > 0 && multiset(rest) == multiset(ys[1..]) + multiset{x}
    ensures multiset([ys[0]] + rest) == multiset(ys) + multiset{x}
  {
    assert ys == [ys[0]] + ys[1..];
  }

  /** `sort_by` with a descending comparator: a permutation of the input in
      non-increasing key order. */
  function SortDesc<T>(xs: seq<T>, key: T -> int): (r: seq<T>)
    ensures SortedDesc(r, key)
    ensures multiset(r) == multiset(xs)
    ensures |r| == |xs|
  {
    if |xs| == 0 then []
    else
      assert xs == [xs[0]] + xs[1..];
      InsertDesc(xs[0], SortDesc(xs[1..], key), key)
  }

  ghost predicate StrictlyDesc<T>(xs: seq<T>, key: T -> int)
  {
    forall i, j :: 0 <= i < j < |xs| ==> key(xs[i]) > key(xs[j])
  }

  /** Two sequences in strictly decreasing key order that hold the same
      elements are equal: when the keys are distinct, sorting by key
      determines the order completely. */
  lemma {:induction false} StrictlyDescUnique<T>(xs: seq<T>, ys: seq<T>, key: T -> int)
    requires StrictlyDesc(xs, key) && StrictlyDesc(ys, key)
    requires multiset(xs) == multiset(ys)
    ensures xs == ys
    decreases |xs|
  {
    assert |xs| == |multiset(xs)| == |ys|;
    if |xs| > 0 {
      StrictHeadsAgree(xs, ys, key);
      SameHeadTails(xs, ys);
      StrictlyDescTail(xs, key);
      StrictlyDescTail(ys, key);
      StrictlyDescUnique(xs[1..], ys[1..], key);
      assert xs == [xs[0]] + xs[1..] && ys == [ys[0]] + ys[1..];
    }
  }

  /** The head of a strictly decreasing sequence has the largest key, so two
      such rearrangements of each other start alike. */
  lemma StrictHeadsAgree<T>(xs: seq<T>, ys: seq<T>, key: T -> int)
    requires StrictlyDesc(xs, key) && StrictlyDesc(ys, key)
    requires multiset(xs) == multiset(ys) && |xs| > 0 && |ys| > 0
    ensures xs[0] == ys[0]
  {
    var j := IndexOf(ys, xs, 0);
    var i := IndexOf(xs, ys, 0);
  }

  /** Rearrangements with the same head have rearranged tails. */
  lemma SameHeadTails<T>(xs: seq<T>, ys: seq<T>)
    requires multiset(xs) == multiset(ys) && |xs| > 0 && |ys| > 0 && xs[0] == ys[0]
    ensures multiset(xs[1..]) == multiset(ys[1..])
  {
    assert xs == [xs[0]] + xs[1..] && ys == [ys[0]] + ys[1..];
    assert multiset(xs) == multiset{xs[0]} + multiset(xs[1..]);
    assert multiset(ys) == multiset{xs[0]} + multiset(ys[1..]);
    forall z ensures multiset(xs[1..])[z] == multiset(ys[1..])[z] {
      assert multiset(xs)[z] == multiset{xs[0]}[z] + multiset(xs[1..])[z];
      assert multiset(ys)[z] == multiset{xs[0]}[z] + multiset(ys[1..])[z];
    }
  }

  lemma StrictlyDescTail<T>(xs: seq<T>, key: T -> int)
    requires StrictlyDesc(xs, key) && |xs| > 0
    ensures StrictlyDesc(xs[1..], key)
  {
    assert forall i :: 0 <= i < |xs| - 1 ==> xs[1..][i] == xs[i + 1];
  }

  /** `InsertDesc` places `x` after exactly the elements of larger key, in
      front of the first element whose key is not larger. */
  lemma {:induction false} InsertDescShape<T>(x: T, ys: seq<T>, key: T -> int) returns (m: nat)
    requires SortedDesc(ys, key)
    ensures m <= |ys| && InsertDesc(x, ys, key) == ys[..m] + [x] + ys[m..]
    ensures forall t :: 0 <= t < m ==> key(ys[t]) > key(x)
    decreases |ys|
  {
    if |ys| == 0 || key(ys[0]) <= key(x) {
      m := 0;
    } else {
      var m' := InsertDescShape(x, ys[1..], key);
      m := m' + 1;
      assert ys[..m] == [ys[0]] + ys[1..][..m'];
      assert ys[m..] == ys[1..][m'..];
      forall t | 1 <= t < m ensures key(ys[t]) > key(x) {
        assert ys[t] == ys[1..][t - 1];
      }
    }
  }

  /** The same placement, by index. */
  lemma InsertDescAt<T>(x: T, ys: seq<T>, key: T -> int) returns (m: nat)
    requires SortedDesc(ys, key)
    ensures m <= |ys| && |InsertDesc(x, ys, key)| == |ys| + 1
    ensures InsertDesc(x, ys, key)[m] == x
    ensures forall t :: 0 <= t < m ==> InsertDesc(x, ys, key)[t] == ys[t] && key(ys[t]) > key(x)
    ensures forall t :: m < t <= |ys| ==> InsertDesc(x, ys, key)[t] == ys[t - 1]
  {
    m := InsertDescShape(x, ys, key);
    var r := InsertDesc(x, ys, key);
    forall t | m < t <= |ys| ensures r[t] == ys[t - 1] {
      assert r[t] == ys[m..][t - m - 1];
    }
  }

  /** `SortDesc` is stable: of two elements with equal keys, the one earlier
      in the input is earlier in the output. */
  lemma {:induction false} SortDescStable<T>(xs: seq<T>, key: T -> int, i: nat, j: nat) returns (p: nat, q: nat)
    requires i < j < |xs| && key(xs[i]) == key(xs[j])
    ensures p < q < |xs|
    ensures SortDesc(xs, key)[p] == xs[i] && SortDesc(xs, key)[q] == xs[j]
    decreases |xs|
  {
    if i == 0 {
      p, q := HeadBeforeEqual(xs, key, j);
    } else {
      var tail := xs[1..];
      assert tail[i - 1] == xs[i] && tail[j - 1] == xs[j];
      var p0, q0 := SortDescStable(tail, key, i - 1, j - 1);
      p, q := TailOrderKept(xs, key, p0, q0);
    }
  }

  /** The head of the input lands before every later element of equal
      key. */
  lemma HeadBeforeEqual<T>(xs: seq<T>, key: T -> int, j: nat) returns (p: nat, q: nat)
    requires 0 < j < |xs| && key(xs[0]) == key(xs[j])
    ensures p < q < |xs| && SortDesc(xs, key)[p] == xs[0] && SortDesc(xs, key)[q] == xs[j]
  {
    var tail := xs[1..];
    assert tail[j - 1] == xs[j];
    var sorted := SortDesc(tail, key);
    var q0 := IndexOf(sorted, tail, j - 1);
    SortDescCons(xs, key);
    p, q := InsertBeforeEqual(xs[0], sorted, key, q0);
  }

  /** Sorting the whole input keeps the order that sorting its tail gave. */
  lemma TailOrderKept<T>(xs: seq<T>, key: T -> int, p0: nat, q0: nat) returns (p: nat, q: nat)
    requires 0 < |xs| && p0 < q0 < |xs| - 1
    ensures p < q < |xs|
    ensures SortDesc(xs, key)[p] == SortDesc(xs[1..], key)[p0]
    ensures SortDesc(xs, key)[q] == SortDesc(xs[1..], key)[q0]
  {
    SortDescCons(xs, key);
    p, q := InsertKeepsOrder(xs[0], SortDesc(xs[1..], key), key, p0, q0);
  }

  /** Sorting a non-empty sequence inserts its head into the sorted tail. */
  lemma SortDescCons<T>(xs: seq<T>, key: T -> int)
    requires |xs| > 0
    ensures SortDesc(xs, key) == InsertDesc(xs[0], SortDesc(xs[1..], key), key)
  {
  }

  /** An inserted element lands before every element of equal key. */
  lemma InsertBeforeEqual<T>(x: T, s: seq<T>, key: T -> int, q0: nat) returns (p: nat, q: nat)
    requires SortedDesc(s, key) && q0 < |s| && key(s[q0]) == key(x)
    ensures p < q <= |s| && InsertDesc(x, s, key)[p] == x && InsertDesc(x, s, key)[q] == s[q0]
  {
    var m := InsertDescAt(x, s, key);
    p, q := m, q0 + 1;
  }

  /** Inserting one element keeps the order of the others. */
  lemma InsertKeepsOrder<T>(x: T, s: seq<T>, key: T -> int, p0: nat, q0: nat) returns (p: nat, q: nat)
    requires SortedDesc(s, key) && p0 < q0 < |s|
    ensures p < q <= |s| && InsertDesc(x, s, key)[p] == s[p0] && InsertDesc(x, s, key)[q] == s[q0]
  {
    var m := InsertDescAt(x, s, key);
    p := if p0 < m then p0 else p0 + 1;
    q := if q0 < m then q0 else q0 + 1;
  }

  /** Where an element of `ys` sits in a rearrangement `xs` of it. */
  lemma IndexOf<T>(xs: seq<T>, ys: seq<T>, k: nat) returns (i: nat)
    requires multiset(xs) == multiset(ys) && k < |ys|
    ensures i < |xs| && xs[i] == ys[k]
  {
    assert ys[k] in multiset(xs);
    i :| 0 <= i < |xs| && xs[i] == ys[k];
  }

  /** Pairwise distinct elements occur at most once each. */
  lemma {:induction false} DistinctCountAtMostOne<T>(xs: seq<T>)
    requires forall i, j :: 0 <= i < j < |xs| ==> xs[i] != xs[j]
    ensures forall z :: multiset(xs)[z] <= 1
    decreases |xs|
  {
    if |xs| > 0 {
      var rest := xs[1..];
      assert xs == [xs[0]] + rest;
      assert forall k :: 0 <= k < |rest| ==> rest[k] == xs[k + 1];
      DistinctCountAtMostOne(rest);
      assert xs[0] !in multiset(rest);
    }
  }

  /** Elements that occur at most once each sit at distinct positions. */
  lemma CountsAtMostOneDistinct<T>(xs: seq<T>)
    requires forall z :: multiset(xs)[z] <= 1
    ensures forall i, j :: 0 <= i < j < |xs| ==> xs[i] != xs[j]
  {
    forall i, j | 0 <= i < j < |xs| ensures xs[i] != xs[j] {
      assert xs == xs[..j] + xs[j..];
      assert multiset(xs)[xs[j]] == multiset(xs[..j])[xs[j]] + multiset(xs[j..])[xs[j]];
      assert xs[j] == xs[j..][0];
      assert xs[i] == xs[..j][i];
    }
  }

  /** A sorted rearrangement of a strictly decreasing sequence is strictly
      decreasing: ties would need an element twice. */
  lemma SortedPermutationOfStrict<T>(xs: seq<T>, ys: seq<T>, key: T -> int)
    requires SortedDesc(xs, key) && StrictlyDesc(ys, key)
    requires multiset(xs) == multiset(ys)
    ensures StrictlyDesc(xs, key)
  {
    DistinctCountAtMostOne(ys);
    CountsAtMostOneDistinct(xs);
    forall i, j | 0 <= i < j < |xs| ensures key(xs[i]) > key(xs[j]) {
      var a := IndexOf(ys, xs, i);
      var b := IndexOf(ys, xs, j);
    }
  }
}
