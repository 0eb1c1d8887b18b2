/** Edit distance and fuzzy text similarity used to match text anchors
    (`levenshtein_distance` and `text_similarity` in
    src/vision/screen_recognition.rs). */
module Levenshtein {
  import opened Ascii

  function Min3(x: nat, y: nat, z: nat): nat
  {
    if x <= y && x <= z then x else if y <= z then y else z
  }

  function Cost(c: char, d: char): nat
  {
    if c == d then 0 else 1
  }

  /** Reference definition: the edit distance by the textbook recurrence on
      prefixes. `Dist(a[..i], b[..j])` is cell (i, j) of the source's
      dynamic-programming matrix. */
  function Dist(a: string, b: string): nat
    decreases |a| + |b|
  {
    if |a| == 0 then |b|
    else if |b| == 0 then |a|
    else
      Min3(Dist(a[..|a| - 1], b) + 1,
           Dist(a, b[..|b| - 1]) + 1,
           Dist(a[..|a| - 1], b[..|b| - 1]) + Cost(a[|a| - 1], b[|b| - 1]))
  }

  /** Cell (i, j) of the matrix from its three neighbours. */
  lemma DistStep(a: string, b: string, i: nat, j: nat)
    requires 1 <= i <= |a| && 1 <= j <= |b|
    ensures Dist(a[..i], b[..j]) ==
              Min3(Dist(a[..i - 1], b[..j]) + 1, Dist(a[..i], b[..j - 1]) + 1,
                   Dist(a[..i - 1], b[..j - 1]) + Cost(a[i - 1], b[j - 1]))
  {
    assert a[..i][..i - 1] == a[..i - 1];
    assert b[..j][..j - 1] == b[..j - 1];
  }

  /** Cell (i, j) of the source's matrix, computed on indices: the
      distance from the first `i` characters of `a` to the first `j` of
      `b`. */
  function Cell(a: string, b: string, i: nat, j: nat): nat
    requires i <= |a| && j <= |b|
    decreases i + j
  {
    if i == 0 then j
    else if j == 0 then i
    else Min3(Cell(a, b, i - 1, j) + 1, Cell(a, b, i, j - 1) + 1,
              Cell(a, b, i - 1, j - 1) + Cost(a[i - 1], b[j - 1]))
  }

  /** The matrix agrees with the recurrence on prefixes. */
  lemma {:induction false} CellIsDist(a: string, b: string, i: nat, j: nat)
    requires i <= |a| && j <= |b|
    ensures Cell(a, b, i, j) == Dist(a[..i], b[..j])
    decreases i + j
  {
    if i > 0 && j > 0 {
      CellIsDist(a, b, i - 1, j);
      CellIsDist(a, b, i, j - 1);
      CellIsDist(a, b, i - 1, j - 1);
      CellStep(a, b, i, j);
    } else {
      CellEdge(a, b, i, j);
    }
  }

  /** An inner cell agrees with the recurrence when its three neighbours
      do. */
  lemma CellStep(a: string, b: string, i: nat, j: nat)
    requires 0 < i <= |a| && 0 < j <= |b|
    requires Cell(a, b, i - 1, j) == Dist(a[..i - 1], b[..j])
    requires Cell(a, b, i, j - 1) == Dist(a[..i], b[..j - 1])
    requires Cell(a, b, i - 1, j - 1) == Dist(a[..i - 1], b[..j - 1])
    ensures Cell(a, b, i, j) == Dist(a[..i], b[..j])
  {
    DistStep(a, b, i, j);
  }

  /** The first row and column of the matrix count insertions or
      deletions. */
  lemma CellEdge(a: string, b: string, i: nat, j: nat)
    requires i <= |a| && j <= |b| && (i == 0 || j == 0)
    ensures Cell(a, b, i, j) == Dist(a[..i], b[..j])
  {
  }

  /** The whole matrix's last cell is the distance. */
  lemma CellFull(a: string, b: string)
    ensures Cell(a, b, |a|, |b|) == Dist(a, b)
  {
    CellIsDist(a, b, |a|, |b|);
    assert a[..|a|] == a && b[..|b|] == b;
  }

  /** One pass of the outer loop: row `i` of the matrix from row `i - 1`. */
  method NextRow(a: string, b: string, i: nat, prev: seq<nat>) returns (row: seq<nat>)
    requires 1 <= i <= |a| && |prev| == |b| + 1
    requires forall j {:trigger prev[j]} :: 0 <= j <= |b| ==> prev[j] == Cell(a, b, i - 1, j)
    ensures |row| == |b| + 1
    ensures forall j {:trigger row[j]} :: 0 <= j <= |b| ==> row[j] == Cell(a, b, i, j)
  {
    row := [i];
    var j := 1;
    while j <= |b|
      invariant 1 <= j <= |b| + 1
      invariant |row| == j
      invariant forall k {:trigger row[k]} :: 0 <= k < j ==> row[k] == Cell(a, b, i, k)
    {
      var cost := if a[i - 1] == b[j - 1] then 0 else 1;
      row := row + [Min3(prev[j] + 1, row[j - 1] + 1, prev[j - 1] + cost)];
      j := j + 1;
    }
  }

  /** `levenshtein_distance`: the row-by-row evaluation of the matrix.
      Row i holds the distances from `a[..i]` to every prefix of `b`. */
  method LevenshteinDistance(a: string, b: string) returns (d: nat)
    ensures d == Dist(a, b)
    ensures |a| == 0 ==> d == |b|
    ensures |b| == 0 ==> d == |a|
  {
    if |a| == 0 { return |b|; }
    if |b| == 0 { return |a|; }
    var prev: seq<nat> := seq(|b| + 1, j requires 0 <= j <= |b| => j);
    var i := 1;
    while i <= |a|
      invariant 1 <= i <= |a| + 1
      invariant |prev| == |b| + 1
      invariant forall j {:trigger prev[j]} :: 0 <= j <= |b| ==> prev[j] == Cell(a, b, i - 1, j)
    {
      prev := NextRow(a, b, i, prev);
      i := i + 1;
    }
    CellFull(a, b);
    d := prev[|b|];
  }

  /** The distance never exceeds the longer length (replace the common
      prefix, insert or delete the rest). */
  lemma {:induction false} DistAtMostMax(a: string, b: string)
    ensures Dist(a, b) <= if |a| >= |b| then |a| else |b|
    decreases |a| + |b|
  {
    if |a| > 0 && |b| > 0 {
      DistAtMostMax(a[..|a| - 1], b[..|b| - 1]);
    }
  }

  /** The distance is zero exactly for equal strings. */
  lemma {:induction false} DistZeroIffEqual(a: string, b: string)
    ensures Dist(a, b) == 0 <==> a == b
    decreases |a| + |b|
  {
    if |a| > 0 && |b| > 0 {
      var a', b' := a[..|a| - 1], b[..|b| - 1];
      DistZeroIffEqual(a', b');
      assert a == a' + [a[|a| - 1]] && b == b' + [b[|b| - 1]];
      if a == b {
        assert a' == b';
      }
    }
  }

  function Hamming(a: string, b: string): nat
    requires |a| == |b|
  {
    if |a| == 0 then 0 else Hamming(a[..|a| - 1], b[..|b| - 1]) + Cost(a[|a| - 1], b[|b| - 1])
  }

  /** For equal lengths, substituting every differing character is an edit
      script, so the distance is at most the Hamming distance. */
  lemma {:induction false} DistAtMostHamming(a: string, b: string)
    requires |a| == |b|
    ensures Dist(a, b) <= Hamming(a, b)
    decreases |a|
  {
    if |a| > 0 {
      DistAtMostHamming(a[..|a| - 1], b[..|b| - 1]);
    }
  }

  function Max(x: nat, y: nat): nat { if x >= y then x else y }

  lemma RatioBounds(d: nat, m: nat)
    requires 0 < m && d <= m
    ensures 0.0 <= (d as real) / (m as real) <= 1.0
    ensures (d as real) / (m as real) == 0.0 <==> d == 0
  {
  }

  /** `text_similarity`: 1 for two empty strings, 0 if exactly one is
      empty, otherwise one minus the edit distance of the lower-cased
      strings divided by the longer length. */
  function TextSimilarity(a: string, b: string): (r: real)
    ensures 0.0 <= r <= 1.0
    ensures |a| == 0 && |b| == 0 ==> r == 1.0
    ensures (|a| == 0) != (|b| == 0) ==> r == 0.0
    ensures r == 1.0 <==> LowerStr(a) == LowerStr(b)
    ensures |a| > 0 && |b| > 0 ==>
      r == 1.0 - (Dist(LowerStr(a), LowerStr(b)) as real) / (Max(|a|, |b|) as real)
  {
    var la, lb := LowerStr(a), LowerStr(b);
    if |la| == 0 && |lb| == 0 then 1.0
    else if |la| == 0 || |lb| == 0 then 0.0
    else
      var d := Dist(la, lb);
      DistAtMostMax(la, lb);
      DistZeroIffEqual(la, lb);
      RatioBounds(d, Max(|la|, |lb|));
      1.0 - (d as real) / (Max(|la|, |lb|) as real)
  }

  /** Similarity ignores ASCII case entirely and is symmetric in the sense
      that it only depends on the lower-cased inputs. */
  lemma SimilarityCaseInsensitive(a: string, b: string, a': string, b': string)
    requires EqIgnoreCase(a, a') && EqIgnoreCase(b, b')
    ensures TextSimilarity(a, b) == TextSimilarity(a', b')
  {
    EqIgnoreCaseIsLowerEq(a, a');
    EqIgnoreCaseIsLowerEq(b, b');
  }

  /** The source's test cases: "hello"/"hello" and "HELLO"/"hello" give 1,
      "hello"/"hallo" gives 0.8. (The strings are passed as parameters so
      that the verifier does not unfold the distance on literals.) */
  lemma SimilarityExamples(hello: string, upper: string, hallo: string)
    requires hello == "hello" && upper == "HELLO" && hallo == "hallo"
    ensures TextSimilarity(hello, hello) == 1.0
    ensures TextSimilarity(upper, hello) == 1.0
    ensures TextSimilarity(hello, hallo) == 0.8
  {
    assert LowerStr(upper) == hello by {
      assert forall i :: 0 <= i < 5 ==> LowerStr(upper)[i] == hello[i];
    }
    assert LowerStr(hello) == hello by {
      assert forall i :: 0 <= i < 5 ==> LowerStr(hello)[i] == hello[i];
    }
    assert LowerStr(hallo) == hallo by {
      assert forall i :: 0 <= i < 5 ==> LowerStr(hallo)[i] == hallo[i];
    }
    DistAtMostHamming(hello, hallo);
    assert Hamming(hello, hallo) == 1 by {
      assert hello[0] == hallo[0] && hello[1] != hallo[1];
      assert hello[2] == hallo[2] && hello[3] == hallo[3] && hello[4] == hallo[4];
      assert Hamming(hello[..1], hallo[..1]) == 0 by {
        assert hello[..1][..0] == hallo[..1][..0];
      }
      assert Hamming(hello[..2], hallo[..2]) == 1 by {
        assert hello[..2][..1] == hello[..1] && hallo[..2][..1] == hallo[..1];
      }
      assert Hamming(hello[..3], hallo[..3]) == 1 by {
        assert hello[..3][..2] == hello[..2] && hallo[..3][..2] == hallo[..2];
      }
      assert Hamming(hello[..4], hallo[..4]) == 1 by {
        assert hello[..4][..3] == hello[..3] && hallo[..4][..3] == hallo[..3];
      }
    }
    DistZeroIffEqual(hello, hallo);
  }
}
