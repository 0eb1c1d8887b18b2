/** Character and string helpers the system relies on: ASCII case mapping,
    ASCII case-insensitive comparison (`eq_ignore_ascii_case`), `str::trim`
    and `str::split` on a single separator character. */
module Ascii {

  predicate IsUpper(c: char) { 'A' <= c <= 'Z' }

  predicate IsLower(c: char) { 'a' <= c <= 'z' }

  /** `char::to_ascii_lowercase`: only 'A'..'Z' change. */
  function ToLower(c: char): char
  {
    if IsUpper(c) then (c as int + 32) as char else c
  }

  /** `char::to_ascii_uppercase`: only 'a'..'z' change. */
  function ToUpper(c: char): char
  {
    if IsLower(c) then (c as int - 32) as char else c
  }

  function LowerStr(s: string): (r: string)
    ensures |r| == |s|
    ensures forall i :: 0 <= i < |s| ==> r[i] == ToLower(s[i])
  {
    seq(|s|, i requires 0 <= i < |s| => ToLower(s[i]))
  }

  function UpperStr(s: string): (r: string)
    ensures |r| == |s|
    ensures forall i :: 0 <= i < |s| ==> r[i] == ToUpper(s[i])
  {
    seq(|s|, i requires 0 <= i < |s| => ToUpper(s[i]))
  }

  /** Upper-casing first makes no difference to the lower-cased form. */
  lemma LowerUpperLower(s: string)
    ensures LowerStr(UpperStr(s)) == LowerStr(s)
  {
  }

  /** Lower-casing is idempotent and never leaves an upper-case letter. */
  lemma LowerStrIdempotent(s: string)
    ensures LowerStr(LowerStr(s)) == LowerStr(s)
    ensures forall i :: 0 <= i < |s| ==> !IsUpper(LowerStr(s)[i])
  {
  }

  /** `str::eq_ignore_ascii_case`: equal lengths and equal after ASCII
      lower-casing, character by character. Comparing UTF-8 bytes (as Rust
      does) and comparing characters agree, because ASCII lower-casing only
      touches bytes below 0x80 and UTF-8 is injective. */
  predicate EqIgnoreCase(a: string, b: string)
  {
    |a| == |b| && forall i :: 0 <= i < |a| ==> ToLower(a[i]) == ToLower(b[i])
  }

  /** The comparison is exactly equality of the lower-cased strings. */
  lemma EqIgnoreCaseIsLowerEq(a: string, b: string)
    ensures EqIgnoreCase(a, b) <==> LowerStr(a) == LowerStr(b)
  {
    if LowerStr(a) == LowerStr(b) {
      assert |a| == |b|;
      forall i | 0 <= i < |a| ensures ToLower(a[i]) == ToLower(b[i]) {
        assert LowerStr(a)[i] == LowerStr(b)[i];
      }
    }
  }

  /** ... and therefore an equivalence relation. */
  lemma EqIgnoreCaseEquivalence(a: string, b: string, c: string)
    ensures EqIgnoreCase(a, a)
    ensures EqIgnoreCase(a, b) ==> EqIgnoreCase(b, a)
    ensures EqIgnoreCase(a, b) && EqIgnoreCase(b, c) ==> EqIgnoreCase(a, c)
  {
  }

  /** `char::is_whitespace`: the Unicode White_Space property. */
  predicate IsWhitespace(c: char)
  {
    || ('\U{9}' <= c <= '\U{D}') || c == ' ' || c == '\U{85}' || c == '\U{A0}'
    || c == '\U{1680}' || ('\U{2000}' <= c <= '\U{200A}') || c == '\U{2028}'
    || c == '\U{2029}' || c == '\U{202F}' || c == '\U{205F}' || c == '\U{3000}'
  }

  function TrimStart(s: string): (r: string)
    ensures |r| <= |s| && r == s[|s| - |r|..]
    ensures |r| > 0 ==> !IsWhitespace(r[0])
    ensures forall i :: 0 <= i < |s| - |r| ==> IsWhitespace(s[i])
  {
    if |s| > 0 && IsWhitespace(s[0]) then TrimStart(s[1..]) else s
  }

  function TrimEnd(s: string): (r: string)
    ensures |r| <= |s| && r == s[..|r|]
    ensures |r| > 0 ==> !IsWhitespace(r[|r| - 1])
    ensures forall i :: |r| <= i < |s| ==> IsWhitespace(s[i])
  {
    if |s| > 0 && IsWhitespace(s[|s| - 1]) then TrimEnd(s[..|s| - 1]) else s
  }

  /** `r` is the infix `s[i..j]` and everything outside it is white space. */
  predicate TrimmedAt(s: string, r: string, i: int, j: int)
  {
    && 0 <= i <= j <= |s| && r == s[i..j]
    && (forall k :: 0 <= k < i ==> IsWhitespace(s[k]))
    && (forall k :: j <= k < |s| ==> IsWhitespace(s[k]))
  }

  /** `str::trim`: the longest infix that neither starts nor ends with
      white space, obtained by dropping white space from both ends. */
  function Trim(s: string): (r: string)
    ensures exists i, j :: TrimmedAt(s, r, i, j)
    ensures |r| > 0 ==> !IsWhitespace(r[0]) && !IsWhitespace(r[|r| - 1])
  {
    var t := TrimStart(s);
    var r := TrimEnd(t);
    TrimDrops(s, t, r);
    r
  }

  /** Dropping a white-space prefix of `s` (leaving `t`) and then a
      white-space suffix of `t` (leaving `r`) leaves an infix of `s` with
      only white space around it. */
  lemma TrimDrops(s: string, t: string, r: string)
    requires |t| <= |s| && t == s[|s| - |t|..]
    requires forall k :: 0 <= k < |s| - |t| ==> IsWhitespace(s[k])
    requires |r| <= |t| && r == t[..|r|]
    requires forall k :: |r| <= k < |t| ==> IsWhitespace(t[k])
    ensures TrimmedAt(s, r, |s| - |t|, |s| - |t| + |r|)
  {
    var i := |s| - |t|;
    var j := i + |r|;
    assert r == s[i..j] by {
      forall k | 0 <= k < |r| ensures r[k] == s[i + k] {
        assert r[k] == t[k];
      }
    }
    forall k | j <= k < |s| ensures IsWhitespace(s[k]) {
      assert s[k] == t[k - i];
    }
  }

  /** Joins the pieces with `sep` between consecutive pieces. */
  function Join(parts: seq<string>, sep: char): string
    requires |parts| >= 1
  {
    if |parts| == 1 then parts[0] else parts[0] + [sep] + Join(parts[1..], sep)
  }

  /** `str::split(sep)` for a single-character separator: one more piece
      than there are separators, pieces may be empty, and splitting "" gives
      [""]. */
  function Split(s: string, sep: char): (parts: seq<string>)
    ensures |parts| >= 1
    ensures forall i :: 0 <= i < |parts| ==> sep !in parts[i]
  {
    if |s| == 0 then [""]
    else
      var rest := Split(s[1..], sep);
      if s[0] == sep then [""] + rest
      else [[s[0]] + rest[0]] + rest[1..]
  }

  /** Splitting then joining gives back the input, so no character is lost
      or invented by the split. */
  lemma {:induction false} SplitJoin(s: string, sep: char)
    ensures Join(Split(s, sep), sep) == s
    decreases |s|
  {
    if |s| > 0 {
      var rest := Split(s[1..], sep);
      SplitJoin(s[1..], sep);
      if s[0] == sep {
        assert Split(s, sep)[1..] == rest;
      } else {
        var parts := Split(s, sep);
        assert parts[1..] == rest[1..];
        if |rest| == 1 {
          assert Join(parts, sep) == [s[0]] + rest[0];
        } else {
          assert Join(rest, sep) == rest[0] + [sep] + Join(rest[1..], sep);
          assert Join(parts, sep) == [s[0]] + rest[0] + [sep] + Join(rest[1..], sep);
        }
        assert s == [s[0]] + s[1..];
      }
    }
  }

  /** A string without the separator is a single piece. */
  lemma {:induction false} SplitNoSep(a: string, sep: char)
    requires sep !in a
    ensures Split(a, sep) == [a]
    decreases |a|
  {
    if |a| > 0 {
      SplitNoSep(a[1..], sep);
      assert a == [a[0]] + a[1..];
    }
  }

  /** The first separator ends the first piece. */
  lemma {:induction false} SplitAfter(a: string, b: string, sep: char)
    requires sep !in a
    ensures Split(a + [sep] + b, sep) == [a] + Split(b, sep)
    decreases |a|
  {
    var s := a + [sep] + b;
    if |a| == 0 {
      assert s[1..] == b;
    } else {
      assert s[1..] == a[1..] + [sep] + b;
      SplitAfter(a[1..], b, sep);
      assert a == [a[0]] + a[1..];
    }
  }

  /** Joining pieces that hold no separator and splitting again gives the
      pieces back. */
  lemma {:induction false} JoinSplit(parts: seq<string>, sep: char)
    requires |parts| >= 1
    requires forall i :: 0 <= i < |parts| ==> sep !in parts[i]
    ensures Split(Join(parts, sep), sep) == parts
    decreases |parts|
  {
    if |parts| == 1 {
      SplitNoSep(parts[0], sep);
    } else {
      JoinSplit(parts[1..], sep);
      SplitAfter(parts[0], Join(parts[1..], sep), sep);
      assert parts == [parts[0]] + parts[1..];
    }
  }

  /** Trimming leaves a string alone when neither end is white space. */
  lemma TrimUnchanged(s: string)
    requires |s| > 0 ==> !IsWhitespace(s[0]) && !IsWhitespace(s[|s| - 1])
    ensures Trim(s) == s
  {
  }

  /** Upper-casing leaves a string without lower-case letters alone. */
  lemma UpperUnchanged(s: string)
    requires forall i :: 0 <= i < |s| ==> !IsLower(s[i])
    ensures UpperStr(s) == s
  {
  }
}
