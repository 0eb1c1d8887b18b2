/** Machine-number conventions of the system, written out over unbounded
    integers and reals: bytes, the `u32` range, and Rust's saturating
    float-to-integer `as` casts (which truncate toward zero and clamp
    negative values to 0). */
module Numeric {

  type byte = x: int | 0 <= x < 256

  const U32_MAX: nat := 0xFFFF_FFFF

  type u32 = x: int | 0 <= x <= U32_MAX

  /** Largest integer not above `r`. */
  function Floor(r: real): int
  {
    r.Floor
  }

  /** `f as usize` for a finite float: negative values become 0, others are
      truncated. The upper saturation point (2^64 - 1) is never reached by
      the image sizes in the model and is not represented. */
  function ToUsize(r: real): (n: nat)
    ensures r <= 0.0 ==> n == 0
    ensures r >= 0.0 ==> n as real <= r < n as real + 1.0
  {
    if r <= 0.0 then 0 else Floor(r)
  }

  /** `f as u32` for a finite float: truncation, saturating at 0 and at
      `U32_MAX`. */
  function ToU32(r: real): (n: u32)
    ensures r <= 0.0 ==> n == 0
    ensures 0.0 <= r < U32_MAX as real ==> n as real <= r < n as real + 1.0
    ensures r >= U32_MAX as real ==> n == U32_MAX
  {
    if r <= 0.0 then 0 else if r >= U32_MAX as real then U32_MAX else Floor(r)
  }

  /** A whole number in the `u32` range survives the cast unchanged. */
  lemma ToU32Whole(n: nat)
    ensures n <= U32_MAX ==> ToU32(n as real) == n
  {
  }

  /** `v.clamp(0.0, 255.0) as u8`. */
  function ClampToByte(r: real): (b: byte)
    ensures r <= 0.0 ==> b == 0
    ensures r >= 255.0 ==> b == 255
    ensures 0.0 <= r <= 255.0 ==> b as real <= r < b as real + 1.0
  {
    if r <= 0.0 then 0 else if r >= 255.0 then 255 else Floor(r)
  }

  /** Truncating cast is monotone: a larger value never gives a smaller byte. */
  lemma ClampToByteMonotone(r: real, s: real)
    requires r <= s
    ensures ClampToByte(r) <= ClampToByte(s)
  {
  }

  /** Truncating cast is monotone. */
  lemma ToUsizeMonotone(r: real, s: real)
    requires r <= s
    ensures ToUsize(r) <= ToUsize(s)
  {
  }

  /** A value clamped into [0, 1]: `clamp(0.0, 1.0)` and its spelled-out
      forms. */
  function Clamp01(v: real): (r: real)
    ensures 0.0 <= r <= 1.0
    ensures 0.0 <= v <= 1.0 ==> r == v
  {
    if v < 0.0 then 0.0 else if v > 1.0 then 1.0 else v
  }

  function Min(x: int, y: int): int { if x <= y then x else y }

  function Max(x: int, y: int): int { if x >= y then x else y }

  /** The least of a non-empty list of coordinates: `fold(INFINITY, min)`. */
  function Least(xs: seq<real>): (m: real)
    requires |xs| > 0
    ensures forall i :: 0 <= i < |xs| ==> m <= xs[i]
    ensures exists i :: 0 <= i < |xs| && m == xs[i]
  {
    if |xs| == 1 then xs[0]
    else
      var m := Least(xs[1..]);
      assert forall i :: 1 <= i < |xs| ==> xs[i] == xs[1..][i - 1];
      if xs[0] <= m then xs[0] else m
  }

  /** The greatest of a non-empty list of coordinates: `fold(NEG_INFINITY, max)`. */
  function Greatest(xs: seq<real>): (m: real)
    requires |xs| > 0
    ensures forall i :: 0 <= i < |xs| ==> xs[i] <= m
    ensures exists i :: 0 <= i < |xs| && m == xs[i]
  {
    if |xs| == 1 then xs[0]
    else
      var m := Greatest(xs[1..]);
      assert forall i :: 1 <= i < |xs| ==> xs[i] == xs[1..][i - 1];
      if xs[0] >= m then xs[0] else m
  }

  /** The x coordinates of a polygon's points. */
  function Xs(polygon: seq<(real, real)>): (xs: seq<real>)
    ensures |xs| == |polygon| && forall i :: 0 <= i < |polygon| ==> xs[i] == polygon[i].0
  {
    seq(|polygon|, i requires 0 <= i < |polygon| => polygon[i].0)
  }

  /** The y coordinates of a polygon's points. */
  function Ys(polygon: seq<(real, real)>): (ys: seq<real>)
    ensures |ys| == |polygon| && forall i :: 0 <= i < |polygon| ==> ys[i] == polygon[i].1
  {
    seq(|polygon|, i requires 0 <= i < |polygon| => polygon[i].1)
  }
}
