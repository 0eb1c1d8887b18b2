/** The pure parts of the vision pipeline in src/vision/mod.rs: cutting a
    region out of a frame, choosing an upscale factor for small regions,
    keeping confident OCR words, bounding a polygon, and initialising an
    OCR backend at most once. Recognisers and engine construction are
    parameters. */
module Vision {
  import opened Wrappers
  import opened Numeric
  import opened Registry
  import opened OcrPreprocess
  import opened WindowsOcr

  // ---------------------------------------------------------------------
  // Region extraction
  // ---------------------------------------------------------------------

  /** A region after clamping to the image. */
  datatype Clamped = Clamped(x: nat, y: nat, w: nat, h: nat)

  /** The clamping of `extract_region`: the corner moves into the image and
      the size shrinks to what remains to its right and below. */
  function ClampRegion(iw: nat, ih: nat, x: nat, y: nat, w: nat, h: nat): (c: Clamped)
    ensures c.x + c.w <= iw && c.y + c.h <= ih
    ensures c.w <= w && c.h <= h
    ensures x <= iw ==> c.x == x
    ensures y <= ih ==> c.y == y
    ensures x + w <= iw && y + h <= ih ==> c == Clamped(x, y, w, h)
  {
    var cx := Min(x, iw);
    var cy := Min(y, ih);
    Clamped(cx, cy, Min(w, iw - cx), Min(h, ih - cy))
  }

  /** First byte of image row `row` at the region's left edge. */
  function RowStart(iw: nat, c: Clamped, row: nat): nat
  {
    (row * iw + c.x) * 4
  }

  /** One past the region's last byte in image row `row`. */
  function RowEnd(iw: nat, c: Clamped, row: nat): nat
  {
    RowStart(iw, c, row) + c.w * 4
  }

  /** The region's bytes of one row, or nothing when the row runs past the
      buffer. */
  function RowBytes(data: seq<byte>, iw: nat, c: Clamped, row: nat): (r: seq<byte>)
    ensures RowEnd(iw, c, row) <= |data| ==> |r| == 4 * c.w
    ensures RowEnd(iw, c, row) > |data| ==> r == []
  {
    if RowEnd(iw, c, row) <= |data| then data[RowStart(iw, c, row)..RowEnd(iw, c, row)] else []
  }

  /** The rows `row .. row + count` of the region, each appended when it
      lies inside the buffer. */
  function CopyRows(data: seq<byte>, iw: nat, c: Clamped, row: nat, count: nat): (r: seq<byte>)
    decreases count
  {
    if count == 0 then [] else RowBytes(data, iw, c, row) + CopyRows(data, iw, c, row + 1, count - 1)
  }

  /** What `extract_region` demands to run without a `u32` overflow: the
      requested byte count `width * height * 4`, and the start offset of the
      last row copied. */
  predicate ExtractDefined(iw: nat, ih: nat, x: nat, y: nat, w: nat, h: nat)
  {
    && w * h * 4 <= U32_MAX
    && var c := ClampRegion(iw, ih, x, y, w, h);
       c.h > 0 ==> RowStart(iw, c, c.y + c.h - 1) <= U32_MAX
  }

  /** A buffer holding every byte of an `iw` by `ih` RGBA image. */
  predicate FullImage(data: seq<byte>, iw: nat, ih: nat)
  {
    |data| >= 4 * (iw * ih)
  }

  /** `extract_region`: the rows of the clamped region, each skipped when
      it does not fit in the buffer, so never more than `4 w' h'` bytes. */
  function ExtractRegion(data: seq<byte>, iw: nat, ih: nat, x: nat, y: nat, w: nat, h: nat): (out: seq<byte>)
    requires ExtractDefined(iw, ih, x, y, w, h)
    ensures var c := ClampRegion(iw, ih, x, y, w, h);
            |out| <= 4 * (c.w * c.h)
  {
    var c := ClampRegion(iw, ih, x, y, w, h);
    CopyRowsAtMost(data, iw, c, c.y, c.h);
    RowsTimesWidth(c.h, c.w);
    CopyRows(data, iw, c, c.y, c.h)
  }

  /** Every row of a clamped region ends inside a full image. */
  lemma RowInsideImage(iw: nat, ih: nat, c: Clamped, row: nat)
    requires c.x + c.w <= iw && row < ih
    ensures RowEnd(iw, c, row) <= 4 * (iw * ih)
  {
    MulMonotone(row + 1, ih, iw);
    assert (row + 1) * iw == row * iw + iw;
  }

  /** When every row lies inside the buffer, each contributes `4w` bytes. */
  lemma {:induction false} CopyRowsLength(data: seq<byte>, iw: nat, c: Clamped, row: nat, count: nat)
    requires forall r :: row <= r < row + count ==> RowEnd(iw, c, r) <= |data|
    ensures |CopyRows(data, iw, c, row, count)| == count * (4 * c.w)
    decreases count
  {
    if count > 0 {
      CopyRowsLength(data, iw, c, row + 1, count - 1);
      assert (count - 1) * (4 * c.w) + 4 * c.w == count * (4 * c.w);
    }
  }

  /** A slice lying wholly in the second part of a concatenation. */
  lemma SliceAfterPrefix<T>(a: seq<T>, b: seq<T>, i: nat, j: nat)
    requires i <= j <= |b|
    ensures (a + b)[|a| + i..|a| + j] == b[i..j]
  {
  }

  /** The copy of `count` rows is the copy of the first `k` followed by
      the copy of the others. */
  lemma {:induction false} CopyRowsSplit(data: seq<byte>, iw: nat, c: Clamped, row: nat, count: nat, k: nat)
    requires k <= count
    ensures CopyRows(data, iw, c, row, count) == CopyRows(data, iw, c, row, k) + CopyRows(data, iw, c, row + k, count - k)
    decreases k
  {
    if k > 0 {
      CopyRowsSplit(data, iw, c, row + 1, count - 1, k - 1);
      assert row + 1 + (k - 1) == row + k;
    }
  }

  /** Row `k` of the copy, `n = 4w` bytes per row, is image row `row + k`,
      columns of the region. */
  lemma CopyRowsRow(data: seq<byte>, iw: nat, c: Clamped, row: nat, count: nat, k: nat, n: nat)
    requires forall r :: row <= r < row + count ==> RowEnd(iw, c, r) <= |data|
    requires k < count && n == 4 * c.w
    ensures var out := CopyRows(data, iw, c, row, count);
            && 0 <= k * n <= (k + 1) * n <= |out|
            && out[k * n..(k + 1) * n] == RowBytes(data, iw, c, row + k)
  {
    var out := CopyRows(data, iw, c, row, count);
    CopyRowsLength(data, iw, c, row, count);
    CopyRowsLength(data, iw, c, row, k);
    RowOffsets(k, count, n);
    CopyRowsSplit(data, iw, c, row, count, k);
    var front := CopyRows(data, iw, c, row, k);
    var back := CopyRows(data, iw, c, row + k, count - k);
    var mine := RowBytes(data, iw, c, row + k);
    assert back == mine + CopyRows(data, iw, c, row + k + 1, count - k - 1);
    assert back[0..n] == mine;
    SliceAfterPrefix(front, back, 0, n);
  }

  /** Where row `k` of `count` rows of `n` bytes starts and ends. */
  lemma RowOffsets(k: nat, count: nat, n: nat)
    requires k < count
    ensures 0 <= k * n <= (k + 1) * n <= count * n
    ensures (k + 1) * n == k * n + n
    ensures k > 0 ==> k * n == (k - 1) * n + n
  {
    MulMonotone(k + 1, count, n);
    MulMonotone(0, k, n);
  }

  /** On a full image every row of the clamped region lies inside the
      buffer. */
  lemma FullImageRows(data: seq<byte>, iw: nat, ih: nat, c: Clamped)
    requires FullImage(data, iw, ih) && c.x + c.w <= iw && c.y + c.h <= ih
    ensures forall r :: c.y <= r < c.y + c.h ==> RowEnd(iw, c, r) <= |data|
  {
    forall r | c.y <= r < c.y + c.h ensures RowEnd(iw, c, r) <= |data| {
      RowInsideImage(iw, ih, c, r);
    }
  }

  /** On a full image the region has exactly `4 w' h'` bytes for the
      clamped size `w'` by `h'`. */
  lemma ExtractRegionLength(data: seq<byte>, iw: nat, ih: nat, x: nat, y: nat, w: nat, h: nat)
    requires ExtractDefined(iw, ih, x, y, w, h) && FullImage(data, iw, ih)
    ensures var c := ClampRegion(iw, ih, x, y, w, h);
            |ExtractRegion(data, iw, ih, x, y, w, h)| == c.h * (4 * c.w) == 4 * (c.w * c.h)
  {
    var c := ClampRegion(iw, ih, x, y, w, h);
    FullImageRows(data, iw, ih, c);
    CopyRowsLength(data, iw, c, c.y, c.h);
    RowsTimesWidth(c.h, c.w);
  }

  /** `h` rows of `4 w` bytes are `4 (w h)` bytes. */
  lemma RowsTimesWidth(h: nat, w: nat)
    ensures h * (4 * w) == 4 * (w * h)
  {
  }

  /** On a full image row `k` of the region is image row `y' + k` from
      column `x'` on, `4 w'` bytes long. */
  lemma ExtractRegionRow(data: seq<byte>, iw: nat, ih: nat, x: nat, y: nat, w: nat, h: nat, k: nat)
    requires ExtractDefined(iw, ih, x, y, w, h) && FullImage(data, iw, ih)
    requires k < ClampRegion(iw, ih, x, y, w, h).h
    ensures var c := ClampRegion(iw, ih, x, y, w, h);
            var out := ExtractRegion(data, iw, ih, x, y, w, h);
            && 0 <= k * (4 * c.w) <= (k + 1) * (4 * c.w) <= |out|
            && RowStart(iw, c, c.y + k) <= RowEnd(iw, c, c.y + k) <= |data|
            && out[k * (4 * c.w)..(k + 1) * (4 * c.w)] == data[RowStart(iw, c, c.y + k)..RowEnd(iw, c, c.y + k)]
  {
    var c := ClampRegion(iw, ih, x, y, w, h);
    FullImageRows(data, iw, ih, c);
    CopyRowsRow(data, iw, c, c.y, c.h, k, 4 * c.w);
  }

  /** Rows that do not fit in a short buffer are skipped, so the region
      never has more than `4 w' h'` bytes. */
  lemma {:induction false} CopyRowsAtMost(data: seq<byte>, iw: nat, c: Clamped, row: nat, count: nat)
    ensures |CopyRows(data, iw, c, row, count)| <= count * (4 * c.w)
    decreases count
  {
    if count > 0 {
      CopyRowsAtMost(data, iw, c, row + 1, count - 1);
      assert (count - 1) * (4 * c.w) + 4 * c.w == count * (4 * c.w);
    }
  }

  // ---------------------------------------------------------------------
  // Auto-scale
  // ---------------------------------------------------------------------

  /** `MIN_OCR_DIMENSION`: the side length below which a region is
      upscaled. */
  const MinOcrDimension: nat := 80

  /** Smallest integer not below `r`. */
  function Ceil(r: real): (n: int)
    ensures r <= n as real < r + 1.0
  {
    -Floor(-r)
  }

  /** `(80.0 / d as f32).ceil() as u32`: the factor that brings side `d` to
      80 pixels. Division by zero gives infinity, which the cast saturates
      to `U32_MAX`. */
  function AxisScale(d: nat): (s: u32)
    ensures d == 0 ==> s == U32_MAX
    ensures d > 0 ==> s >= 1 && (s * d) as real >= MinOcrDimension as real
    ensures d > 0 && d < MinOcrDimension ==> s >= 2
    ensures d >= MinOcrDimension ==> s == 1
  {
    if d == 0 then U32_MAX
    else
      var q := MinOcrDimension as real / d as real;
      assert q <= 80.0;
      var s := ToU32(Ceil(q) as real);
      assert s as real * d as real >= q * d as real;
      s
  }

  /** The automatic upscale factor of `process_region_with_preprocessing`:
      one for regions at least 80 pixels each way, otherwise the larger
      factor of the two sides held between two and four. */
  function AutoScale(w: nat, h: nat): (s: nat)
    ensures s == 1 <==> w >= MinOcrDimension && h >= MinOcrDimension
    ensures s != 1 ==> 2 <= s <= 4
  {
    if h < MinOcrDimension || w < MinOcrDimension then
      Min(Max(Max(AxisScale(h), AxisScale(w)), 2), 4)
    else 1
  }

  /** Below the cap of four, the chosen factor brings both sides to at least
      80 pixels; a side of zero always gets the cap. */
  lemma AutoScaleReaches(w: nat, h: nat)
    ensures AutoScale(w, h) < 4 ==> w * AutoScale(w, h) >= MinOcrDimension && h * AutoScale(w, h) >= MinOcrDimension
    ensures w == 0 || h == 0 ==> AutoScale(w, h) == 4
  {
    var s := AutoScale(w, h);
    if s < 4 && s != 1 {
      assert AxisScale(h) <= s && AxisScale(w) <= s;
      MulMonotone(AxisScale(h), s, h);
      MulMonotone(AxisScale(w), s, w);
    }
  }

  /** `pp.scale.max(auto_scale)`: the user's factor, raised to the automatic
      one. */
  function EffectiveScale(user: nat, auto: nat): (s: nat)
    ensures s >= user && s >= auto && (s == user || s == auto)
  {
    Max(user, auto)
  }

  /** The settings a region is preprocessed with: the caller's with the
      effective scale, or for a small region without settings the defaults
      enabled at the automatic scale, or none at all. */
  function RegionSettings(pp: Option<Settings>, auto: nat, defaults: Settings): (r: Option<Settings>)
    ensures pp.Some? ==> r == Some(pp.value.(scale := EffectiveScale(pp.value.scale, auto)))
    ensures pp.None? && auto > 1 ==> r == Some(defaults.(enabled := true, scale := auto))
    ensures pp.None? && auto <= 1 ==> r.None?
  {
    match pp
    case Some(st) =>
      var eff := EffectiveScale(st.scale, auto);
      if eff != st.scale then Some(st.(scale := eff)) else Some(st)
    case None =>
      if auto > 1 then Some(defaults.(enabled := true, scale := auto)) else None
  }

  /** What preprocessing demands of the buffer and size it is handed. */
  predicate RegionPreprocessDefined(len: nat, w: nat, h: nat, st: Option<Settings>)
  {
    st.Some? ==> PreprocessDefined(len, w, h, st.value)
  }

  /** Preprocessing under optional settings; without settings the buffer
      and size pass through. */
  function PreprocessOptional(data: seq<byte>, w: nat, h: nat, st: Option<Settings>): (r: Processed)
    requires RegionPreprocessDefined(|data|, w, h, st)
    ensures st.None? ==> r == Processed(data, w, h)
  {
    match st
    case Some(s) => Preprocess(data, w, h, s)
    case None => Processed(data, w, h)
  }

  /** The region-preprocessing step of `process_region_with_preprocessing`
      as written: the extracted (clamped) bytes go to preprocessing together
      with the REQUESTED width and height. */
  function PreprocessRegionAsWritten(data: seq<byte>, iw: nat, ih: nat, x: nat, y: nat, w: nat, h: nat,
                                     pp: Option<Settings>, defaults: Settings): (r: Processed)
    requires ExtractDefined(iw, ih, x, y, w, h)
    requires RegionPreprocessDefined(|ExtractRegion(data, iw, ih, x, y, w, h)|, w, h,
                                     RegionSettings(pp, AutoScale(w, h), defaults))
    ensures var st := RegionSettings(pp, AutoScale(w, h), defaults);
            var k := if st.Some? && st.value.enabled && st.value.scale > 1 then st.value.scale else 1;
            r.width == w * k && r.height == h * k
  {
    var region := ExtractRegion(data, iw, ih, x, y, w, h);
    PreprocessOptional(region, w, h, RegionSettings(pp, AutoScale(w, h), defaults))
  }

  /** The region-preprocessing step with the size of the bytes actually
      extracted: the clamped width and height. */
  function PreprocessRegion(data: seq<byte>, iw: nat, ih: nat, x: nat, y: nat, w: nat, h: nat,
                            pp: Option<Settings>, defaults: Settings): (r: Processed)
    requires ExtractDefined(iw, ih, x, y, w, h)
    requires var c := ClampRegion(iw, ih, x, y, w, h);
             RegionPreprocessDefined(|ExtractRegion(data, iw, ih, x, y, w, h)|, c.w, c.h,
                                     RegionSettings(pp, AutoScale(w, h), defaults))
    ensures var c := ClampRegion(iw, ih, x, y, w, h);
            var st := RegionSettings(pp, AutoScale(w, h), defaults);
            var k := if st.Some? && st.value.enabled && st.value.scale > 1 then st.value.scale else 1;
            r.width == c.w * k && r.height == c.h * k
    ensures r.width == ClampRegion(iw, ih, x, y, w, h).w || r.width > 0
  {
    var c := ClampRegion(iw, ih, x, y, w, h);
    var st := RegionSettings(pp, AutoScale(w, h), defaults);
    ScaledWidth(c.w, if st.Some? && st.value.enabled && st.value.scale > 1 then st.value.scale else 1);
    var region := ExtractRegion(data, iw, ih, x, y, w, h);
    PreprocessOptional(region, c.w, c.h, RegionSettings(pp, AutoScale(w, h), defaults))
  }

  /** The settings a region ends up with, if they enable preprocessing. */
  function EnabledSettings(pp: Option<Settings>, w: nat, h: nat, defaults: Settings): Option<Settings>
  {
    var st := RegionSettings(pp, AutoScale(w, h), defaults);
    if st.Some? && st.value.enabled then st else None
  }

  /** As written, a region hanging over the right edge of the frame cannot
      be preprocessed: on a 100 by 100 frame the region at (50, 0) of
      100 by 10 pixels is clamped to 50 by 10, so 2000 bytes are extracted,
      while the upscale by four asked for by its height of 10 is told the
      image is 100 by 10 and reads up to byte 3999. */
  lemma AsWrittenReadsPastRegion(data: seq<byte>, defaults: Settings)
    requires |data| == 40000
    ensures ExtractDefined(100, 100, 50, 0, 100, 10)
    ensures |ExtractRegion(data, 100, 100, 50, 0, 100, 10)| == 2000
    ensures RegionSettings(None, AutoScale(100, 10), defaults) == Some(defaults.(enabled := true, scale := 4))
    ensures !RegionPreprocessDefined(|ExtractRegion(data, 100, 100, 50, 0, 100, 10)|, 100, 10,
                                     RegionSettings(None, AutoScale(100, 10), defaults))
  {
    assert ClampRegion(100, 100, 50, 0, 100, 10) == Clamped(50, 0, 50, 10);
    ExtractRegionLength(data, 100, 100, 50, 0, 100, 10);
    assert AxisScale(10) == 8;
  }

  /** As written, a region that needs no upscaling still reports the
      requested size: the region at (50, 0) of 100 by 100 pixels on a
      100 by 100 frame comes back as 20000 bytes labelled 100 by 100. */
  lemma AsWrittenSizeMismatch(data: seq<byte>, defaults: Settings)
    requires |data| == 40000
    ensures ExtractDefined(100, 100, 50, 0, 100, 100)
    ensures RegionPreprocessDefined(|ExtractRegion(data, 100, 100, 50, 0, 100, 100)|, 100, 100,
                                    RegionSettings(None, AutoScale(100, 100), defaults))
    ensures var r := PreprocessRegionAsWritten(data, 100, 100, 50, 0, 100, 100, None, defaults);
            r.width == 100 && r.height == 100 && |r.data| == 20000 != 4 * (r.width * r.height)
  {
    assert ClampRegion(100, 100, 50, 0, 100, 100) == Clamped(50, 0, 50, 100);
    ExtractRegionLength(data, 100, 100, 50, 0, 100, 100);
  }

  /** With the clamped size, preprocessing a region of a full frame is
      always defined, provided the upscaled sizes fit in `u32` and a region
      to be sharpened is not empty. */
  lemma PreprocessRegionDefined(data: seq<byte>, iw: nat, ih: nat, x: nat, y: nat, w: nat, h: nat,
                                pp: Option<Settings>, defaults: Settings)
    requires ExtractDefined(iw, ih, x, y, w, h) && FullImage(data, iw, ih)
    requires var c := ClampRegion(iw, ih, x, y, w, h);
             var st := EnabledSettings(pp, w, h, defaults);
             st.Some? ==> UpscaleFits(c.w, c.h, st.value.scale) && (SharpenOn(st.value) ==> c.w > 0 && c.h > 0)
    ensures var c := ClampRegion(iw, ih, x, y, w, h);
            RegionPreprocessDefined(|ExtractRegion(data, iw, ih, x, y, w, h)|, c.w, c.h,
                                    RegionSettings(pp, AutoScale(w, h), defaults))
  {
    var c := ClampRegion(iw, ih, x, y, w, h);
    var st := RegionSettings(pp, AutoScale(w, h), defaults);
    ExtractRegionLength(data, iw, ih, x, y, w, h);
    if st.Some? {
      PreprocessDefinedOfFull(c.w, c.h, st.value);
    }
  }

  /** With the clamped size, the preprocessed buffer of a region of a full
      frame always holds exactly the pixels its reported size promises. */
  lemma PreprocessRegionMatchesSize(data: seq<byte>, iw: nat, ih: nat, x: nat, y: nat, w: nat, h: nat,
                                    pp: Option<Settings>, defaults: Settings)
    requires ExtractDefined(iw, ih, x, y, w, h) && FullImage(data, iw, ih)
    requires var c := ClampRegion(iw, ih, x, y, w, h);
             RegionPreprocessDefined(|ExtractRegion(data, iw, ih, x, y, w, h)|, c.w, c.h,
                                     RegionSettings(pp, AutoScale(w, h), defaults))
    ensures var r := PreprocessRegion(data, iw, ih, x, y, w, h, pp, defaults);
            |r.data| == 4 * (r.width * r.height)
  {
    var c := ClampRegion(iw, ih, x, y, w, h);
    ExtractRegionLength(data, iw, ih, x, y, w, h);
  }

  // ---------------------------------------------------------------------
  // Text regions, threshold filtering and bounding boxes
  // ---------------------------------------------------------------------

  /** `TextRegion`: recognised text, its box (x, y, width, height) and the
      recogniser's confidence. */
  datatype TextRegion = TextRegion(text: string, bounds: (nat, nat, nat, nat), confidence: real)

  /** `OcrResult` of the PaddleOCR engine: text with a bounding polygon. */
  datatype OcrResult = OcrResult(text: string, polygon: seq<(real, real)>, confidence: real)

  /** `filter(|r| r.confidence >= threshold)` over regions, keeping order. */
  function Above(rs: seq<TextRegion>, threshold: real): (out: seq<TextRegion>)
    ensures forall r :: r in out <==> r in rs && r.confidence >= threshold
    ensures IsSubsequence(out, rs)
    ensures |out| <= |rs|
  {
    if |rs| == 0 then []
    else
      var rest := Above(rs[1..], threshold);
      assert forall r :: r in rs <==> r == rs[0] || r in rs[1..];
      if rs[0].confidence >= threshold then
        var out := [rs[0]] + rest;
        assert out[1..] == rest;
        out
      else
        rest
  }

  /** Filtering a concatenation filters each part. */
  lemma {:induction false} AboveAppend(a: seq<TextRegion>, b: seq<TextRegion>, threshold: real)
    ensures Above(a + b, threshold) == Above(a, threshold) + Above(b, threshold)
    decreases |a|
  {
    if |a| == 0 {
      assert a + b == b;
    } else {
      assert (a + b)[1..] == a[1..] + b;
      AboveAppend(a[1..], b, threshold);
    }
  }

  /** Nothing is dropped when every region is confident enough. */
  lemma {:induction false} AboveAllPass(rs: seq<TextRegion>, threshold: real)
    requires forall i :: 0 <= i < |rs| ==> rs[i].confidence >= threshold
    ensures Above(rs, threshold) == rs
    decreases |rs|
  {
    if |rs| > 0 {
      AboveAllPass(rs[1..], threshold);
    }
  }

  /** Filtering twice keeps what passes the stricter threshold. */
  lemma {:induction false} AboveTwice(rs: seq<TextRegion>, t1: real, t2: real)
    ensures Above(Above(rs, t1), t2) == Above(rs, if t1 >= t2 then t1 else t2)
    decreases |rs|
  {
    if |rs| > 0 {
      AboveTwice(rs[1..], t1, t2);
      var tail := Above(rs[1..], t1);
      if rs[0].confidence >= t1 {
        assert Above(rs, t1) == [rs[0]] + tail;
        assert ([rs[0]] + tail)[1..] == tail;
      }
    }
  }

  /** `into_iter().map(f)`: one region per result, in order. A region is in
      the list exactly when it is the image of some result. */
  function Regions<T>(xs: seq<T>, f: T -> TextRegion): (rs: seq<TextRegion>)
    ensures |rs| == |xs| && forall i :: 0 <= i < |xs| ==> rs[i] == f(xs[i])
    ensures forall t :: t in rs <==> exists i :: 0 <= i < |xs| && t == f(xs[i])
  {
    var rs := seq(|xs|, i requires 0 <= i < |xs| => f(xs[i]));
    assert forall i :: 0 <= i < |xs| ==> rs[i] == f(xs[i]);
    rs
  }

  /** A word of the Windows recogniser as a text region. */
  function WordRegion(w: WordResult): (r: TextRegion)
    ensures r.text == w.text && r.bounds == w.bounds && r.confidence == w.confidence
  {
    TextRegion(w.text, w.bounds, w.confidence)
  }

  /** `polygon_to_bounds`: (0, 0, 0, 0) for no points; otherwise the
      corner at the least coordinates and the extent to the greatest, each
      cast to `u32`. The corner never lies past a point with non-negative
      coordinates, and it is the cast of some point's coordinate. */
  function PolygonToBounds(polygon: seq<(real, real)>): (b: (nat, nat, nat, nat))
    ensures |polygon| == 0 ==> b == (0, 0, 0, 0)
    ensures forall i :: 0 <= i < |polygon| && polygon[i].0 >= 0.0 ==> b.0 as real <= polygon[i].0
    ensures forall i :: 0 <= i < |polygon| && polygon[i].1 >= 0.0 ==> b.1 as real <= polygon[i].1
    ensures |polygon| > 0 ==> (exists i :: 0 <= i < |polygon| && b.0 == ToU32(polygon[i].0))
                              && (exists j :: 0 <= j < |polygon| && b.1 == ToU32(polygon[j].1))
  {
    if |polygon| == 0 then (0, 0, 0, 0)
    else
      var minX := Least(Xs(polygon));
      var minY := Least(Ys(polygon));
      var maxX := Greatest(Xs(polygon));
      var maxY := Greatest(Ys(polygon));
      (ToU32(minX), ToU32(minY), ToU32(maxX - minX), ToU32(maxY - minY))
  }

  /** When every coordinate lies in `[0, U32_MAX)`, the box covers every
      point of the polygon, up to the two units lost by truncating the
      corner and the extent separately. */
  lemma PolygonBoundsCover(polygon: seq<(real, real)>, i: nat)
    requires forall k :: 0 <= k < |polygon| ==>
               0.0 <= polygon[k].0 < U32_MAX as real && 0.0 <= polygon[k].1 < U32_MAX as real
    requires i < |polygon|
    ensures var b := PolygonToBounds(polygon);
            && b.0 as real <= polygon[i].0 < (b.0 + b.2 + 2) as real
            && b.1 as real <= polygon[i].1 < (b.1 + b.3 + 2) as real
  {
    var xs, ys := Xs(polygon), Ys(polygon);
    var minX, maxX := Least(xs), Greatest(xs);
    var minY, maxY := Least(ys), Greatest(ys);
    assert xs[i] == polygon[i].0 && ys[i] == polygon[i].1;
    var m :| 0 <= m < |polygon| && maxX == xs[m];
    var n :| 0 <= n < |polygon| && maxY == ys[n];
    var k :| 0 <= k < |polygon| && minX == xs[k];
    var l :| 0 <= l < |polygon| && minY == ys[l];
    AxisCover(minX, maxX, polygon[i].0);
    AxisCover(minY, maxY, polygon[i].1);
  }

  /** On one axis: truncating the least coordinate and the extent loses
      less than two units. */
  lemma AxisCover(lo: real, hi: real, v: real)
    requires 0.0 <= lo <= v <= hi < U32_MAX as real
    ensures ToU32(lo) as real <= v < (ToU32(lo) + ToU32(hi - lo) + 2) as real
  {
  }

  /** A PaddleOCR result as a text region, its polygon reduced to a box. */
  function PaddleRegion(r: OcrResult): (t: TextRegion)
    ensures t.text == r.text && t.confidence == r.confidence
    ensures t.bounds == PolygonToBounds(r.polygon)
  {
    TextRegion(r.text, PolygonToBounds(r.polygon), r.confidence)
  }

  // ---------------------------------------------------------------------
  // The pipeline: engines, initialisation and frame processing
  // ---------------------------------------------------------------------

  /** `OcrBackend`; Windows OCR is the default. */
  datatype Backend = WindowsBackend | PaddleBackend

  /** `OcrGranularity`; words are the default. */
  datatype Granularity = Word | Line

  /** `WindowsOcrLine`: a recognised line and its box. */
  datatype LineResult = LineResult(text: string, bounds: (nat, nat, nat, nat))

  /** The engines' recognisers, as functions of an engine `W` (Windows) or
      `P` (PaddleOCR): word level, line level and PaddleOCR. */
  datatype Engines<!W, !P> = Engines(
    words: W -> Recogniser,
    lines: W -> (seq<byte>, nat, nat) -> Result<seq<LineResult>>,
    paddle: P -> (seq<byte>, nat, nat) -> Result<seq<OcrResult>>)

  /** `VisionPipeline`: the selected backend, each engine once created, and
      the recognition threshold of its configuration. */
  datatype Pipeline<W, P> = Pipeline(backend: Backend, windowsOcr: Option<W>, paddleOcr: Option<P>,
                                     recognitionThreshold: real)

  /** `VisionPipeline::with_config`: no engine is created yet. */
  function NewPipeline<W, P>(backend: Backend, recognitionThreshold: real): (p: Pipeline<W, P>)
    ensures p.backend == backend && p.recognitionThreshold == recognitionThreshold
    ensures p.windowsOcr.None? && p.paddleOcr.None? && !IsOcrReady(p)
  {
    Pipeline(backend, None, None, recognitionThreshold)
  }

  /** `is_ocr_ready`: the engine of the selected backend exists. */
  predicate IsOcrReady<W, P>(p: Pipeline<W, P>)
  {
    match p.backend
    case WindowsBackend => p.windowsOcr.Some?
    case PaddleBackend => p.paddleOcr.Some?
  }

  /** `init_ocr`: creates the engine of the selected backend unless it
      already exists. `create` is what creating each engine would give
      (creating the PaddleOCR engine first makes sure its two models are
      present; any failure along the way is an `Err`). */
  function InitOcr<W, P>(p: Pipeline<W, P>, createWindows: Result<W>, createPaddle: Result<P>): (r: (Pipeline<W, P>, Result<()>))
    ensures IsOcrReady(p) ==> r == (p, Ok(()))
    ensures r.1.Ok? <==> IsOcrReady(r.0)
    ensures r.1.Err? ==> r.0 == p
    ensures r.0.backend == p.backend && r.0.recognitionThreshold == p.recognitionThreshold
    ensures p.backend == WindowsBackend ==> r.0.paddleOcr == p.paddleOcr
    ensures p.backend == PaddleBackend ==> r.0.windowsOcr == p.windowsOcr
    ensures !IsOcrReady(p) && p.backend == WindowsBackend && createWindows.Ok? ==> r.0.windowsOcr == Some(createWindows.value)
    ensures !IsOcrReady(p) && p.backend == PaddleBackend && createPaddle.Ok? ==> r.0.paddleOcr == Some(createPaddle.value)
  {
    match p.backend
    case WindowsBackend =>
      if p.windowsOcr.Some? then (p, Ok(()))
      else (match createWindows
            case Ok(e) => (p.(windowsOcr := Some(e)), Ok(()))
            case Err(m) => (p, Err(m)))
    case PaddleBackend =>
      if p.paddleOcr.Some? then (p, Ok(()))
      else (match createPaddle
            case Ok(e) => (p.(paddleOcr := Some(e)), Ok(()))
            case Err(m) => (p, Err(m)))
  }

  /** Once initialisation has succeeded, every later call succeeds and
      keeps the engine it found, whatever creating a new one would give. */
  lemma InitOcrIdempotent<W, P>(p: Pipeline<W, P>, w1: Result<W>, p1: Result<P>, w2: Result<W>, p2: Result<P>)
    requires InitOcr(p, w1, p1).1.Ok?
    ensures var q := InitOcr(p, w1, p1).0;
            InitOcr(q, w2, p2) == (q, Ok(()))
  {
  }

  /** `set_backend` followed by `init_ocr`: a switch to the other backend
      leaves the engine of the first in place. */
  lemma InitOcrKeepsOtherEngine<W, P>(p: Pipeline<W, P>, b: Backend, w: Result<W>, pd: Result<P>)
    ensures var q := InitOcr(p.(backend := b), w, pd).0;
            && (b == PaddleBackend ==> q.windowsOcr == p.windowsOcr)
            && (b == WindowsBackend ==> q.paddleOcr == p.paddleOcr)
  {
  }

  /** `process_windows_ocr`: without an engine, no regions; otherwise the
      recognised words whose confidence reaches the threshold, in order. */
  function ProcessWindowsOcr<W, P>(p: Pipeline<W, P>, e: Engines<W, P>, data: seq<byte>, w: nat, h: nat): (r: Result<seq<TextRegion>>)
    ensures p.windowsOcr.None? ==> r == Ok([])
    ensures r.Ok? ==> forall t :: t in r.value ==> t.confidence >= p.recognitionThreshold
    ensures p.windowsOcr.Some? ==>
              match Recognize(data, w, h, e.words(p.windowsOcr.value))
              case Err(m) => r == Err(m)
              case Ok(ws) => r.Ok? && IsSubsequence(r.value, Regions(ws, WordRegion))
                             && forall t :: t in r.value <==>
                               (exists i :: 0 <= i < |ws| && t == WordRegion(ws[i])) && t.confidence >= p.recognitionThreshold
  {
    match p.windowsOcr
    case None => Ok([])
    case Some(engine) =>
      match Recognize(data, w, h, e.words(engine))
      case Err(m) => Err(m)
      case Ok(ws) =>
        Ok(Above(Regions(ws, WordRegion), p.recognitionThreshold))
  }

  /** `process_windows_ocr_lines`: without an engine, no regions; otherwise
      one region per recognised line, each with confidence 1, since the
      recogniser gives none for lines. */
  function ProcessWindowsOcrLines<W, P>(p: Pipeline<W, P>, e: Engines<W, P>, data: seq<byte>, w: nat, h: nat): (r: Result<seq<TextRegion>>)
    ensures p.windowsOcr.None? ==> r == Ok([])
    ensures p.windowsOcr.Some? ==>
              match e.lines(p.windowsOcr.value)(data, w, h)
              case Err(m) => r == Err(m)
              case Ok(ls) => r.Ok? && |r.value| == |ls|
                             && forall i :: 0 <= i < |ls| ==> r.value[i] == TextRegion(ls[i].text, ls[i].bounds, 1.0)
  {
    match p.windowsOcr
    case None => Ok([])
    case Some(engine) =>
      match e.lines(engine)(data, w, h)
      case Err(m) => Err(m)
      case Ok(ls) => Ok(seq(|ls|, i requires 0 <= i < |ls| => TextRegion(ls[i].text, ls[i].bounds, 1.0)))
  }

  /** `process_paddle_ocr`: without an engine, no regions; otherwise the
      recognised texts whose confidence reaches the threshold, each polygon
      reduced to its box. */
  function ProcessPaddleOcr<W, P>(p: Pipeline<W, P>, e: Engines<W, P>, data: seq<byte>, w: nat, h: nat): (r: Result<seq<TextRegion>>)
    ensures p.paddleOcr.None? ==> r == Ok([])
    ensures r.Ok? ==> forall t :: t in r.value ==> t.confidence >= p.recognitionThreshold
    ensures p.paddleOcr.Some? ==>
              match e.paddle(p.paddleOcr.value)(data, w, h)
              case Err(m) => r == Err(m)
              case Ok(os) => r.Ok? && IsSubsequence(r.value, Regions(os, PaddleRegion))
                             && forall t :: t in r.value <==>
                               (exists i :: 0 <= i < |os| && t == PaddleRegion(os[i])) && t.confidence >= p.recognitionThreshold
  {
    match p.paddleOcr
    case None => Ok([])
    case Some(engine) =>
      match e.paddle(engine)(data, w, h)
      case Err(m) => Err(m)
      case Ok(os) =>
        Ok(Above(Regions(os, PaddleRegion), p.recognitionThreshold))
  }

  /** `process_with_granularity` (and `process`, at word level): the
      selected backend decides; PaddleOCR answers both granularities with
      the same results. */
  function ProcessFrame<W, P>(p: Pipeline<W, P>, e: Engines<W, P>, data: seq<byte>, w: nat, h: nat, g: Granularity): (r: Result<seq<TextRegion>>)
    ensures p.backend == WindowsBackend && g == Word ==> r == ProcessWindowsOcr(p, e, data, w, h)
    ensures p.backend == WindowsBackend && g == Line ==> r == ProcessWindowsOcrLines(p, e, data, w, h)
    ensures p.backend == PaddleBackend ==> r == ProcessPaddleOcr(p, e, data, w, h)
    ensures !IsOcrReady(p) ==> r == Ok([])
    ensures g == Word && r.Ok? ==> forall t :: t in r.value ==> t.confidence >= p.recognitionThreshold
  {
    match p.backend
    case WindowsBackend =>
      (match g
       case Word => ProcessWindowsOcr(p, e, data, w, h)
       case Line => ProcessWindowsOcrLines(p, e, data, w, h))
    case PaddleBackend => ProcessPaddleOcr(p, e, data, w, h)
  }

  // ---------------------------------------------------------------------
  // Recognising one region of a frame
  // ---------------------------------------------------------------------

  /** `width as f32 / proc_width as f32` when preprocessing changed the
      width, otherwise one: the factor that brings a box found on the
      preprocessed image back to the region's size. The processed width is
      always the region width times a positive factor, so it is zero only
      when the region width is. */
  function ScaleFactor(width: nat, procWidth: nat): (f: real)
    requires procWidth == width || procWidth > 0
    ensures procWidth == width ==> f == 1.0
    ensures procWidth != width ==> f >= 0.0 && f * procWidth as real == width as real
  {
    if procWidth != width then width as real / procWidth as real else 1.0
  }

  /** A box found on the preprocessed image, moved into the frame: each
      component scaled by `factor` and truncated to `u32`, the corner then
      offset by the region's position. Text and confidence stay. */
  function ToFrame(t: TextRegion, x: nat, y: nat, factor: real): (r: TextRegion)
    requires factor >= 0.0
    ensures r.text == t.text && r.confidence == t.confidence
    ensures factor == 1.0 && t.bounds.0 <= U32_MAX && t.bounds.1 <= U32_MAX
            && t.bounds.2 <= U32_MAX && t.bounds.3 <= U32_MAX ==>
              r.bounds == (x + t.bounds.0, y + t.bounds.1, t.bounds.2, t.bounds.3)
  {
    var (left, top, width, height) := t.bounds;
    ToU32Whole(left); ToU32Whole(top); ToU32Whole(width); ToU32Whole(height);
    TextRegion(t.text, (x + ToU32(left as real * factor), y + ToU32(top as real * factor),
                        ToU32(width as real * factor), ToU32(height as real * factor)), t.confidence)
  }

  /** Every box of a list moved into the frame, in order. */
  function ToFrameAll(ts: seq<TextRegion>, x: nat, y: nat, factor: real): (rs: seq<TextRegion>)
    requires factor >= 0.0
    ensures |rs| == |ts| && forall i :: 0 <= i < |ts| ==> rs[i] == ToFrame(ts[i], x, y, factor)
  {
    seq(|ts|, i requires 0 <= i < |ts| => ToFrame(ts[i], x, y, factor))
  }

  /** A coordinate on a region upscaled `k` times that falls on a sample
      point comes back to the coordinate it was sampled from. */
  lemma ScaleBackExact(m: nat, w: nat, k: nat)
    requires w > 0 && k >= 1 && m <= U32_MAX
    ensures ScaleFactor(w, w * k) >= 0.0
    ensures ToU32((k * m) as real * ScaleFactor(w, w * k)) == m
  {
    MulMonotone(1, k, w);
    if k > 1 {
      assert w * k != w by { MulMonotone(2, k, w); }
      var f := ScaleFactor(w, w * k);
      assert f * (w * k) as real == w as real;
      assert (w * k) as real == w as real * k as real;
      assert f * k as real == 1.0;
      assert (k * m) as real * f == m as real * (f * k as real);
    }
  }

  /** A width scaled by a positive factor is unchanged or positive. */
  lemma ScaledWidth(w: nat, k: nat)
    requires k >= 1
    ensures w * k == w || w * k > 0
  {
    if w > 0 {
      MulMonotone(1, k, w);
    }
  }

  /** `process_region_with_preprocessing` (and `process_region`, without
      settings), with the clamped size as in `PreprocessRegion`: the
      preprocessed region is recognised at word level by the selected
      backend, and every box is moved back into the frame with the factor
      between the clamped and the processed width. */
  function ProcessRegion<W, P>(p: Pipeline<W, P>, e: Engines<W, P>, data: seq<byte>, iw: nat, ih: nat,
                               x: nat, y: nat, w: nat, h: nat, pp: Option<Settings>, defaults: Settings)
    : (r: Result<seq<TextRegion>>)
    requires ExtractDefined(iw, ih, x, y, w, h)
    requires var c := ClampRegion(iw, ih, x, y, w, h);
             RegionPreprocessDefined(|ExtractRegion(data, iw, ih, x, y, w, h)|, c.w, c.h,
                                     RegionSettings(pp, AutoScale(w, h), defaults))
    ensures !IsOcrReady(p) ==> r == Ok([])
    ensures r.Ok? ==> forall t :: t in r.value ==> t.confidence >= p.recognitionThreshold
    ensures var proc := PreprocessRegion(data, iw, ih, x, y, w, h, pp, defaults);
            var found := ProcessFrame(p, e, proc.data, proc.width, proc.height, Word);
            && (found.Err? <==> r.Err?)
            && (found.Ok? ==> |r.value| == |found.value|
                              && forall i :: 0 <= i < |found.value| ==>
                                   r.value[i].text == found.value[i].text
                                   && r.value[i].confidence == found.value[i].confidence
                                   && r.value[i].bounds
                                      == ToFrame(found.value[i], x, y, ScaleFactor(ClampRegion(iw, ih, x, y, w, h).w, proc.width)).bounds)
  {
    var c := ClampRegion(iw, ih, x, y, w, h);
    var proc := PreprocessRegion(data, iw, ih, x, y, w, h, pp, defaults);
    var st := RegionSettings(pp, AutoScale(w, h), defaults);
    ScaledWidth(c.w, if st.Some? && st.value.enabled && st.value.scale > 1 then st.value.scale else 1);
    var factor := ScaleFactor(c.w, proc.width);
    match ProcessFrame(p, e, proc.data, proc.width, proc.height, Word)
    case Err(m) => Err(m)
    case Ok(found) =>
      ToFrameAllKeepsConfidence(found, x, y, factor, p.recognitionThreshold);
      Ok(ToFrameAll(found, x, y, factor))
  }

  /** Moving boxes into the frame keeps every confidence, so a lower bound
      on them survives. */
  lemma ToFrameAllKeepsConfidence(ts: seq<TextRegion>, x: nat, y: nat, factor: real, threshold: real)
    requires factor >= 0.0
    requires forall t :: t in ts ==> t.confidence >= threshold
    ensures forall t :: t in ToFrameAll(ts, x, y, factor) ==> t.confidence >= threshold
  {
    var rs := ToFrameAll(ts, x, y, factor);
    forall t | t in rs ensures t.confidence >= threshold {
      var i :| 0 <= i < |rs| && rs[i] == t;
      assert ts[i] in ts;
    }
  }

  /** A region inside the frame, at least 80 pixels each way and without
      settings, is recognised as it is: the recogniser sees exactly the
      region's bytes at the requested size, and every box it finds is moved
      by the factor one, that is, only offset by the region's corner (see
      `ToFrame`). */
  lemma ProcessRegionUnscaled<W, P>(p: Pipeline<W, P>, e: Engines<W, P>, data: seq<byte>, iw: nat, ih: nat,
                                    x: nat, y: nat, w: nat, h: nat, defaults: Settings)
    requires ExtractDefined(iw, ih, x, y, w, h)
    requires x + w <= iw && y + h <= ih && w >= MinOcrDimension && h >= MinOcrDimension
    ensures var c := ClampRegion(iw, ih, x, y, w, h);
            RegionPreprocessDefined(|ExtractRegion(data, iw, ih, x, y, w, h)|, c.w, c.h,
                                    RegionSettings(None, AutoScale(w, h), defaults))
    ensures var r := ProcessRegion(p, e, data, iw, ih, x, y, w, h, None, defaults);
            var found := ProcessFrame(p, e, ExtractRegion(data, iw, ih, x, y, w, h), w, h, Word);
            && (found.Err? ==> r == found)
            && (found.Ok? ==> r == Ok(ToFrameAll(found.value, x, y, 1.0)))
  {
    assert AutoScale(w, h) == 1;
    var c := ClampRegion(iw, ih, x, y, w, h);
    assert c == Clamped(x, y, w, h);
    assert RegionSettings(None, AutoScale(w, h), defaults).None?;
    var proc := PreprocessRegion(data, iw, ih, x, y, w, h, None, defaults);
    assert proc == Processed(ExtractRegion(data, iw, ih, x, y, w, h), w, h);
    assert ScaleFactor(c.w, proc.width) == 1.0;
  }

  /** Word-level results of either backend never fall below the
      threshold, and no word of the Windows recogniser that reaches it is
      lost. */
  lemma ProcessFrameThreshold<W, P>(p: Pipeline<W, P>, e: Engines<W, P>, data: seq<byte>, w: nat, h: nat, ws: seq<WordResult>, i: nat)
    requires p.backend == WindowsBackend && p.windowsOcr.Some?
    requires Recognize(data, w, h, e.words(p.windowsOcr.value)) == Ok(ws)
    requires i < |ws| && ws[i].confidence >= p.recognitionThreshold
    ensures var r := ProcessFrame(p, e, data, w, h, Word);
            r.Ok? && WordRegion(ws[i]) in r.value
  {
  }
}
