/** The tensor preparation of the PaddleOCR backend in
    src/vision/preprocess.rs: RGBA bytes to an (h, w, 3) image of reals,
    per-channel normalisation, the HWC to NCHW layout change, the two
    resizes (detection: longer side to a target and padded to multiples of
    32; recognition: fixed height, bounded width) and the polygon crop.
    `ndarray` arrays are nested sequences that carry their shape; `f32` is
    an exact real. */
module Tensors {
  import opened Numeric

  /** An `Array3<f32>` of shape (h, w, c), read as `cells[y][x][ch]`. */
  datatype Array3 = Array3(h: nat, w: nat, c: nat, cells: seq<seq<seq<real>>>) {
    predicate Valid()
    {
      && |cells| == h
      && (forall y :: 0 <= y < h ==> |cells[y]| == w)
      && (forall y, x :: 0 <= y < h && 0 <= x < w ==> |cells[y][x]| == c)
    }
  }

  /** An `Array4<f32>` of shape (n, c, h, w), read as `cells[i][ch][y][x]`. */
  datatype Array4 = Array4(n: nat, c: nat, h: nat, w: nat, cells: seq<seq<seq<seq<real>>>>) {
    predicate Valid()
    {
      && |cells| == n
      && (forall i :: 0 <= i < n ==> |cells[i]| == c)
      && (forall i, ch :: 0 <= i < n && 0 <= ch < c ==> |cells[i][ch]| == h)
      && (forall i, ch, y :: 0 <= i < n && 0 <= ch < c && 0 <= y < h ==> |cells[i][ch][y]| == w)
    }
  }

  /** `Array3::zeros((h, w, c))`. */
  function Zeros3(h: nat, w: nat, c: nat): (a: Array3)
    ensures a.Valid() && a.h == h && a.w == w && a.c == c
    ensures forall y, x, ch :: 0 <= y < h && 0 <= x < w && 0 <= ch < c ==> a.cells[y][x][ch] == 0.0
  {
    Array3(h, w, c, seq(h, y => seq(w, x => seq(c, ch => 0.0))))
  }

  /** `PreprocessConfig`. `mean` and `std` are three-element arrays. */
  datatype PreprocessConfig = PreprocessConfig(
    detTargetSize: u32, recTargetHeight: u32, recMaxWidth: u32, mean: seq<real>, std: seq<real>)

  /** `PreprocessConfig::default()`. */
  const DefaultConfig: PreprocessConfig := PreprocessConfig(960, 48, 640, [0.5, 0.5, 0.5], [0.5, 0.5, 0.5])

  // ---------------------------------------------------------------------
  // RGBA bytes to an RGB image
  // ---------------------------------------------------------------------

  /** Where pixel (x, y) of a `width`-wide RGBA buffer starts. */
  function PixelStart(width: nat, y: nat, x: nat): nat
  {
    (y * width + x) * 4
  }

  function RgbCell(data: seq<byte>, width: nat, y: nat, x: nat, ch: nat): real
    requires ch < 3
  {
    var i := PixelStart(width, y, x);
    if i + 2 < |data| then data[i + ch] as real / 255.0 else 0.0
  }

  /** `rgba_to_rgb_f32`: an (height, width, 3) image whose cells are the
      red, green and blue bytes scaled into [0, 1], alpha dropped; a pixel
      whose colour bytes are not all in the buffer stays zero. */
  function RgbaToRgb(data: seq<byte>, width: nat, height: nat): (img: Array3)
    ensures img.Valid() && img.h == height && img.w == width && img.c == 3
    ensures forall y, x, ch :: 0 <= y < height && 0 <= x < width && 0 <= ch < 3 ==>
              0.0 <= img.cells[y][x][ch] <= 1.0
  {
    Array3(height, width, 3,
      seq(height, y requires 0 <= y < height =>
        seq(width, x requires 0 <= x < width =>
          seq(3, ch requires 0 <= ch < 3 => RgbCell(data, width, y, x, ch)))))
  }

  /** A complete pixel's colour bytes are recovered from its cells by
      scaling back by 255; an incomplete one reads as black. */
  lemma RgbaToRgbPixel(data: seq<byte>, width: nat, height: nat, y: nat, x: nat, ch: nat)
    requires y < height && x < width && ch < 3
    ensures var i := PixelStart(width, y, x);
            var v := RgbaToRgb(data, width, height).cells[y][x][ch];
            && (i + 2 < |data| ==> v * 255.0 == data[i + ch] as real)
            && (i + 2 >= |data| ==> v == 0.0)
  {
  }

  /** The 2 by 2 example of the module's tests: red at (0, 0) reads as
      (1, 0, 0), green at (1, 0) as (0, 1, 0). */
  lemma RgbaToRgbExample()
    ensures var img := RgbaToRgb([255, 0, 0, 255, 0, 255, 0, 255, 0, 0, 255, 255, 128, 128, 128, 255], 2, 2);
            && img.cells[0][0] == [1.0, 0.0, 0.0]
            && img.cells[0][1] == [0.0, 1.0, 0.0]
  {
    var data: seq<byte> := [255, 0, 0, 255, 0, 255, 0, 255, 0, 0, 255, 255, 128, 128, 128, 255];
    var img := RgbaToRgb(data, 2, 2);
    assert PixelStart(2, 0, 1) == 4;
    assert img.cells[0][1][1] == RgbCell(data, 2, 0, 1, 1);
  }

  // ---------------------------------------------------------------------
  // Normalisation and layout
  // ---------------------------------------------------------------------

  /** Three means and three non-zero deviations. */
  predicate Standardising(mean: seq<real>, std: seq<real>)
  {
    |mean| == 3 && |std| == 3 && forall ch :: 0 <= ch < 3 ==> std[ch] != 0.0
  }

  /** What `normalize` reads: three channels of a well-formed image. */
  predicate Normalisable(img: Array3, mean: seq<real>, std: seq<real>)
  {
    img.Valid() && img.c >= 3 && Standardising(mean, std)
  }

  /** `normalize`: a three-channel image of the same height and width in
      which each cell is the input cell standardised by its channel's mean
      and deviation, so that scaling back and shifting recovers it. */
  function Normalize(img: Array3, mean: seq<real>, std: seq<real>): (out: Array3)
    requires Normalisable(img, mean, std)
    ensures out.Valid() && out.h == img.h && out.w == img.w && out.c == 3
    ensures forall y, x, ch :: 0 <= y < img.h && 0 <= x < img.w && 0 <= ch < 3 ==>
              out.cells[y][x][ch] * std[ch] + mean[ch] == img.cells[y][x][ch]
  {
    Array3(img.h, img.w, 3,
      seq(img.h, y requires 0 <= y < img.h =>
        seq(img.w, x requires 0 <= x < img.w =>
          seq(3, ch requires 0 <= ch < 3 => (img.cells[y][x][ch] - mean[ch]) / std[ch]))))
  }

  /** Under the default configuration a colour byte `v`, scaled into
      [0, 1] and normalised, becomes `v / 127.5 - 1`, in [-1, 1]. */
  lemma DefaultNormalizeRange(data: seq<byte>, width: nat, height: nat, y: nat, x: nat, ch: nat)
    requires y < height && x < width && ch < 3
    ensures var out := Normalize(RgbaToRgb(data, width, height), DefaultConfig.mean, DefaultConfig.std);
            var i := PixelStart(width, y, x);
            && -1.0 <= out.cells[y][x][ch] <= 1.0
            && (i + 2 < |data| ==> out.cells[y][x][ch] == data[i + ch] as real / 127.5 - 1.0)
  {
    RgbaToRgbPixel(data, width, height, y, x, ch);
  }

  /** `hwc_to_nchw`: a batch of one, channels first; cell (0, ch, y, x) is
      the image's cell (y, x, ch). */
  function HwcToNchw(img: Array3): (t: Array4)
    requires img.Valid()
    ensures t.Valid() && t.n == 1 && t.c == img.c && t.h == img.h && t.w == img.w
    ensures forall ch, y, x :: 0 <= ch < img.c && 0 <= y < img.h && 0 <= x < img.w ==>
              t.cells[0][ch][y][x] == img.cells[y][x][ch]
  {
    Array4(1, img.c, img.h, img.w,
      [seq(img.c, ch requires 0 <= ch < img.c =>
         seq(img.h, y requires 0 <= y < img.h =>
           seq(img.w, x requires 0 <= x < img.w => img.cells[y][x][ch])))])
  }

  /** The layout back: channels last again. */
  function NchwToHwc(t: Array4): (img: Array3)
    requires t.Valid() && t.n == 1
    ensures img.Valid() && img.h == t.h && img.w == t.w && img.c == t.c
    ensures forall y, x, ch :: 0 <= y < t.h && 0 <= x < t.w && 0 <= ch < t.c ==>
              img.cells[y][x][ch] == t.cells[0][ch][y][x]
  {
    Array3(t.h, t.w, t.c,
      seq(t.h, y requires 0 <= y < t.h =>
        seq(t.w, x requires 0 <= x < t.w =>
          seq(t.c, ch requires 0 <= ch < t.c => t.cells[0][ch][y][x]))))
  }

  /** The layout change loses nothing: changing back gives the image. */
  lemma NchwOfHwc(img: Array3)
    requires img.Valid()
    ensures NchwToHwc(HwcToNchw(img)) == img
  {
    var back := NchwToHwc(HwcToNchw(img));
    forall y | 0 <= y < img.h ensures back.cells[y] == img.cells[y] {
      forall x | 0 <= x < img.w ensures back.cells[y][x] == img.cells[y][x] {
      }
    }
  }

  /** ... and every batch-of-one tensor is the layout of some image. */
  lemma HwcOfNchw(t: Array4)
    requires t.Valid() && t.n == 1
    ensures HwcToNchw(NchwToHwc(t)) == t
  {
    var back := HwcToNchw(NchwToHwc(t));
    assert back.cells[0] == t.cells[0] by {
      forall ch | 0 <= ch < t.c ensures back.cells[0][ch] == t.cells[0][ch] {
        forall y | 0 <= y < t.h ensures back.cells[0][ch][y] == t.cells[0][ch][y] {
        }
      }
    }
  }

  // ---------------------------------------------------------------------
  // Resizing
  // ---------------------------------------------------------------------

  /** `((n + 31) / 32) * 32`: the least multiple of 32 not below `n`. */
  function PadTo32(n: nat): (p: nat)
    ensures p % 32 == 0 && n <= p < n + 32
  {
    (n + 31) / 32 * 32
  }

  /** No smaller multiple of 32 would do. */
  lemma PadTo32Least(n: nat, m: nat)
    requires m % 32 == 0 && n <= m
    ensures PadTo32(n) <= m
  {
  }

  /** The source coordinate sampled for output coordinate `n` at `scale`:
      `(n / scale).min(limit - 1)`. */
  function SourceCoord(n: nat, scale: real, limit: nat): (r: real)
    requires scale > 0.0 && limit > 0
    ensures 0.0 <= r <= (limit - 1) as real
  {
    var q := n as real / scale;
    if q <= (limit - 1) as real then q else (limit - 1) as real
  }

  /** The bilinear interpolation both resizes share: the four cells around
      (`sy`, `sx`), weighted by the fractional parts. */
  function Sample(img: Array3, sy: real, sx: real, ch: nat): real
    requires img.Valid() && img.h > 0 && img.w > 0 && ch < img.c
    requires 0.0 <= sy <= (img.h - 1) as real && 0.0 <= sx <= (img.w - 1) as real
  {
    var y0 := Floor(sy);
    var y1 := Min(y0 + 1, img.h - 1);
    var x0 := Floor(sx);
    var x1 := Min(x0 + 1, img.w - 1);
    var fy := sy - y0 as real;
    var fx := sx - x0 as real;
    var v0 := img.cells[y0][x0][ch] * (1.0 - fx) + img.cells[y0][x1][ch] * fx;
    var v1 := img.cells[y1][x0][ch] * (1.0 - fx) + img.cells[y1][x1][ch] * fx;
    v0 * (1.0 - fy) + v1 * fy
  }

  /** Interpolating between equal values gives that value. */
  lemma SampleFlat(img: Array3, sy: real, sx: real, ch: nat, v: real)
    requires img.Valid() && img.h > 0 && img.w > 0 && ch < img.c
    requires 0.0 <= sy <= (img.h - 1) as real && 0.0 <= sx <= (img.w - 1) as real
    requires forall y, x :: 0 <= y < img.h && 0 <= x < img.w ==> img.cells[y][x][ch] == v
    ensures Sample(img, sy, sx, ch) == v
  {
    var y0, x0 := Floor(sy), Floor(sx);
    var y1, x1 := Min(y0 + 1, img.h - 1), Min(x0 + 1, img.w - 1);
    var fy, fx := sy - y0 as real, sx - x0 as real;
    assert img.cells[y0][x0][ch] == v && img.cells[y0][x1][ch] == v;
    assert img.cells[y1][x0][ch] == v && img.cells[y1][x1][ch] == v;
    assert v * (1.0 - fx) + v * fx == v;
    assert v * (1.0 - fy) + v * fy == v;
  }

  /** Sampling at whole coordinates reads the cell there. */
  lemma SampleWhole(img: Array3, y: nat, x: nat, ch: nat)
    requires img.Valid() && y < img.h && x < img.w && ch < img.c
    ensures Sample(img, y as real, x as real, ch) == img.cells[y][x][ch]
  {
  }

  /** The sizes of `resize_for_detection`: the scale that takes the longer
      side to `target` (not finite for an empty image, which gives no
      rows), the scaled height and width, and both padded to multiples of
      32. */
  datatype DetectionSize = DetectionSize(scale: real, finite: bool, newH: nat, newW: nat, padH: nat, padW: nat)

  function DetectionDims(h: nat, w: nat, target: nat): (d: DetectionSize)
    ensures d.finite <==> Max(h, w) > 0
    ensures d.finite ==> d.scale * Max(h, w) as real == target as real
    ensures d.padH == PadTo32(d.newH) && d.padW == PadTo32(d.newW)
    ensures d.newH <= target && d.newW <= target
    ensures d.finite ==> Max(d.newH, d.newW) == target
    ensures d.newH > 0 ==> h > 0 && d.finite && d.scale > 0.0
    ensures d.newW > 0 ==> w > 0 && d.finite && d.scale > 0.0
  {
    var m := Max(h, w);
    if m == 0 then DetectionSize(0.0, false, 0, 0, 0, 0)
    else
      var scale := FitScale(m, target);
      var nh := ScaledSide(h, m, target);
      var nw := ScaledSide(w, m, target);
      DetectionSize(scale, true, nh, nw, PadTo32(nh), PadTo32(nw))
  }

  /** The scale taking a side of `m` to `target`: `target / m`. */
  function FitScale(m: nat, target: nat): (s: real)
    requires m > 0
    ensures s * m as real == target as real
    ensures s >= 0.0 && (s > 0.0 <==> target > 0)
  {
    target as real / m as real
  }

  /** A side scaled to its own length keeps it: the scale is one. */
  lemma FitScaleSelf(m: nat)
    requires m > 0
    ensures FitScale(m, m) == 1.0
  {
    var q := FitScale(m, m);
    assert (q - 1.0) * m as real == 0.0;
  }

  /** `(side * scale) as usize` for a side no longer than `m`: at most
      `target`, and `target` exactly for the longer side. */
  function ScaledSide(side: nat, m: nat, target: nat): (n: nat)
    requires 0 < m && side <= m
    ensures n <= target
    ensures side == m ==> n == target
    ensures n > 0 ==> side > 0 && target > 0
  {
    var q := FitScale(m, target);
    assert side as real * q <= m as real * q;
    ToUsize(side as real * q)
  }

  /** One cell of the detection resize: inside the scaled area the
      interpolated source, elsewhere the zero padding. */
  function DetectionCell(img: Array3, target: nat, y: nat, x: nat, ch: nat): real
    requires img.Valid() && ch < img.c
  {
    var d := DetectionDims(img.h, img.w, target);
    if y < d.newH && x < d.newW then
      Sample(img, SourceCoord(y, d.scale, img.h), SourceCoord(x, d.scale, img.w), ch)
    else 0.0
  }

  /** `resize_for_detection`: an image padded to multiples of 32 whose
      cells outside the scaled area stay zero, and the scale used. */
  function ResizeForDetection(img: Array3, target: nat): (r: (Array3, DetectionSize))
    requires img.Valid()
    ensures r.1 == DetectionDims(img.h, img.w, target)
    ensures r.0.Valid() && r.0.h == r.1.padH && r.0.w == r.1.padW && r.0.c == img.c
    ensures forall y, x, ch ::
              (0 <= y < r.1.padH && 0 <= x < r.1.padW && 0 <= ch < img.c && (y >= r.1.newH || x >= r.1.newW))
              ==> r.0.cells[y][x][ch] == 0.0
  {
    var d := DetectionDims(img.h, img.w, target);
    (Array3(d.padH, d.padW, img.c,
       seq(d.padH, y requires 0 <= y < d.padH =>
         seq(d.padW, x requires 0 <= x < d.padW =>
           seq(img.c, ch requires 0 <= ch < img.c => DetectionCell(img, target, y, x, ch))))),
     d)
  }

  /** A uniform channel stays uniform over the scaled area. */
  lemma ResizeForDetectionFlat(img: Array3, target: nat, ch: nat, v: real, y: nat, x: nat)
    requires img.Valid() && ch < img.c
    requires forall y, x :: 0 <= y < img.h && 0 <= x < img.w ==> img.cells[y][x][ch] == v
    requires var d := DetectionDims(img.h, img.w, target); y < d.newH && x < d.newW
    ensures ResizeForDetection(img, target).0.cells[y][x][ch] == v
  {
    var d := DetectionDims(img.h, img.w, target);
    SampleFlat(img, SourceCoord(y, d.scale, img.h), SourceCoord(x, d.scale, img.w), ch, v);
  }

  /** At a target equal to the longer side the scale is 1 and the scaled
      area is the image itself, cell for cell. */
  lemma ResizeForDetectionIdentity(img: Array3, y: nat, x: nat, ch: nat)
    requires img.Valid() && y < img.h && x < img.w && ch < img.c
    ensures var r := ResizeForDetection(img, Max(img.h, img.w));
            && r.1.scale == 1.0 && r.1.newH == img.h && r.1.newW == img.w
            && r.0.cells[y][x][ch] == img.cells[y][x][ch]
  {
    var m := Max(img.h, img.w);
    FitScaleSelf(m);
    var d := DetectionDims(img.h, img.w, m);
    assert d.scale == 1.0;
    assert d.newH == img.h by { assert img.h as real * FitScale(m, m) == img.h as real; }
    assert d.newW == img.w by { assert img.w as real * FitScale(m, m) == img.w as real; }
    assert SourceCoord(y, 1.0, img.h) == y as real;
    assert SourceCoord(x, 1.0, img.w) == x as real;
    SampleWhole(img, y, x, ch);
    assert DetectionCell(img, m, y, x, ch) == img.cells[y][x][ch];
  }

  /** The output width of `resize_for_recognition`:
      `((w * target / h) as u32).min(max_width)`. An empty source height
      makes the scale infinite, so any non-empty width saturates to
      `max_width`. */
  function RecognitionWidth(h: nat, w: nat, target: u32, maxWidth: u32): (n: nat)
    ensures n <= maxWidth
    ensures h > 0 ==> var s := w as real * FitScale(h, target);
                      && n as real <= s
                      && (s < maxWidth as real ==> s < n as real + 1.0)
    ensures n > 0 && h > 0 ==> w > 0 && target > 0
  {
    if h == 0 then (if target > 0 && w > 0 then maxWidth else 0)
    else
      var s := w as real * FitScale(h, target);
      assert s > 0.0 ==> w > 0 && target > 0;
      Min(ToU32(s), maxWidth)
  }

  /** What `resize_for_recognition` demands: a source with rows whenever
      there are output cells to fill (otherwise `h - 1` underflows). */
  predicate RecognitionDefined(img: Array3, target: u32, maxWidth: u32)
  {
    img.Valid() && (img.h > 0 || RecognitionWidth(img.h, img.w, target, maxWidth) == 0)
  }

  function RecognitionCell(img: Array3, target: u32, maxWidth: u32, y: nat, x: nat, ch: nat): real
    requires RecognitionDefined(img, target, maxWidth) && ch < img.c
    requires y < target && x < RecognitionWidth(img.h, img.w, target, maxWidth)
  {
    var scale := FitScale(img.h, target);
    Sample(img, SourceCoord(y, scale, img.h), SourceCoord(x, scale, img.w), ch)
  }

  /** `resize_for_recognition`: exactly `target` rows, at most `max_width`
      columns, every cell interpolated from the source. */
  function ResizeForRecognition(img: Array3, target: u32, maxWidth: u32): (out: Array3)
    requires RecognitionDefined(img, target, maxWidth)
    ensures out.Valid() && out.h == target && out.c == img.c
    ensures out.w == RecognitionWidth(img.h, img.w, target, maxWidth) <= maxWidth
  {
    var nw := RecognitionWidth(img.h, img.w, target, maxWidth);
    Array3(target, nw, img.c,
      seq(target, y requires 0 <= y < target =>
        seq(nw, x requires 0 <= x < nw =>
          seq(img.c, ch requires 0 <= ch < img.c => RecognitionCell(img, target, maxWidth, y, x, ch)))))
  }

  /** A uniform channel stays uniform. */
  lemma ResizeForRecognitionFlat(img: Array3, target: u32, maxWidth: u32, ch: nat, v: real, y: nat, x: nat)
    requires RecognitionDefined(img, target, maxWidth) && ch < img.c
    requires forall y, x :: 0 <= y < img.h && 0 <= x < img.w ==> img.cells[y][x][ch] == v
    requires y < target && x < RecognitionWidth(img.h, img.w, target, maxWidth)
    ensures ResizeForRecognition(img, target, maxWidth).cells[y][x][ch] == v
  {
    var scale := FitScale(img.h, target);
    SampleFlat(img, SourceCoord(y, scale, img.h), SourceCoord(x, scale, img.w), ch, v);
  }

  /** At the target height the width is kept when it fits. */
  lemma RecognitionWidthSame(h: nat, w: nat, maxWidth: u32)
    requires 0 < h <= U32_MAX && w <= maxWidth
    ensures RecognitionWidth(h, w, h, maxWidth) == w
  {
    FitScaleSelf(h);
    var s := w as real * FitScale(h, h);
    assert s == w as real;
    ToU32Whole(w);
  }

  /** An image already at the target height and no wider than the maximum
      comes back unchanged. */
  lemma ResizeForRecognitionIdentity(img: Array3, maxWidth: u32)
    requires img.Valid() && 0 < img.h <= U32_MAX && img.w <= maxWidth
    ensures ResizeForRecognition(img, img.h, maxWidth) == img
  {
    var out := ResizeForRecognition(img, img.h, maxWidth);
    RecognitionWidthSame(img.h, img.w, maxWidth);
    forall y | 0 <= y < img.h ensures out.cells[y] == img.cells[y] {
      forall x | 0 <= x < img.w ensures out.cells[y][x] == img.cells[y][x] {
        forall ch | 0 <= ch < img.c ensures out.cells[y][x][ch] == img.cells[y][x][ch] {
          RecognitionCellSame(img, maxWidth, y, x, ch);
        }
      }
    }
  }

  /** At the source's own height every cell is read back from its own
      place. */
  lemma RecognitionCellSame(img: Array3, maxWidth: u32, y: nat, x: nat, ch: nat)
    requires img.Valid() && 0 < img.h <= U32_MAX && img.w <= maxWidth
    requires y < img.h && x < img.w && ch < img.c
    ensures RecognitionWidth(img.h, img.w, img.h, maxWidth) == img.w
    ensures RecognitionCell(img, img.h, maxWidth, y, x, ch) == img.cells[y][x][ch]
  {
    RecognitionWidthSame(img.h, img.w, maxWidth);
    FitScaleSelf(img.h);
    assert SourceCoord(y, 1.0, img.h) == y as real;
    assert SourceCoord(x, 1.0, img.w) == x as real;
    SampleWhole(img, y, x, ch);
  }

  // ---------------------------------------------------------------------
  // Cropping
  // ---------------------------------------------------------------------

  /** The rows `y1 .. y2` and columns `x1 .. x2` a crop copies. */
  datatype Box = Box(x1: nat, y1: nat, x2: nat, y2: nat)

  /** The box `crop_polygon` copies: the polygon's bounding box truncated
      to whole pixels, its corner kept on the image and its far edge kept
      within it. It never leaves the image. */
  function CropBox(img: Array3, polygon: seq<(real, real)>): (b: Box)
    requires img.h > 0 && img.w > 0 && |polygon| > 0
    ensures b.x1 <= b.x2 <= img.w && b.y1 <= b.y2 <= img.h
    ensures b.x1 < img.w && b.y1 < img.h
  {
    var minX, maxX := Least(Xs(polygon)), Greatest(Xs(polygon));
    var minY, maxY := Least(Ys(polygon)), Greatest(Ys(polygon));
    ToUsizeMonotone(minX, maxX);
    ToUsizeMonotone(minY, maxY);
    Box(Min(ToUsize(minX), img.w - 1), Min(ToUsize(minY), img.h - 1),
        Min(ToUsize(maxX), img.w), Min(ToUsize(maxY), img.h))
  }

  /** What `crop_polygon` demands: a four-point polygon and an image with
      at least one row and column (else `img_w - 1` underflows). */
  predicate CropDefined(img: Array3, polygon: seq<(real, real)>)
  {
    img.Valid() && img.h > 0 && img.w > 0 && |polygon| == 4
  }

  /** The cells of `img` inside box `b`, as an image of their own. */
  function Window(img: Array3, b: Box): (out: Array3)
    requires img.Valid() && b.x1 <= b.x2 <= img.w && b.y1 <= b.y2 <= img.h
    ensures out.Valid() && out.h == b.y2 - b.y1 && out.w == b.x2 - b.x1 && out.c == img.c
    ensures forall y, x, ch :: 0 <= y < out.h && 0 <= x < out.w && 0 <= ch < img.c ==>
              out.cells[y][x][ch] == img.cells[b.y1 + y][b.x1 + x][ch]
  {
    var ch, cw := b.y2 - b.y1, b.x2 - b.x1;
    Array3(ch, cw, img.c,
      seq(ch, y requires 0 <= y < ch =>
        seq(cw, x requires 0 <= x < cw =>
          seq(img.c, k requires 0 <= k < img.c => img.cells[b.y1 + y][b.x1 + x][k]))))
  }

  /** `crop_polygon`: a single zero pixel when the box is empty, otherwise
      the image cells inside the box. */
  function CropPolygon(img: Array3, polygon: seq<(real, real)>): (out: Array3)
    requires CropDefined(img, polygon)
    ensures out.Valid() && out.c == img.c
    ensures var b := CropBox(img, polygon);
            && (b.x2 == b.x1 || b.y2 == b.y1 ==> out == Zeros3(1, 1, img.c))
            && (b.x2 > b.x1 && b.y2 > b.y1 ==> out == Window(img, b))
  {
    var b := CropBox(img, polygon);
    if b.x2 == b.x1 || b.y2 == b.y1 then Zeros3(1, 1, img.c)
    else Window(img, b)
  }

  /** A polygon reaching past every edge crops the whole image. */
  lemma CropWhole(img: Array3, polygon: seq<(real, real)>, i: nat, j: nat, k: nat, l: nat)
    requires CropDefined(img, polygon) && i < 4 && j < 4 && k < 4 && l < 4
    requires polygon[i].0 < 1.0 && polygon[j].1 < 1.0
    requires polygon[k].0 >= img.w as real && polygon[l].1 >= img.h as real
    ensures CropPolygon(img, polygon) == img
  {
    CropBoxWhole(img, polygon, i, j, k, l);
    WindowWhole(img);
  }

  lemma CropBoxWhole(img: Array3, polygon: seq<(real, real)>, i: nat, j: nat, k: nat, l: nat)
    requires CropDefined(img, polygon) && i < 4 && j < 4 && k < 4 && l < 4
    requires polygon[i].0 < 1.0 && polygon[j].1 < 1.0
    requires polygon[k].0 >= img.w as real && polygon[l].1 >= img.h as real
    ensures CropBox(img, polygon) == Box(0, 0, img.w, img.h)
  {
    var xs, ys := Xs(polygon), Ys(polygon);
    assert Least(xs) <= xs[i] && Least(ys) <= ys[j];
    assert Greatest(xs) >= xs[k] && Greatest(ys) >= ys[l];
    assert ToUsize(Least(xs)) == 0 && ToUsize(Least(ys)) == 0;
    assert ToUsize(Greatest(xs)) >= img.w && ToUsize(Greatest(ys)) >= img.h;
    var b := CropBox(img, polygon);
    assert b.x1 == 0 && b.y1 == 0;
    assert b.x2 == img.w && b.y2 == img.h;
  }

  /** The window over the whole image is the image. */
  lemma WindowWhole(img: Array3)
    requires img.Valid()
    ensures Window(img, Box(0, 0, img.w, img.h)) == img
  {
    var out := Window(img, Box(0, 0, img.w, img.h));
    forall y | 0 <= y < img.h ensures out.cells[y] == img.cells[y] {
      forall x | 0 <= x < img.w ensures out.cells[y][x] == img.cells[y][x] {
      }
    }
  }

  /** A polygon with no width inside the image is degenerate: one zero
      pixel comes back. */
  lemma CropVerticalLine(img: Array3, polygon: seq<(real, real)>)
    requires CropDefined(img, polygon)
    requires forall i :: 0 <= i < 4 ==> polygon[i].0 == polygon[0].0
    requires 0.0 <= polygon[0].0 < img.w as real
    ensures CropPolygon(img, polygon) == Zeros3(1, 1, img.c)
  {
    var xs := Xs(polygon);
    var a :| 0 <= a < 4 && Least(xs) == xs[a];
    var z :| 0 <= z < 4 && Greatest(xs) == xs[z];
    assert ToUsize(polygon[0].0) < img.w;
  }

  // ---------------------------------------------------------------------
  // The two pipelines
  // ---------------------------------------------------------------------

  /** `preprocess_for_detection`: bytes to image, detection resize,
      normalisation, NCHW layout. The tensor has three channels and the
      padded size; the scale is returned alongside. */
  function PreprocessForDetection(data: seq<byte>, width: nat, height: nat, config: PreprocessConfig): (r: (Array4, DetectionSize))
    requires Standardising(config.mean, config.std)
    ensures r.1 == DetectionDims(height, width, config.detTargetSize)
    ensures r.0.Valid() && r.0.n == 1 && r.0.c == 3 && r.0.h == r.1.padH && r.0.w == r.1.padW
  {
    var resized := ResizeForDetection(RgbaToRgb(data, width, height), config.detTargetSize);
    (HwcToNchw(Normalize(resized.0, config.mean, config.std)), resized.1)
  }

  /** What a zero cell becomes under normalisation: `-mean / std` of its
      channel, -1 under the default configuration. */
  function NormalizedZero(mean: seq<real>, std: seq<real>, ch: nat): (z: real)
    requires Standardising(mean, std) && ch < 3
    ensures z * std[ch] == -mean[ch]
    ensures mean[ch] == 0.5 && std[ch] == 0.5 ==> z == -1.0
  {
    (0.0 - mean[ch]) / std[ch]
  }

  /** The padding of the detection tensor holds the normalised zero, -1
      under the default configuration. */
  lemma DetectionPadding(data: seq<byte>, width: nat, height: nat, config: PreprocessConfig, ch: nat, y: nat, x: nat)
    requires Standardising(config.mean, config.std) && ch < 3
    requires var d := DetectionDims(height, width, config.detTargetSize);
             y < d.padH && x < d.padW && (y >= d.newH || x >= d.newW)
    ensures PreprocessForDetection(data, width, height, config).0.cells[0][ch][y][x]
            == NormalizedZero(config.mean, config.std, ch)
    ensures config.mean == DefaultConfig.mean && config.std == DefaultConfig.std ==>
              PreprocessForDetection(data, width, height, config).0.cells[0][ch][y][x] == -1.0
  {
    var resized := ResizeForDetection(RgbaToRgb(data, width, height), config.detTargetSize).0;
    DetectionTensorCell(data, width, height, config, ch, y, x);
    assert resized.cells[y][x][ch] == 0.0;
    NormalizeZero(resized, config.mean, config.std, y, x, ch);
  }

  /** A cell of the detection tensor is the normalised cell of the resized
      image. */
  lemma DetectionTensorCell(data: seq<byte>, width: nat, height: nat, config: PreprocessConfig, ch: nat, y: nat, x: nat)
    requires Standardising(config.mean, config.std) && ch < 3
    requires var d := DetectionDims(height, width, config.detTargetSize);
             y < d.padH && x < d.padW
    ensures var resized := ResizeForDetection(RgbaToRgb(data, width, height), config.detTargetSize).0;
            && y < resized.h && x < resized.w && resized.c == 3
            && PreprocessForDetection(data, width, height, config).0.cells[0][ch][y][x]
               == Normalize(resized, config.mean, config.std).cells[y][x][ch]
  {
    var resized := ResizeForDetection(RgbaToRgb(data, width, height), config.detTargetSize).0;
    var norm := Normalize(resized, config.mean, config.std);
    assert PreprocessForDetection(data, width, height, config).0 == HwcToNchw(norm);
    assert HwcToNchw(norm).cells[0][ch][y][x] == norm.cells[y][x][ch];
  }

  /** A zero cell normalises to the normalised zero. */
  lemma NormalizeZero(img: Array3, mean: seq<real>, std: seq<real>, y: nat, x: nat, ch: nat)
    requires Normalisable(img, mean, std) && y < img.h && x < img.w && ch < 3
    requires img.cells[y][x][ch] == 0.0
    ensures Normalize(img, mean, std).cells[y][x][ch] == NormalizedZero(mean, std, ch)
  {
  }

  /** What `preprocess_for_recognition` demands: a three-channel crop the
      recognition resize can read. */
  predicate RecognitionInputDefined(img: Array3, config: PreprocessConfig)
  {
    && RecognitionDefined(img, config.recTargetHeight, config.recMaxWidth)
    && img.c >= 3 && Standardising(config.mean, config.std)
  }

  /** `preprocess_for_recognition`: recognition resize, normalisation,
      NCHW layout; a tensor of three channels, the target height and at
      most the maximum width. */
  function PreprocessForRecognition(img: Array3, config: PreprocessConfig): (t: Array4)
    requires RecognitionInputDefined(img, config)
    ensures t.Valid() && t.n == 1 && t.c == 3 && t.h == config.recTargetHeight
    ensures t.w == RecognitionWidth(img.h, img.w, config.recTargetHeight, config.recMaxWidth) <= config.recMaxWidth
  {
    var resized := ResizeForRecognition(img, config.recTargetHeight, config.recMaxWidth);
    HwcToNchw(Normalize(resized, config.mean, config.std))
  }
}
