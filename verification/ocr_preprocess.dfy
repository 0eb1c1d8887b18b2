/** The OCR preprocessing filters of src/vision/ocr_preprocess.rs over RGBA
    byte buffers: optional upscaling, contrast, sharpening, grayscale and
    inversion, applied in that order. Pixel arithmetic is over reals; the
    `as u8` casts are the saturating truncation `ClampToByte`. */
module OcrPreprocess {
  import opened Numeric

  /** The colour channels of one pixel. */
  datatype Rgb = Rgb(r: byte, g: byte, b: byte)

  /** One RGBA group of four bytes. */
  datatype Pixel = Pixel(rgb: Rgb, a: byte)

  /** The complete four-byte groups that `chunks_exact(4)` visits, in order. */
  function Pixels(data: seq<byte>): (ps: seq<Pixel>)
    ensures |ps| == |data| / 4
    decreases |data|
  {
    if |data| < 4 then []
    else [Pixel(Rgb(data[0], data[1], data[2]), data[3])] + Pixels(data[4..])
  }

  /** The bytes after the last complete group, which `chunks_exact_mut(4)`
      never visits. */
  function Rest(data: seq<byte>): (t: seq<byte>)
    ensures |t| == |data| % 4
  {
    data[4 * (|data| / 4)..]
  }

  /** A pixel sequence laid out as RGBA bytes. */
  function Bytes(ps: seq<Pixel>): (data: seq<byte>)
    ensures |data| == 4 * |ps|
  {
    if |ps| == 0 then []
    else [ps[0].rgb.r, ps[0].rgb.g, ps[0].rgb.b, ps[0].a] + Bytes(ps[1..])
  }

  /** Splitting a buffer into groups and laying them out again, followed by
      the rest, gives the buffer back. */
  lemma {:induction false} BytesOfPixels(data: seq<byte>)
    ensures Bytes(Pixels(data)) + Rest(data) == data
    decreases |data|
  {
    if |data| >= 4 {
      BytesOfPixels(data[4..]);
      RestSkipsGroup(data);
      FirstGroupBytes(data);
      assert Bytes(Pixels(data)) + Rest(data) == data[..4] + (Bytes(Pixels(data[4..])) + Rest(data[4..]));
      assert data == data[..4] + data[4..];
    }
  }

  /** The first group laid out again is the first four bytes. */
  lemma FirstGroupBytes(data: seq<byte>)
    requires |data| >= 4
    ensures Bytes(Pixels(data)) == data[..4] + Bytes(Pixels(data[4..]))
  {
    PixelsCons(data);
    BytesCons(Pixel(Rgb(data[0], data[1], data[2]), data[3]), Pixels(data[4..]));
    assert [data[0], data[1], data[2], data[3]] == data[..4];
  }

  /** The first group does not change what is left after the last one. */
  lemma RestSkipsGroup(data: seq<byte>)
    requires |data| >= 4
    ensures Rest(data[4..]) == Rest(data)
  {
    var n := |data|;
    assert (n - 4) / 4 == n / 4 - 1;
    assert 4 * ((n - 4) / 4) + 4 == 4 * (n / 4);
  }

  /** The first four bytes form the first group. */
  lemma PixelsCons(data: seq<byte>)
    requires |data| >= 4
    ensures Pixels(data) == [Pixel(Rgb(data[0], data[1], data[2]), data[3])] + Pixels(data[4..])
  {
  }

  /** The first pixel is laid out as the first four bytes. */
  lemma BytesCons(p: Pixel, ps: seq<Pixel>)
    ensures Bytes([p] + ps) == [p.rgb.r, p.rgb.g, p.rgb.b, p.a] + Bytes(ps)
  {
    assert ([p] + ps)[1..] == ps;
  }

  /** Laying pixels out and splitting again gives them back, and a short
      tail stays the rest. */
  lemma {:induction false} PixelsOfBytes(ps: seq<Pixel>, t: seq<byte>)
    requires |t| < 4
    ensures Pixels(Bytes(ps) + t) == ps
    ensures Rest(Bytes(ps) + t) == t
  {
    if |ps| > 0 {
      PixelsOfBytes(ps[1..], t);
      assert (Bytes(ps) + t)[4..] == Bytes(ps[1..]) + t;
    }
  }

  /** Group `k` holds bytes `4k` to `4k + 3`. */
  lemma {:induction false} PixelAt(data: seq<byte>, k: nat)
    requires k < |data| / 4
    ensures Pixels(data)[k] == Pixel(Rgb(data[4 * k], data[4 * k + 1], data[4 * k + 2]), data[4 * k + 3])
    decreases k
  {
    if k > 0 {
      PixelAt(data[4..], k - 1);
    }
  }

  /** A filter applied to the colour of every pixel, alpha untouched. */
  function MapColours(ps: seq<Pixel>, f: Rgb -> Rgb): (qs: seq<Pixel>)
  {
    seq(|ps|, k requires 0 <= k < |ps| => Pixel(f(ps[k].rgb), ps[k].a))
  }

  /** `for chunk in data.chunks_exact_mut(4)` rewriting the colour channels
      of each complete group: every group gets the filtered colour and
      keeps its alpha, and the trailing bytes stay as they are. */
  function MapPixels(data: seq<byte>, f: Rgb -> Rgb): (out: seq<byte>)
    ensures |out| == |data|
    ensures |Pixels(out)| == |Pixels(data)|
    ensures forall k :: 0 <= k < |Pixels(data)| ==>
              Pixels(out)[k] == Pixel(f(Pixels(data)[k].rgb), Pixels(data)[k].a)
    ensures Rest(out) == Rest(data)
  {
    var out := Bytes(MapColours(Pixels(data), f)) + Rest(data);
    PixelsOfBytes(MapColours(Pixels(data), f), Rest(data));
    out
  }

  /** Filtering with `f` and then `g` is filtering once with their
      composition. */
  lemma MapPixelsCompose(data: seq<byte>, f: Rgb -> Rgb, g: Rgb -> Rgb, h: Rgb -> Rgb)
    requires forall p :: h(p) == g(f(p))
    ensures MapPixels(MapPixels(data, f), g) == MapPixels(data, h)
  {
    var once := MapPixels(data, f);
    assert MapColours(Pixels(once), g) == MapColours(Pixels(data), h);
  }

  /** A filter that fixes every colour leaves the buffer as it is. */
  lemma MapPixelsIdentity(data: seq<byte>, f: Rgb -> Rgb)
    requires forall p :: f(p) == p
    ensures MapPixels(data, f) == data
  {
    var ps := Pixels(data);
    forall k | 0 <= k < |ps| ensures MapColours(ps, f)[k] == ps[k] {
      assert f(ps[k].rgb) == ps[k].rgb;
    }
    assert MapColours(ps, f) == ps;
    BytesOfPixels(data);
  }

  // ---------------------------------------------------------------------
  // Invert
  // ---------------------------------------------------------------------

  function InvertRgb(p: Rgb): Rgb
  {
    Rgb(255 - p.r, 255 - p.g, 255 - p.b)
  }

  /** `apply_invert`: every colour byte `v` of a complete group becomes
      `255 - v`. */
  function Invert(data: seq<byte>): (out: seq<byte>)
    ensures |out| == |data| && Rest(out) == Rest(data)
    ensures forall k :: 0 <= k < |data| / 4 ==>
              var p := Pixels(data)[k];
              Pixels(out)[k] == Pixel(Rgb(255 - p.rgb.r, 255 - p.rgb.g, 255 - p.rgb.b), p.a)
  {
    MapPixels(data, InvertRgb)
  }

  /** Inverting twice gives the buffer back. */
  lemma InvertTwice(data: seq<byte>)
    ensures Invert(Invert(data)) == data
  {
    var id := (p: Rgb) => p;
    MapPixelsCompose(data, InvertRgb, InvertRgb, id);
    MapPixelsIdentity(data, id);
  }

  /** The inversion of the pixel (0, 100, 255, 255). */
  lemma InvertExample()
    ensures Invert([0, 100, 255, 255]) == [255, 155, 0, 255]
  {
    PixelsOfBytes([Pixel(Rgb(255, 155, 0), 255)], []);
  }

  // ---------------------------------------------------------------------
  // Contrast
  // ---------------------------------------------------------------------

  /** One channel under `apply_contrast`: its distance from 128 scaled by
      the factor, then clamped and truncated. */
  function ContrastByte(v: byte, factor: real): (r: byte)
    ensures v == 128 ==> r == 128
    ensures factor == 1.0 ==> r == v
    ensures factor == 0.0 ==> r == 128
  {
    ClampToByte((v as real - 128.0) * factor + 128.0)
  }

  function ContrastRgb(factor: real): Rgb -> Rgb
  {
    (p: Rgb) => Rgb(ContrastByte(p.r, factor), ContrastByte(p.g, factor), ContrastByte(p.b, factor))
  }

  /** `apply_contrast`. */
  function Contrast(data: seq<byte>, factor: real): (out: seq<byte>)
    ensures |out| == |data| && Rest(out) == Rest(data)
    ensures forall k :: 0 <= k < |data| / 4 ==>
              var p := Pixels(data)[k];
              Pixels(out)[k] == Pixel(Rgb(ContrastByte(p.rgb.r, factor), ContrastByte(p.rgb.g, factor),
                                          ContrastByte(p.rgb.b, factor)), p.a)
  {
    MapPixels(data, ContrastRgb(factor))
  }

  /** With a non-negative factor a brighter channel stays at least as
      bright. */
  lemma ContrastMonotone(v: byte, w: byte, factor: real)
    requires v <= w && factor >= 0.0
    ensures ContrastByte(v, factor) <= ContrastByte(w, factor)
  {
    assert (v as real - 128.0) * factor <= (w as real - 128.0) * factor;
    ClampToByteMonotone((v as real - 128.0) * factor + 128.0, (w as real - 128.0) * factor + 128.0);
  }

  /** A factor of one leaves every buffer as it is. */
  lemma ContrastOneIsIdentity(data: seq<byte>)
    ensures Contrast(data, 1.0) == data
  {
    MapPixelsIdentity(data, ContrastRgb(1.0));
  }

  /** Doubling the contrast of the pixel (100, 128, 200, 255) gives
      (72, 128, 255, 255). */
  lemma ContrastExample()
    ensures Contrast([100, 128, 200, 255], 2.0) == [72, 128, 255, 255]
  {
    assert ContrastByte(100, 2.0) == 72;
    assert ContrastByte(200, 2.0) == 255;
    PixelsOfBytes([Pixel(Rgb(72, 128, 255), 255)], []);
  }

  // ---------------------------------------------------------------------
  // Grayscale
  // ---------------------------------------------------------------------

  /** The luma of a pixel with the weights 0.299, 0.587 and 0.114 of
      ITU-R BT.601, truncated to a byte. */
  function Luma(p: Rgb): (y: byte)
    ensures p.r == p.g == p.b ==> y == p.r
  {
    ClampToByte(0.299 * p.r as real + 0.587 * p.g as real + 0.114 * p.b as real)
  }

  function GrayRgb(p: Rgb): Rgb
  {
    var y := Luma(p);
    Rgb(y, y, y)
  }

  /** `apply_grayscale`: the three colour bytes of a group all become its
      luma; alpha and the trailing bytes stay. */
  function Grayscale(data: seq<byte>): (out: seq<byte>)
    ensures |out| == |data| && Rest(out) == Rest(data)
    ensures forall k :: 0 <= k < |data| / 4 ==>
              var p := Pixels(data)[k];
              var y := Luma(p.rgb);
              Pixels(out)[k] == Pixel(Rgb(y, y, y), p.a)
  {
    MapPixels(data, GrayRgb)
  }

  /** Grayscale is idempotent: a gray pixel is its own luma. */
  lemma GrayscaleTwice(data: seq<byte>)
    ensures Grayscale(Grayscale(data)) == Grayscale(data)
  {
    MapPixelsCompose(data, GrayRgb, GrayRgb, GrayRgb);
  }

  /** Pure red becomes the gray level 76. */
  lemma GrayscaleExample()
    ensures Grayscale([255, 0, 0, 255]) == [76, 76, 76, 255]
  {
    assert Luma(Rgb(255, 0, 0)) == 76;
    PixelsOfBytes([Pixel(Rgb(76, 76, 76), 255)], []);
  }

  // ---------------------------------------------------------------------
  // Sharpen
  // ---------------------------------------------------------------------

  /** `a <= b` scales to `a * c <= b * c` for a non-negative `c`. */
  lemma MulMonotone(a: int, b: int, c: nat)
    requires a <= b
    ensures a * c <= b * c
  {
    assert b * c - a * c == (b - a) * c;
  }

  /** Byte `i` belongs to a colour channel of a pixel off the border of a
      `w` by `h` image: one that `apply_sharpen` rewrites. */
  predicate Interior(i: nat, w: nat, h: nat)
  {
    && w >= 3 && h >= 3 && i % 4 < 3
    && var p := i / 4;
       1 <= p % w <= w - 2 && 1 <= p / w <= h - 2
  }

  /** An interior byte has its four neighbours inside a buffer of at least
      `4wh - 5` bytes: the one above at `i - 4w`, below at `i + 4w`, left
      at `i - 4` and right at `i + 4`. */
  lemma InteriorNeighbours(i: nat, w: nat, h: nat)
    requires Interior(i, w, h)
    ensures i >= 4 * w && i + 4 * w <= 4 * (h * w) - 6
  {
    var p := i / 4;
    var x, y := p % w, p / w;
    var yw := y * w;
    assert p == yw + x;
    assert i == 4 * p + i % 4;
    MulMonotone(1, y, w);
    MulMonotone(y + 1, h - 1, w);
    assert (y + 1) * w == yw + w;
    assert (h - 1) * w == h * w - w;
  }

  /** The sharpened value of one channel: the centre weighted `1 + 4s`,
      each of the four neighbours weighted `-s`, clamped and truncated. */
  function SharpenByte(centre: byte, top: byte, bottom: byte, left: byte, right: byte, strength: real): (r: byte)
    ensures strength == 0.0 ==> r == centre
    ensures top == bottom == left == right == centre ==> r == centre
  {
    var sharpened := centre as real * (1.0 + 4.0 * strength)
                     - strength * (top as real + bottom as real + left as real + right as real);
    ClampToByte(sharpened)
  }

  /** What `apply_sharpen` demands of its caller to run without a `usize`
      underflow or an out-of-bounds read: `h - 1` is computed always, `w - 1`
      once a row is visited, and the lowest neighbour read is byte
      `4wh - 6`. */
  predicate SharpenDefined(len: nat, w: nat, h: nat)
  {
    && h >= 1
    && (h >= 3 ==> w >= 1)
    && (w >= 3 && h >= 3 ==> len >= 4 * (h * w) - 5)
  }

  /** `apply_sharpen`: a copy of the buffer in which every interior colour
      byte is replaced by the kernel over the ORIGINAL bytes around it. */
  function Sharpen(data: seq<byte>, w: nat, h: nat, strength: real): (out: seq<byte>)
    requires SharpenDefined(|data|, w, h)
    ensures |out| == |data|
    ensures forall i :: 0 <= i < |data| && !Interior(i, w, h) ==> out[i] == data[i]
  {
    seq(|data|, i requires 0 <= i < |data| => SharpenAt(data, w, h, strength, i))
  }

  /** Byte `i` of the sharpened copy. */
  function SharpenAt(data: seq<byte>, w: nat, h: nat, strength: real, i: nat): byte
    requires SharpenDefined(|data|, w, h) && i < |data|
  {
    if Interior(i, w, h) then
      InteriorNeighbours(i, w, h);
      SharpenByte(data[i], data[i - 4 * w], data[i + 4 * w], data[i - 4], data[i + 4], strength)
    else data[i]
  }

  /** Each interior byte takes the kernel over its four neighbours. */
  lemma SharpenInterior(data: seq<byte>, w: nat, h: nat, strength: real, i: nat)
    requires SharpenDefined(|data|, w, h) && i < |data| && Interior(i, w, h)
    ensures i >= 4 * w && i + 4 * w < |data|
    ensures Sharpen(data, w, h, strength)[i]
            == SharpenByte(data[i], data[i - 4 * w], data[i + 4 * w], data[i - 4], data[i + 4], strength)
  {
    InteriorNeighbours(i, w, h);
  }

  /** A strength of zero leaves the image as it is. */
  lemma SharpenZeroIsIdentity(data: seq<byte>, w: nat, h: nat)
    requires SharpenDefined(|data|, w, h)
    ensures Sharpen(data, w, h, 0.0) == data
  {
  }

  /** An image of one flat value has no edges to sharpen. */
  lemma SharpenFlat(data: seq<byte>, w: nat, h: nat, strength: real, v: byte)
    requires SharpenDefined(|data|, w, h)
    requires forall i :: 0 <= i < |data| ==> data[i] == v
    ensures Sharpen(data, w, h, strength) == data
  {
    var out := Sharpen(data, w, h, strength);
    forall i | 0 <= i < |data| && Interior(i, w, h) ensures out[i] == data[i] {
      SharpenInterior(data, w, h, strength, i);
    }
  }

  /** Images too small to have an interior pixel are never changed. */
  lemma SharpenSmall(data: seq<byte>, w: nat, h: nat, strength: real)
    requires SharpenDefined(|data|, w, h) && (w < 3 || h < 3)
    ensures Sharpen(data, w, h, strength) == data
  {
  }

  // ---------------------------------------------------------------------
  // Upscale
  // ---------------------------------------------------------------------

  /** Division by a positive `n` recovers the quotient and remainder that
      make up `j`. */
  lemma DivModOf(j: int, q: int, r: int, n: int)
    requires n > 0 && 0 <= r < n && j == q * n + r
    ensures j / n == q && j % n == r
  {
    var q', r' := j / n, j % n;
    assert j == q' * n + r';
    if q' < q {
      MulMonotone(q' + 1, q, n);
    } else if q' > q {
      MulMonotone(q + 1, q', n);
    }
  }

  /** The row of an index below `n * m` in rows of length `n` is below `m`. */
  lemma RowBound(j: nat, n: nat, m: nat)
    requires n > 0 && j < n * m
    ensures 0 <= j / n < m && 0 <= j % n < n
  {
    var q := j / n;
    assert j == q * n + j % n;
    if q >= m {
      MulMonotone(m, q, n);
    }
  }

  /** Pixel `(x, y)` of a `w` by `h` image lies inside it. */
  lemma IndexInImage(x: nat, y: nat, w: nat, h: nat)
    requires x < w && y < h
    ensures y * w + x < w * h
  {
    MulMonotone(y, h - 1, w);
    assert (h - 1) * w == h * w - w;
  }

  /** The sizes `apply_upscale` computes in `u32` without overflow: the new
      width and height and the byte count `new_width * new_height * 4`. */
  predicate UpscaleFits(w: nat, h: nat, scale: nat)
  {
    scale > 1 ==>
      && w * scale <= U32_MAX && h * scale <= U32_MAX
      && (w * scale) * (h * scale) * 4 <= U32_MAX
  }

  /** What `apply_upscale` demands of its caller: sizes that fit, and a
      buffer holding every pixel of the source image. */
  predicate UpscaleDefined(len: nat, w: nat, h: nat, scale: nat)
  {
    && UpscaleFits(w, h, scale)
    && (scale > 1 && w > 0 && h > 0 ==> len >= 4 * (w * h))
  }

  /** Where output coordinate `n` samples the source along one axis: the
      two neighbouring source coordinates, both kept inside the image, and
      the weight of the second. */
  function SourceCoord(n: nat, scale: nat, limit: nat): (r: (nat, nat, real))
    requires scale > 0 && limit > 0
    ensures r.0 < limit && r.1 < limit && 0.0 <= r.2 < 1.0
  {
    var src := n as real / scale as real;
    var f := Floor(src);
    var x0 := Min(f, limit - 1);
    (x0, Min(x0 + 1, limit - 1), src - f as real)
  }

  /** A sample point `scale * x` maps back exactly onto source pixel `x`. */
  lemma SourceCoordOfSample(x: nat, scale: nat, limit: nat)
    requires scale > 0 && x < limit
    ensures SourceCoord(scale * x, scale, limit).0 == x
    ensures SourceCoord(scale * x, scale, limit).2 == 0.0
  {
    assert (scale * x) as real == scale as real * x as real;
    assert (scale * x) as real / scale as real == x as real;
  }

  /** Interpolation between four byte values, first across then down,
      clamped and truncated. */
  function Bilinear(p00: byte, p10: byte, p01: byte, p11: byte, xw: real, yw: real): (r: byte)
    ensures xw == 0.0 && yw == 0.0 ==> r == p00
  {
    var top := p00 as real * (1.0 - xw) + p10 as real * xw;
    var bottom := p01 as real * (1.0 - xw) + p11 as real * xw;
    ClampToByte(top * (1.0 - yw) + bottom * yw)
  }

  /** Four equal values interpolate to that value for every weight. */
  lemma BilinearFlat(v: byte, xw: real, yw: real)
    ensures Bilinear(v, v, v, v, xw, yw) == v
  {
    var t := v as real * (1.0 - xw) + v as real * xw;
    assert t == v as real;
    assert t * (1.0 - yw) + t * yw == v as real;
  }

  function BilinearPixel(p00: Pixel, p10: Pixel, p01: Pixel, p11: Pixel, xw: real, yw: real): Pixel
  {
    Pixel(Rgb(Bilinear(p00.rgb.r, p10.rgb.r, p01.rgb.r, p11.rgb.r, xw, yw),
              Bilinear(p00.rgb.g, p10.rgb.g, p01.rgb.g, p11.rgb.g, xw, yw),
              Bilinear(p00.rgb.b, p10.rgb.b, p01.rgb.b, p11.rgb.b, xw, yw)),
          Bilinear(p00.a, p10.a, p01.a, p11.a, xw, yw))
  }

  /** Output pixel `(nx, ny)` of the upscaled image. */
  function UpscalePixel(src: seq<Pixel>, w: nat, h: nat, scale: nat, nx: nat, ny: nat): Pixel
    requires w > 0 && h > 0 && scale > 0 && |src| >= w * h
  {
    var (x0, x1, xw) := SourceCoord(nx, scale, w);
    var (y0, y1, yw) := SourceCoord(ny, scale, h);
    IndexInImage(x0, y0, w, h);
    IndexInImage(x1, y0, w, h);
    IndexInImage(x0, y1, w, h);
    IndexInImage(x1, y1, w, h);
    BilinearPixel(src[y0 * w + x0], src[y0 * w + x1], src[y1 * w + x0], src[y1 * w + x1], xw, yw)
  }

  /** The `w * scale` by `h * scale` output pixels, row by row. */
  function UpscaledPixels(src: seq<Pixel>, w: nat, h: nat, scale: nat): (ps: seq<Pixel>)
    requires w > 0 && h > 0 && scale > 0 && |src| >= w * h
    ensures |ps| == (w * scale) * (h * scale)
    ensures forall j :: 0 <= j < |ps| ==> ps[j] == UpscalePixel(src, w, h, scale, j % (w * scale), j / (w * scale))
  {
    var nw := w * scale;
    seq(nw * (h * scale), j requires 0 <= j < nw * (h * scale) => UpscalePixel(src, w, h, scale, j % nw, j / nw))
  }

  /** `apply_upscale`: a scale of at most one copies the buffer; otherwise
      every pixel of the `w * scale` by `h * scale` result, row by row,
      samples the source bilinearly. */
  function Upscale(data: seq<byte>, w: nat, h: nat, scale: nat): (out: seq<byte>)
    requires UpscaleDefined(|data|, w, h, scale)
    ensures scale <= 1 ==> out == data
    ensures scale > 1 ==> |out| == 4 * ((w * scale) * (h * scale))
  {
    if scale <= 1 then data
    else if w == 0 || h == 0 then []
    else Bytes(UpscaledPixels(Pixels(data), w, h, scale))
  }

  /** Splitting the upscaled buffer into groups gives the output pixels. */
  lemma PixelsOfUpscale(data: seq<byte>, w: nat, h: nat, scale: nat)
    requires UpscaleDefined(|data|, w, h, scale) && scale > 1 && w > 0 && h > 0
    ensures Pixels(Upscale(data, w, h, scale)) == UpscaledPixels(Pixels(data), w, h, scale)
  {
    var ps := UpscaledPixels(Pixels(data), w, h, scale);
    PixelsOfBytes(ps, []);
    assert Bytes(ps) + [] == Bytes(ps);
  }

  /** The output pixel sampled exactly at source pixel `(x, y)` is that
      pixel. */
  lemma UpscalePixelAtSample(src: seq<Pixel>, w: nat, h: nat, scale: nat, x: nat, y: nat)
    requires w > 0 && h > 0 && scale > 0 && |src| >= w * h && x < w && y < h
    ensures 0 <= y * w + x < |src|
    ensures UpscalePixel(src, w, h, scale, scale * x, scale * y) == src[y * w + x]
  {
    IndexInImage(x, y, w, h);
    SourceCoordOfSample(x, scale, w);
    SourceCoordOfSample(y, scale, h);
  }

  /** A source of one colour gives that colour at every output pixel. */
  lemma UpscalePixelFlat(src: seq<Pixel>, w: nat, h: nat, scale: nat, nx: nat, ny: nat, p: Pixel)
    requires w > 0 && h > 0 && scale > 0 && |src| >= w * h
    requires forall k :: 0 <= k < |src| ==> src[k] == p
    ensures UpscalePixel(src, w, h, scale, nx, ny) == p
  {
    var (x0, x1, xw) := SourceCoord(nx, scale, w);
    var (y0, y1, yw) := SourceCoord(ny, scale, h);
    IndexInImage(x0, y0, w, h);
    IndexInImage(x1, y0, w, h);
    IndexInImage(x0, y1, w, h);
    IndexInImage(x1, y1, w, h);
    assert src[y0 * w + x0] == src[y0 * w + x1] == src[y1 * w + x0] == src[y1 * w + x1] == p;
    BilinearFlat(p.rgb.r, xw, yw);
    BilinearFlat(p.rgb.g, xw, yw);
    BilinearFlat(p.rgb.b, xw, yw);
    BilinearFlat(p.a, xw, yw);
  }

  /** Output pixel `(scale * x, scale * y)` sits at index
      `scale * y * (w * scale) + scale * x` of the row-by-row output. */
  lemma SampleIndex(x: nat, y: nat, w: nat, h: nat, scale: nat)
    requires scale > 0 && x < w && y < h
    ensures var j := (scale * y) * (w * scale) + scale * x;
            0 <= j < (w * scale) * (h * scale) && j % (w * scale) == scale * x && j / (w * scale) == scale * y
  {
    var nw, nh := w * scale, h * scale;
    MulMonotone(x + 1, w, scale);
    MulMonotone(y + 1, h, scale);
    IndexInImage(scale * x, scale * y, nw, nh);
    DivModOf((scale * y) * nw + scale * x, scale * y, scale * x, nw);
  }

  /** Every source pixel reappears unchanged at the output pixel
      `(scale * x, scale * y)`. */
  lemma UpscaleKeepsSamples(data: seq<byte>, w: nat, h: nat, scale: nat, x: nat, y: nat)
    requires UpscaleDefined(|data|, w, h, scale) && scale > 1
    requires x < w && y < h
    ensures 0 <= y * w + x < |data| / 4
    ensures var j := (scale * y) * (w * scale) + scale * x;
            var out := Pixels(Upscale(data, w, h, scale));
            0 <= j < |out| && out[j] == Pixels(data)[y * w + x]
  {
    SampleIndex(x, y, w, h, scale);
    PixelsOfUpscale(data, w, h, scale);
    UpscalePixelAtSample(Pixels(data), w, h, scale, x, y);
  }

  /** Every output pixel of a one-colour source has that colour. */
  lemma UpscaledPixelsFlat(src: seq<Pixel>, w: nat, h: nat, scale: nat, p: Pixel, j: nat)
    requires w > 0 && h > 0 && scale > 0 && |src| >= w * h
    requires forall k :: 0 <= k < |src| ==> src[k] == p
    requires j < |UpscaledPixels(src, w, h, scale)|
    ensures UpscaledPixels(src, w, h, scale)[j] == p
  {
    var nw := w * scale;
    MulMonotone(1, w, scale);
    RowBound(j, nw, h * scale);
    UpscalePixelFlat(src, w, h, scale, j % nw, j / nw, p);
  }

  /** An image of one colour upscales to that colour everywhere. */
  lemma UpscaleFlat(data: seq<byte>, w: nat, h: nat, scale: nat, p: Pixel, j: nat)
    requires UpscaleDefined(|data|, w, h, scale) && scale > 1 && w > 0 && h > 0
    requires forall k :: 0 <= k < |data| / 4 ==> Pixels(data)[k] == p
    requires j < (w * scale) * (h * scale)
    ensures var out := Pixels(Upscale(data, w, h, scale));
            0 <= j < |out| && out[j] == p
  {
    PixelsOfUpscale(data, w, h, scale);
    UpscaledPixelsFlat(Pixels(data), w, h, scale, p, j);
  }

  // ---------------------------------------------------------------------
  // The pipeline
  // ---------------------------------------------------------------------

  /** The preprocessing options of an OCR region. */
  datatype Settings = Settings(
    enabled: bool,
    grayscale: bool,
    invert: bool,
    contrast: real,
    sharpen: real,
    scale: nat)

  /** `PreprocessResult`: the filtered buffer and its dimensions. */
  datatype Processed = Processed(data: seq<byte>, width: nat, height: nat)

  function Abs(r: real): real
  {
    if r < 0.0 then -r else r
  }

  /** Contrast runs only when the factor is more than 0.01 away from 1. */
  predicate ContrastOn(st: Settings)
  {
    Abs(st.contrast - 1.0) > 0.01
  }

  /** Sharpening runs only for a strength above 0.01. */
  predicate SharpenOn(st: Settings)
  {
    st.sharpen > 0.01
  }

  /** The buffer and dimensions that the filters after the upscale see. */
  function Scaled(data: seq<byte>, w: nat, h: nat, scale: nat): (r: Processed)
    requires UpscaleDefined(|data|, w, h, scale)
    ensures scale <= 1 ==> r == Processed(data, w, h)
    ensures scale > 1 ==> (r.width == w * scale && r.height == h * scale
                           && |r.data| == 4 * (r.width * r.height))
  {
    if scale > 1 then Processed(Upscale(data, w, h, scale), w * scale, h * scale)
    else Processed(data, w, h)
  }

  /** What `apply_preprocessing_with_scale` demands of its caller: the
      upscale's and, on the upscaled image, the sharpen filter's demands. */
  predicate PreprocessDefined(len: nat, w: nat, h: nat, st: Settings)
  {
    st.enabled ==>
      && UpscaleDefined(len, w, h, st.scale)
      && (SharpenOn(st) ==>
            if st.scale > 1 then SharpenDefined(4 * ((w * st.scale) * (h * st.scale)), w * st.scale, h * st.scale)
            else SharpenDefined(len, w, h))
  }

  /** A buffer holding exactly the pixels of its image can always be
      preprocessed, provided the upscaled sizes fit in `u32` and an image to
      be sharpened is not empty. */
  lemma PreprocessDefinedOfFull(w: nat, h: nat, st: Settings)
    requires st.enabled ==> UpscaleFits(w, h, st.scale) && (SharpenOn(st) ==> w > 0 && h > 0)
    ensures PreprocessDefined(4 * (w * h), w, h, st)
  {
    if st.enabled && SharpenOn(st) && st.scale > 1 {
      MulMonotone(1, w, st.scale);
      MulMonotone(1, h, st.scale);
      assert (h * st.scale) * (w * st.scale) == (w * st.scale) * (h * st.scale);
    }
  }

  /** `apply_preprocessing_with_scale`: nothing when disabled; otherwise
      upscale, contrast, sharpen, grayscale and invert, in that order, each
      only when its setting asks for it. */
  function Preprocess(data: seq<byte>, w: nat, h: nat, st: Settings): (r: Processed)
    requires PreprocessDefined(|data|, w, h, st)
    ensures !st.enabled ==> r == Processed(data, w, h)
    ensures st.enabled && st.scale > 1 ==>
              r.width == w * st.scale && r.height == h * st.scale && |r.data| == 4 * (r.width * r.height)
    ensures st.enabled && st.scale <= 1 ==> r.width == w && r.height == h && |r.data| == |data|
  {
    if !st.enabled then Processed(data, w, h)
    else
      var up := Scaled(data, w, h, st.scale);
      var d1 := if ContrastOn(st) then Contrast(up.data, st.contrast) else up.data;
      var d2 := if SharpenOn(st) then Sharpen(d1, up.width, up.height, st.sharpen) else d1;
      var d3 := if st.grayscale then Grayscale(d2) else d2;
      var d4 := if st.invert then Invert(d3) else d3;
      Processed(d4, up.width, up.height)
  }

  /** `apply_preprocessing`: the buffer alone. */
  function PreprocessData(data: seq<byte>, w: nat, h: nat, st: Settings): (out: seq<byte>)
    requires PreprocessDefined(|data|, w, h, st)
    ensures !st.enabled ==> out == data
    ensures out == Preprocess(data, w, h, st).data
  {
    Preprocess(data, w, h, st).data
  }

  /** Enabled settings that ask for nothing leave the image as it is. */
  lemma PreprocessNeutral(data: seq<byte>, w: nat, h: nat, st: Settings)
    requires st.scale <= 1 && !ContrastOn(st) && !SharpenOn(st) && !st.grayscale && !st.invert
    ensures PreprocessDefined(|data|, w, h, st)
    ensures Preprocess(data, w, h, st) == Processed(data, w, h)
  {
  }

  /** Inversion is the last step: inverting the result undoes it, giving
      the result of the same settings without inversion. */
  lemma PreprocessInvertLast(data: seq<byte>, w: nat, h: nat, st: Settings)
    requires PreprocessDefined(|data|, w, h, st) && st.enabled && st.invert
    ensures PreprocessDefined(|data|, w, h, st.(invert := false))
    ensures Invert(Preprocess(data, w, h, st).data) == Preprocess(data, w, h, st.(invert := false)).data
  {
    InvertTwice(Preprocess(data, w, h, st.(invert := false)).data);
  }

  /** Grayscale runs after contrast and sharpening, and inversion keeps
      gray pixels gray, so with grayscale on every complete pixel of the
      result is gray. */
  lemma PreprocessGray(data: seq<byte>, w: nat, h: nat, st: Settings, k: nat)
    requires PreprocessDefined(|data|, w, h, st) && st.enabled && st.grayscale
    requires k < |Preprocess(data, w, h, st).data| / 4
    ensures var p := Pixels(Preprocess(data, w, h, st).data)[k];
            p.rgb.r == p.rgb.g == p.rgb.b
  {
  }
}
