/** Grayscale images as the recognizer sees them (`image::GrayImage`), and
    `extract_gray_region` from src/vision/screen_recognition.rs. */
module GrayImages {
  import opened Numeric

  /** A `width` x `height` image stored row by row, one byte per pixel. */
  datatype GrayImage = GrayImage(width: nat, height: nat, rows: seq<seq<byte>>)

  /** The shape `image::GrayImage` maintains. */
  predicate Valid(img: GrayImage)
  {
    |img.rows| == img.height && forall r :: 0 <= r < |img.rows| ==> |img.rows[r]| == img.width
  }

  /** `GrayImage::new(w, h)`: all pixels black. */
  function Blank(w: nat, h: nat): (img: GrayImage)
    ensures Valid(img) && img.width == w && img.height == h
    ensures forall r, c :: 0 <= r < h && 0 <= c < w ==> img.rows[r][c] == 0
  {
    GrayImage(w, h, seq(h, _ => seq(w, _ => 0)))
  }

  /** `extract_gray_region`: the offset is clamped into the image and the
      size to what remains to its right and below (the clamped offset is
      never past the edge, so the source's saturating subtraction is a plain
      one here); a region of zero width
      or height becomes a 1x1 black image. */
  function ExtractGrayRegion(img: GrayImage, x: nat, y: nat, w: nat, h: nat): (r: GrayImage)
    requires Valid(img)
    ensures Valid(r)
    ensures var x' := Min(x, img.width); var y' := Min(y, img.height);
            var w' := Min(w, img.width - x'); var h' := Min(h, img.height - y');
            if w' == 0 || h' == 0 then r == Blank(1, 1)
            else
              && r.width == w' && r.height == h'
              && x' + w' <= img.width && y' + h' <= img.height
              && forall ry, rx :: 0 <= ry < h' && 0 <= rx < w' ==> r.rows[ry][rx] == img.rows[y' + ry][x' + rx]
  {
    var x' := Min(x, img.width);
    var y' := Min(y, img.height);
    var w' := Min(w, img.width - x');
    var h' := Min(h, img.height - y');
    if w' == 0 || h' == 0 then Blank(1, 1)
    else GrayImage(w', h', seq(h', ry requires 0 <= ry < h' => img.rows[y' + ry][x'..x' + w']))
  }

  /** A request that lies inside the image is taken as is. */
  lemma RegionInsideUnclamped(img: GrayImage, x: nat, y: nat, w: nat, h: nat)
    requires Valid(img) && 0 < w && 0 < h && x + w <= img.width && y + h <= img.height
    ensures ExtractGrayRegion(img, x, y, w, h).width == w
    ensures ExtractGrayRegion(img, x, y, w, h).height == h
  {
  }

  /** A request that starts at or beyond the right or bottom edge yields the
      1x1 black image. */
  lemma RegionOutsideIsBlank(img: GrayImage, x: nat, y: nat, w: nat, h: nat)
    requires Valid(img) && (x >= img.width || y >= img.height)
    ensures ExtractGrayRegion(img, x, y, w, h) == Blank(1, 1)
  {
  }
}
