/** The byte-level part of the Windows OCR backend in
    src/vision/windows_ocr.rs: the RGBA to BGRA conversion it applies before
    handing a bitmap to the system recogniser, and the guard that answers an
    empty image without calling it. The recogniser itself is a parameter. */
module WindowsOcr {
  import opened Wrappers
  import opened Numeric
  import opened OcrPreprocess

  /** `WindowsOcrResult`: one recognised word. */
  datatype WordResult = WordResult(text: string, bounds: (nat, nat, nat, nat), confidence: real)

  /** A recogniser run on a BGRA bitmap of the given size. */
  type Recogniser = (seq<byte>, nat, nat) -> Result<seq<WordResult>>

  function SwapRedBlue(p: Rgb): Rgb
  {
    Rgb(p.b, p.g, p.r)
  }

  /** `rgba_to_bgra`: in every complete four-byte group the first and third
      bytes trade places; the second and fourth and any trailing bytes stay. */
  function RgbaToBgra(rgba: seq<byte>): (bgra: seq<byte>)
    ensures |bgra| == |rgba| && Rest(bgra) == Rest(rgba)
    ensures forall k :: 0 <= k < |rgba| / 4 ==>
              var p := Pixels(rgba)[k];
              Pixels(bgra)[k] == Pixel(Rgb(p.rgb.b, p.rgb.g, p.rgb.r), p.a)
  {
    MapPixels(rgba, SwapRedBlue)
  }

  /** The same swap, read byte by byte. */
  lemma RgbaToBgraBytes(rgba: seq<byte>, k: nat)
    requires 4 * k + 3 < |rgba|
    ensures var bgra := RgbaToBgra(rgba);
            && bgra[4 * k] == rgba[4 * k + 2] && bgra[4 * k + 2] == rgba[4 * k]
            && bgra[4 * k + 1] == rgba[4 * k + 1] && bgra[4 * k + 3] == rgba[4 * k + 3]
  {
    var bgra := RgbaToBgra(rgba);
    PixelAt(rgba, k);
    PixelAt(bgra, k);
  }

  /** Swapping twice gives the buffer back. */
  lemma RgbaToBgraInvolution(rgba: seq<byte>)
    ensures RgbaToBgra(RgbaToBgra(rgba)) == rgba
  {
    var id := (p: Rgb) => p;
    MapPixelsCompose(rgba, SwapRedBlue, SwapRedBlue, id);
    MapPixelsIdentity(rgba, id);
  }

  /** An image with no bytes or a zero side. */
  predicate EmptyImage(data: seq<byte>, w: nat, h: nat)
  {
    |data| == 0 || w == 0 || h == 0
  }

  /** `WindowsOcr::recognize`: an empty image gives no words; any other is
      converted to BGRA and handed to the recogniser. */
  function Recognize(data: seq<byte>, w: nat, h: nat, engine: Recogniser): (r: Result<seq<WordResult>>)
    ensures EmptyImage(data, w, h) ==> r == Ok([])
    ensures !EmptyImage(data, w, h) ==> r == engine(RgbaToBgra(data), w, h)
  {
    if EmptyImage(data, w, h) then Ok([])
    else engine(RgbaToBgra(data), w, h)
  }

  /** `WindowsOcr::recognize_text`: an empty image gives the empty text; any
      other is converted to BGRA and read by the recogniser. */
  function RecognizeText(data: seq<byte>, w: nat, h: nat, reader: (seq<byte>, nat, nat) -> Result<string>): (r: Result<string>)
    ensures EmptyImage(data, w, h) ==> r == Ok("")
    ensures !EmptyImage(data, w, h) ==> r == reader(RgbaToBgra(data), w, h)
  {
    if EmptyImage(data, w, h) then Ok("")
    else reader(RgbaToBgra(data), w, h)
  }

  /** The guard answers an empty image without consulting the recogniser:
      any two recognisers give the same answer. */
  lemma EmptyImageIgnoresEngine(data: seq<byte>, w: nat, h: nat, e1: Recogniser, e2: Recogniser,
                                t1: (seq<byte>, nat, nat) -> Result<string>, t2: (seq<byte>, nat, nat) -> Result<string>)
    requires EmptyImage(data, w, h)
    ensures Recognize(data, w, h, e1) == Recognize(data, w, h, e2)
    ensures RecognizeText(data, w, h, t1) == RecognizeText(data, w, h, t2)
  {
  }
}
