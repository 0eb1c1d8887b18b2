/** Settings types that several components share. The crate's
    `config` module defines `OcrPreprocessing`; its definition and its
    `Default` are not part of this model, so the field list below is the one
    the preprocessing code reads, and default values are passed in by
    callers that need them. */
module Config {

  /** Per-zone OCR image preprocessing options. */
  datatype OcrPreprocessing = OcrPreprocessing(
    enabled: bool,
    grayscale: bool,
    invert: bool,
    contrast: real,   // f32 factor, 1.0 = unchanged
    sharpen: real,    // f32 strength, 0.0 = none
    scale: nat        // u32 upscale factor, <= 1 = none
  )
}
