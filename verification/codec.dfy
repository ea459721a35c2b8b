/**
 * The image codec the record drives (the `sharp` library) and the size
 * reader it measures with (`image-size`), seen from outside: a staged
 * pipeline is a list of tagged calls, and the codec is a pair of functions
 * about which only the output width is assumed (`Sound`).
 */
module Codec {
  import opened Wrappers

  /** `ImageFormat` of src/image.ts. */
  datatype Format = Jpeg | Png | Webp | Avif

  /** The extension `replaceExtension` writes for a format: its name. */
  function FormatName(f: Format): string
  {
    match f
    case Jpeg => "jpeg"
    case Png => "png"
    case Webp => "webp"
    case Avif => "avif"
  }

  /** The options object handed to one of sharp's output methods. */
  datatype EncodeOptions = EncodeOptions(quality: Option<int>, lossless: bool, optimiseScans: bool)

  /** No options: what `toFormat(format)` passes on. */
  const Defaults: EncodeOptions := EncodeOptions(None, false, false)

  /** One staged call on the sharp instance: `resize({ width })` or an output method. */
  datatype Op = ResizeTo(width: int) | Encode(format: Format, options: EncodeOptions)

  /** A sharp instance: the bytes it was created from and the calls staged on it since. */
  datatype Pipeline = Pipeline(source: seq<int>, ops: seq<Op>)

  function Then(p: Pipeline, op: Op): Pipeline
  {
    p.(ops := p.ops + [op])
  }

  /** Pixel dimensions as image-size reports them. */
  datatype Dims = Dims(width: nat, height: nat)

  /**
   * `measure` stands for image-size on a file's bytes (None when they are
   * not an image it can read); `encode` for sharp's `toBuffer()` on a
   * pipeline (None when sharp rejects).
   */
  datatype Codec = Codec(
    measure: seq<int> -> Option<Dims>,
    encode: (seq<int>, seq<Op>) -> Option<seq<int>>)

  /** The width of the last staged resize, if any: sharp applies only the last one. */
  function LastResize(ops: seq<Op>): Option<int>
  {
    if ops == [] then None
    else if ops[|ops| - 1].ResizeTo? then Some(ops[|ops| - 1].width)
    else LastResize(ops[..|ops| - 1])
  }

  /** The output format the staged calls chose last, if any chose one. */
  function LastFormat(ops: seq<Op>): Option<Format>
  {
    if ops == [] then None
    else if ops[|ops| - 1].Encode? then Some(ops[|ops| - 1].format)
    else LastFormat(ops[..|ops| - 1])
  }

  /** Staging one more call: a resize sets the width, an output method the format. */
  lemma StageOne(ops: seq<Op>, op: Op)
    ensures LastResize(ops + [op]) == if op.ResizeTo? then Some(op.width) else LastResize(ops)
    ensures LastFormat(ops + [op]) == if op.Encode? then Some(op.format) else LastFormat(ops)
  {
    assert (ops + [op])[..|ops|] == ops;
  }

  /**
   * What the model assumes of the codec: whatever sharp encodes can be
   * measured again, and its width is that of the last staged resize, or
   * the source's width when nothing resized it.
   */
  ghost predicate Sound(c: Codec)
  {
    forall src, ops | c.encode(src, ops).Some? ::
      && c.measure(c.encode(src, ops).value).Some?
      && (LastResize(ops).Some? ==>
            c.measure(c.encode(src, ops).value).value.width == LastResize(ops).value)
      && (LastResize(ops).None? && c.measure(src).Some? ==>
            c.measure(c.encode(src, ops).value).value.width == c.measure(src).value.width)
  }

  /**
   * A codec that keeps those promises: it reads a one-byte image as that
   * many pixels wide, and encodes to the width of the last resize, or
   * passes a readable source through unchanged.
   */
  function WidthCodec(): Codec
  {
    Codec(
      (b: seq<int>) => if |b| == 1 && b[0] >= 0 then Some(Dims(b[0], 1)) else None,
      (src: seq<int>, ops: seq<Op>) =>
        match LastResize(ops)
        case Some(w) => if w >= 0 then Some([w]) else None
        case None => if |src| == 1 && src[0] >= 0 then Some(src) else None)
  }

  /** `Sound` is no contradiction: some codec meets it, and that codec really resizes. */
  lemma SoundIsSatisfiable()
    ensures Sound(WidthCodec())
    ensures WidthCodec().encode([2400], [ResizeTo(1200)]) == Some([1200])
    ensures WidthCodec().measure([1200]) == Some(Dims(1200, 1))
  {
    assert LastResize([ResizeTo(1200)]) == Some(1200);
  }
}
