/**
 * The image transform shared by every variant: compute the target size,
 * resample, frame with a one-pixel black border, encode as JPEG. Decoding,
 * Lanczos resampling and JPEG encoding are foreign library calls and appear
 * as the fields of a `Codec`, each of which may fail with a message.
 */
module Transform {
  import opened Wrappers
  import opened Pictures

  type Bytes = seq<byte>

  const TargetWidth: nat := 1200
  const BorderWidth: nat := 1
  const JpegQuality: nat := 95
  /** The message of the ZeroDivisionError raised by `new_width / original_width` when the width is 0. */
  const ZeroDivisionMessage: string := "division by zero"

  datatype Codec = Codec(
    /** `Image.open` on an encoded stream */
    open: Bytes -> Result<Picture<Rgb>, string>,
    /** `image.resize((w, h), Image.Resampling.LANCZOS)` */
    resize: (Picture<Rgb>, nat, nat) -> Result<Picture<Rgb>, string>,
    /** `image.save(out, 'JPEG', quality=q)` */
    save: (Picture<Rgb>, nat) -> Result<Bytes, string>)

  /** PIL's `resize` returns an image of exactly the requested size whenever it succeeds. */
  ghost predicate ResizeKeepsSize(codec: Codec) {
    forall p: Picture<Rgb>, w: nat, h: nat ::
      codec.resize(p, w, h).Success? ==>
        codec.resize(p, w, h).value.width == w && codec.resize(p, w, h).value.height == h
  }

  /**
   * The new height, `int((1200 / W) * H)`, as an integer: the largest height
   * whose aspect ratio does not exceed the original's.
   */
  function NewHeight(originalWidth: nat, originalHeight: nat): (h: nat)
    requires originalWidth > 0
    ensures h * originalWidth <= TargetWidth * originalHeight < (h + 1) * originalWidth
  {
    TargetWidth * originalHeight / originalWidth
  }

  /** A 2400 x 1600 image is resized to 1200 x 800. */
  lemma NewHeightExample()
    ensures NewHeight(2400, 1600) == 800
  {
  }

  /** In the integer idealisation a square image comes out square. */
  lemma NewHeightSquare(w: nat)
    requires w > 0
    ensures NewHeight(w, w) == TargetWidth
  {
    var h := NewHeight(w, w);
    if h < TargetWidth {
      MulMonotone(h + 1, TargetWidth, w);
    } else if h > TargetWidth {
      MulMonotone(TargetWidth + 1, h, w);
    }
  }

  lemma MulMonotone(a: nat, b: nat, w: nat)
    requires a <= b
    ensures a * w <= b * w
  {
  }

  /** The resize step common to all variants: 1200 wide, the height from `NewHeight`. */
  function Resized(image: Picture<Rgb>, codec: Codec): (r: Result<Picture<Rgb>, string>)
    ensures image.width == 0 ==> r == Failure(ZeroDivisionMessage)
    ensures r.Success? ==> image.width > 0
    ensures ResizeKeepsSize(codec) && r.Success? ==>
              r.value.width == TargetWidth && r.value.height == NewHeight(image.width, image.height)
  {
    if image.width == 0 then Failure(ZeroDivisionMessage)
    else codec.resize(image, TargetWidth, NewHeight(image.width, image.height))
  }

  /** `resize_and_process_image` of the CLI and of app.py: resize, then `add_border`. */
  function ResizeAndProcess(image: Picture<Rgb>, codec: Codec): (r: Result<Picture<Rgb>, string>)
    ensures image.width == 0 ==> r == Failure(ZeroDivisionMessage)
    ensures r.Success? ==> image.width > 0
    ensures ResizeKeepsSize(codec) && r.Success? ==>
              r.value.width == TargetWidth + 2 && r.value.height == NewHeight(image.width, image.height) + 2
  {
    var resized :- Resized(image, codec);
    Success(Framed(resized, BorderWidth, Black))
  }

  /** `process_image` of final_app.py and simple_app.py: resize, then compose the border inline. */
  function ProcessImageInline(image: Picture<Rgb>, codec: Codec): (r: Result<Picture<Rgb>, string>)
    ensures image.width == 0 ==> r == Failure(ZeroDivisionMessage)
    ensures r.Success? ==> image.width > 0
    ensures r.Success? ==> r.value.width == TargetWidth + 2 && r.value.height == NewHeight(image.width, image.height) + 2
  {
    var resized :- Resized(image, codec);
    var newHeight := NewHeight(image.width, image.height);
    Success(Pasted(Filled(TargetWidth + 2, newHeight + 2, Black), resized, 1, 1))
  }

  /** `Image.open` followed by the variant's processing: `inline` selects the final_app.py/simple_app.py form. */
  function Processed(stream: Bytes, codec: Codec, inline: bool): (r: Result<Picture<Rgb>, string>)
    ensures codec.open(stream).Failure? ==> r == Failure(codec.open(stream).error)
    ensures codec.open(stream).Success? && codec.open(stream).value.width == 0 ==> r == Failure(ZeroDivisionMessage)
    ensures r.Success? ==> codec.open(stream).Success? && codec.open(stream).value.width > 0
    ensures r.Success? && (inline || ResizeKeepsSize(codec)) ==>
              r.value.width == TargetWidth + 2 &&
              r.value.height == NewHeight(codec.open(stream).value.width, codec.open(stream).value.height) + 2
  {
    var image :- codec.open(stream);
    if inline then ProcessImageInline(image, codec) else ResizeAndProcess(image, codec)
  }

  /** The body of each upload handler's `try` block: open, process, save as JPEG at quality 95. */
  function Encoded(stream: Bytes, codec: Codec, inline: bool): (r: Result<Bytes, string>)
    ensures codec.open(stream).Failure? ==> r == Failure(codec.open(stream).error)
    ensures codec.open(stream).Success? && codec.open(stream).value.width == 0 ==> r == Failure(ZeroDivisionMessage)
    ensures r.Success? ==> codec.open(stream).Success? && codec.open(stream).value.width > 0
    ensures r.Success? ==> Processed(stream, codec, inline).Success? &&
                           r == codec.save(Processed(stream, codec, inline).value, JpegQuality)
  {
    var processed :- Processed(stream, codec, inline);
    codec.save(processed, JpegQuality)
  }

  /** The picture a 1202 x (`newHeight` + 2) result must be: black ring, `resized` at (1, 1). */
  ghost predicate BorderedLayout(c: Picture<Rgb>, resized: Picture<Rgb>, newHeight: nat) {
    c.width == TargetWidth + 2 && c.height == newHeight + 2 &&
    (forall x, y :: InRing(c.width, c.height, 1, x, y) ==> At(c, x, y) == Black) &&
    resized.width == TargetWidth && resized.height == newHeight &&
    (forall x, y :: 0 <= x < TargetWidth && 0 <= y < newHeight ==> At(c, x + 1, y + 1) == At(resized, x, y))
  }

  /**
   * With a size-preserving resampler, a processed image is 1202 pixels wide and
   * `NewHeight + 2` tall, with a black one-pixel ring around the resampled image.
   */
  lemma ResizeAndProcessLayout(image: Picture<Rgb>, codec: Codec)
    requires ResizeKeepsSize(codec)
    requires ResizeAndProcess(image, codec).Success?
    ensures image.width > 0
    ensures BorderedLayout(ResizeAndProcess(image, codec).value,
                           codec.resize(image, TargetWidth, NewHeight(image.width, image.height)).value,
                           NewHeight(image.width, image.height))
  {
    var resized := codec.resize(image, TargetWidth, NewHeight(image.width, image.height)).value;
    FramedLayout(resized, BorderWidth, Black);
  }

  /**
   * The inline composition is 1202 x (`NewHeight + 2`) whatever the resampler
   * returns, and has the bordered layout when the resampler keeps the size.
   */
  lemma ProcessImageInlineLayout(image: Picture<Rgb>, codec: Codec)
    requires ProcessImageInline(image, codec).Success?
    ensures image.width > 0
    ensures ProcessImageInline(image, codec).value.width == TargetWidth + 2
    ensures ProcessImageInline(image, codec).value.height == NewHeight(image.width, image.height) + 2
    ensures ResizeKeepsSize(codec) ==>
              BorderedLayout(ProcessImageInline(image, codec).value,
                             codec.resize(image, TargetWidth, NewHeight(image.width, image.height)).value,
                             NewHeight(image.width, image.height))
  {
    if ResizeKeepsSize(codec) {
      var resized := codec.resize(image, TargetWidth, NewHeight(image.width, image.height)).value;
      FramedLayout(resized, BorderWidth, Black);
      assert ProcessImageInline(image, codec).value == Framed(resized, BorderWidth, Black);
    }
  }

  /** With a size-preserving resampler the two ways of drawing the border give the same image. */
  lemma InlineAgreesWithAddBorder(image: Picture<Rgb>, codec: Codec)
    requires ResizeKeepsSize(codec)
    ensures ProcessImageInline(image, codec) == ResizeAndProcess(image, codec)
  {
  }

}
