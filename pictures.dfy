/**
 * Raster images as values. A picture is a `width` x `height` grid of pixels
 * addressed as PIL does, by column `x` and row `y`; `cols[x][y]` is the pixel
 * at `(x, y)`. The pixel type is a parameter: the border operations do not
 * look inside a pixel.
 */
module Pictures {

  newtype byte = x: int | 0 <= x < 256

  /** A pixel of an 'RGB' mode image. */
  datatype Rgb = Rgb(r: byte, g: byte, b: byte)

  /** The border colour `(0, 0, 0)` used throughout. */
  const Black: Rgb := Rgb(0, 0, 0)

  datatype Grid<P> = Grid(width: nat, height: nat, cols: seq<seq<P>>) {
    predicate WellFormed() {
      |cols| == width && forall x :: 0 <= x < |cols| ==> |cols[x]| == height
    }
  }

  /** A grid whose columns all have the stated height. */
  type Picture<P> = g: Grid<P> | g.WellFormed() witness Grid(0, 0, [])

  /** The pixel at `(x, y)`. */
  function At<P>(p: Picture<P>, x: int, y: int): P
    requires 0 <= x < p.width && 0 <= y < p.height
  {
    p.cols[x][y]
  }

  /** Does the `w` x `h` rectangle with top-left corner `(ox, oy)` contain `(x, y)`? */
  predicate Covers(w: nat, h: nat, ox: int, oy: int, x: int, y: int) {
    ox <= x < ox + w && oy <= y < oy + h
  }

  /** `Image.new(mode, (w, h), c)`: a new picture every pixel of which is `c`. */
  function Filled<P>(w: nat, h: nat, c: P): (r: Picture<P>)
    ensures r.width == w && r.height == h
    ensures forall x, y :: 0 <= x < w && 0 <= y < h ==> At(r, x, y) == c
  {
    Grid(w, h, seq(w, _ => seq(h, _ => c)))
  }

  /**
   * `canvas.paste(src, (ox, oy))` as a value: the canvas keeps its size; where
   * the source, placed at `(ox, oy)`, lies over the canvas it replaces the
   * canvas pixel, and the parts of the source that fall outside are clipped.
   */
  function Pasted<P>(canvas: Picture<P>, src: Picture<P>, ox: int, oy: int): (r: Picture<P>)
    ensures r.width == canvas.width && r.height == canvas.height
    ensures forall x, y :: 0 <= x < r.width && 0 <= y < r.height && Covers(src.width, src.height, ox, oy, x, y) ==>
              At(r, x, y) == At(src, x - ox, y - oy)
    ensures forall x, y :: 0 <= x < r.width && 0 <= y < r.height && !Covers(src.width, src.height, ox, oy, x, y) ==>
              At(r, x, y) == At(canvas, x, y)
  {
    Grid(canvas.width, canvas.height,
      seq(canvas.width, x requires 0 <= x < canvas.width =>
        seq(canvas.height, y requires 0 <= y < canvas.height =>
          if Covers(src.width, src.height, ox, oy, x, y) then src.cols[x - ox][y - oy]
          else canvas.cols[x][y])))
  }

  /**
   * `add_border(image, border_width, border_color)`: a canvas `2 * b` larger
   * in each direction, filled with the colour, with the image pasted at `(b, b)`.
   */
  function Framed<P>(image: Picture<P>, b: nat, color: P): (r: Picture<P>)
    ensures r.width == image.width + 2 * b && r.height == image.height + 2 * b
  {
    Pasted(Filled(image.width + 2 * b, image.height + 2 * b, color), image, b, b)
  }

  /** Does `(x, y)` lie in the outer ring of width `b` of a `w` x `h` picture? */
  predicate InRing(w: nat, h: nat, b: nat, x: int, y: int) {
    0 <= x < w && 0 <= y < h && (x < b || w - b <= x || y < b || h - b <= y)
  }

  /**
   * When the source fits inside the canvas at the offset nothing is clipped:
   * every source pixel appears in the result, shifted by the offset.
   */
  lemma PastedKeepsSource<P>(canvas: Picture<P>, src: Picture<P>, ox: nat, oy: nat)
    requires ox + src.width <= canvas.width && oy + src.height <= canvas.height
    ensures forall x, y :: 0 <= x < src.width && 0 <= y < src.height ==>
              At(Pasted(canvas, src, ox, oy), x + ox, y + oy) == At(src, x, y)
  {
  }

  /**
   * The three facts about `add_border`: the result is `2 * b` wider and taller,
   * every pixel of the outer ring of width `b` is the border colour, and the
   * interior at `(x + b, y + b)` is the image pixel `(x, y)`.
   */
  lemma FramedLayout<P>(image: Picture<P>, b: nat, color: P)
    ensures Framed(image, b, color).width == image.width + 2 * b
    ensures Framed(image, b, color).height == image.height + 2 * b
    ensures forall x, y :: InRing(image.width + 2 * b, image.height + 2 * b, b, x, y) ==>
              At(Framed(image, b, color), x, y) == color
    ensures forall x, y :: 0 <= x < image.width && 0 <= y < image.height ==>
              At(Framed(image, b, color), x + b, y + b) == At(image, x, y)
  {
  }
}
