/**
 * The border composition as PIL performs it: `Image.new` allocates a pixel
 * buffer filled with one colour and `paste` overwrites a rectangle of it in
 * place. A buffer is an `array2` indexed `[x, y]`, `Length0` being the width.
 */
module Canvas {
  import opened Pictures

  /** The picture a buffer currently holds. */
  ghost function PictureOf<P>(a: array2<P>): (p: Picture<P>)
    reads a
    ensures p.width == a.Length0 && p.height == a.Length1
    ensures forall x, y :: 0 <= x < a.Length0 && 0 <= y < a.Length1 ==> At(p, x, y) == a[x, y]
  {
    Grid(a.Length0, a.Length1,
      seq(a.Length0, x requires 0 <= x < a.Length0 reads a =>
        seq(a.Length1, y requires 0 <= y < a.Length1 reads a => a[x, y])))
  }

  /** Buffer `a` holds exactly picture `p`. */
  ghost predicate Shows<P>(a: array2<P>, p: Picture<P>)
    reads a
  {
    a.Length0 == p.width && a.Length1 == p.height &&
    forall x, y :: 0 <= x < p.width && 0 <= y < p.height ==> a[x, y] == At(p, x, y)
  }

  /** `Image.new('RGB', (w, h), color)` */
  method NewImage<P>(w: nat, h: nat, color: P) returns (img: array2<P>)
    ensures fresh(img)
    ensures Shows(img, Filled(w, h, color))
  {
    img := new P[w, h]((x, y) => color);
  }

  /**
   * `canvas.paste(src, (ox, oy))`: copies `src` into `canvas` in place, pixel by
   * pixel, skipping the pixels that would land outside the canvas.
   */
  method Paste<P>(canvas: array2<P>, src: array2<P>, ox: int, oy: int)
    requires canvas != src
    modifies canvas
    ensures Shows(canvas, Pasted(old(PictureOf(canvas)), PictureOf(src), ox, oy))
  {
    ghost var before := PictureOf(canvas);
    var i := 0;
    while i < src.Length0
      invariant 0 <= i <= src.Length0
      invariant forall x, y :: 0 <= x < canvas.Length0 && 0 <= y < canvas.Length1 ==>
        canvas[x, y] == if Covers(i, src.Length1, ox, oy, x, y) then src[x - ox, y - oy] else At(before, x, y)
    {
      var j := 0;
      while j < src.Length1
        invariant 0 <= j <= src.Length1
        invariant forall x, y :: 0 <= x < canvas.Length0 && 0 <= y < canvas.Length1 ==>
          canvas[x, y] ==
            if Covers(i, src.Length1, ox, oy, x, y) || (x == ox + i && oy <= y < oy + j) then src[x - ox, y - oy]
            else At(before, x, y)
      {
        if 0 <= ox + i < canvas.Length0 && 0 <= oy + j < canvas.Length1 {
          canvas[ox + i, oy + j] := src[i, j];
        }
        j := j + 1;
      }
      i := i + 1;
    }
  }

  /**
   * `add_border(image, border_width, border_color)`: a new buffer of
   * `(w + 2b) x (h + 2b)` pixels holding the framed image.
   */
  method AddBorder<P>(image: array2<P>, borderWidth: nat, borderColor: P) returns (bordered: array2<P>)
    ensures fresh(bordered)
    ensures bordered.Length0 == image.Length0 + 2 * borderWidth
    ensures bordered.Length1 == image.Length1 + 2 * borderWidth
    ensures Shows(bordered, Framed(PictureOf(image), borderWidth, borderColor))
    ensures forall x, y :: InRing(bordered.Length0, bordered.Length1, borderWidth, x, y) ==>
              bordered[x, y] == borderColor
    ensures forall x, y :: 0 <= x < image.Length0 && 0 <= y < image.Length1 ==>
              bordered[x + borderWidth, y + borderWidth] == image[x, y]
  {
    bordered := NewImage(image.Length0 + 2 * borderWidth, image.Length1 + 2 * borderWidth, borderColor);
    Paste(bordered, image, borderWidth, borderWidth);
    FramedLayout(PictureOf(image), borderWidth, borderColor);
  }

  /**
   * The inline composition of the two web variants: a black
   * `(newWidth + 2) x (newHeight + 2)` canvas with the resized image pasted at `(1, 1)`.
   */
  method InlineBorder(resized: array2<Rgb>, newWidth: nat, newHeight: nat) returns (bordered: array2<Rgb>)
    ensures fresh(bordered)
    ensures Shows(bordered, Pasted(Filled(newWidth + 2, newHeight + 2, Black), PictureOf(resized), 1, 1))
    ensures bordered.Length0 == newWidth + 2 && bordered.Length1 == newHeight + 2
  {
    bordered := NewImage(newWidth + 2, newHeight + 2, Black);
    Paste(bordered, resized, 1, 1);
  }
}
