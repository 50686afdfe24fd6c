/**
 * The in-memory image type the renderer draws into and samples from: an
 * RGBA raster whose origin is (0, 0). Colours are kept as a small enumeration
 * instead of four bytes; the byte layout of the raster is described by
 * `PixOffset` in module Mode7.
 */
module Raster {

  /** The colours the renderer ever stores or returns. `Transparent` is the
      all-zero value every texel and pixel of a fresh image holds. */
  datatype Color = Transparent | Magenta | Blue | Black

  /** A width x height raster, indexed `pix[x, y]` (column, row). */
  class Image {
    const width: nat
    const height: nat
    const pix: array2<Color>

    ghost predicate Valid() {
      pix.Length0 == width && pix.Length1 == height
    }

    /** Whether (x, y) lies inside the image's rectangle. */
    predicate InBounds(x: int, y: int) {
      0 <= x < width && 0 <= y < height
    }

    /** A new image of the given size, every pixel the zero colour. */
    constructor (w: nat, h: nat)
      ensures Valid() && width == w && height == h && fresh(pix)
      ensures forall x, y :: 0 <= x < w && 0 <= y < h ==> pix[x, y] == Transparent
    {
      width, height := w, h;
      pix := new Color[w, h]((_, _) => Transparent);
    }

    /** Reads one pixel; a point outside the rectangle reads as the zero colour. */
    function At(x: int, y: int): (c: Color)
      requires Valid()
      reads pix
      ensures InBounds(x, y) ==> c == pix[x, y]
      ensures !InBounds(x, y) ==> c == Transparent
    {
      if InBounds(x, y) then pix[x, y] else Transparent
    }

    /** Writes one pixel; a point outside the rectangle is silently ignored,
        so such a call changes nothing at all. Stated through `At`: a read
        of the written point returns `c` when it is in range, and every other
        read, anywhere, returns what it returned before. */
    method Set(x: int, y: int, c: Color)
      requires Valid()
      modifies pix
      ensures forall i, j :: 0 <= i < width && 0 <= j < height ==>
                pix[i, j] == if i == x && j == y then c else old(pix[i, j])
      ensures forall i, j :: At(i, j) == if i == x && j == y && InBounds(x, y) then c else old(At(i, j))
    {
      if InBounds(x, y) {
        pix[x, y] := c;
      }
    }
  }
}
