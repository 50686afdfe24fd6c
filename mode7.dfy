/**
 * The integer skeleton of the Mode7 renderer: the two process-wide images
 * (the framebuffer `pixels` and the procedural `texture`), texel lookup with
 * its bounds policy, and the scanline loop that fills the bottom half of the
 * framebuffer once per frame.
 *
 * The floating-point perspective projection (frustum corners, reciprocal
 * depth, horizontal interpolation and the truncation to texel indices) is
 * not modelled: it enters as `project`, an arbitrary map from a screen
 * position (x, y), y counted from the top of the bottom half, to the texel
 * indices (sx, sy) it samples.
 */
module Mode7 {
  import opened Raster
  import opened Grid

  const ScreenWidth: nat := 1024
  const ScreenHeight: nat := 768
  const HalfHeight: nat := ScreenHeight / 2
  /** Bytes per framebuffer row in the packed R, G, B, A layout. */
  const Stride: nat := 4 * ScreenWidth

  /** Go's `a / mapSize` on int: the quotient truncated toward zero. */
  function GoQuoMapSize(a: int): int {
    if a >= 0 then a / MapSize else -((-a) / MapSize)
  }

  /** Go's `a % mapSize` on int: division truncates toward zero, so a
      non-zero remainder takes the sign of the dividend. With the quotient it
      recomposes the dividend, which together with the bound and the sign
      fixes the remainder. */
  function GoRemMapSize(a: int): (r: int)
    ensures a == MapSize * GoQuoMapSize(a) + r
    ensures -(MapSize as int) < r < MapSize
    ensures a >= 0 ==> r >= 0
    ensures a <= 0 ==> r <= 0
    ensures 0 <= a < MapSize ==> r == a
  {
    if a >= 0 then a % MapSize else -((-a) % MapSize)
  }

  /** The renderer's global state: the framebuffer and the texture. */
  class Renderer {
    const pixels: Image
    const texture: Image

    /** Both images have their fixed sizes and are distinct, the texture
        holds the grid, and the top half of the framebuffer is never drawn. */
    ghost predicate Valid()
      reads pixels.pix, texture.pix
    {
      && pixels.Valid() && pixels.width == ScreenWidth && pixels.height == ScreenHeight
      && texture.Valid() && texture.width == MapSize && texture.height == MapSize
      && pixels.pix != texture.pix
      && (forall c, r :: 0 <= c < MapSize && 0 <= r < MapSize ==> texture.pix[c, r] == GridColor(c, r))
      && (forall x, y :: 0 <= x < ScreenWidth && 0 <= y < HalfHeight ==> pixels.pix[x, y] == Transparent)
    }

    /** Start-up: allocates both images and paints the grid into the texture. */
    constructor ()
      ensures Valid() && fresh(pixels.pix) && fresh(texture.pix)
      ensures forall x, y :: 0 <= x < ScreenWidth && 0 <= y < ScreenHeight ==> pixels.pix[x, y] == Transparent
    {
      pixels := new Image(ScreenWidth, ScreenHeight);
      texture := new Image(MapSize, MapSize);
      new;
      PaintGrid(texture);
    }

    /** The colour at texel indices (sx, sy): opaque black when either index
        is outside [0, MapSize), otherwise the texel itself (the modulo that
        the lookup applies leaves an in-range index unchanged). */
    function SampleColor(sx: int, sy: int): (col: Color)
      requires texture.Valid()
      reads texture.pix
      ensures !(0 <= sx < MapSize && 0 <= sy < MapSize) ==> col == Black
      ensures 0 <= sx < MapSize && 0 <= sy < MapSize ==> col == texture.At(sx, sy)
    {
      if sx < 0 || sx >= MapSize || sy < 0 || sy >= MapSize then Black
      else texture.At(GoRemMapSize(sx), GoRemMapSize(sy))
    }

    /** With the grid texture, a lookup yields black exactly on a miss; a hit
        yields the grid's texel, which is transparent, never black, on the
        background. */
    lemma SampleBlackIffMiss(sx: int, sy: int)
      requires Valid()
      ensures SampleColor(sx, sy) == Black <==> !(0 <= sx < MapSize && 0 <= sy < MapSize)
      ensures 0 <= sx < MapSize && 0 <= sy < MapSize ==> SampleColor(sx, sy) == GridColor(sx, sy)
    {
      if 0 <= sx < MapSize && 0 <= sy < MapSize {
        GridNeverBlack(sx, sy);
      }
    }

    /** One frame of drawing. When the host skips drawing, nothing is
        written. Otherwise, for each row y of the bottom half, far to near,
        and each column x, writes the sample for (x, y) to pixel
        (x, y + HalfHeight). `written` records the pixel of every write, in
        order. */
    method Update(drawingSkipped: bool, project: (int, int) -> (int, int)) returns (ghost written: seq<(int, int)>)
      requires Valid()
      modifies pixels.pix
      ensures Valid()
      ensures written == if drawingSkipped then [] else ScanOrder()
      ensures drawingSkipped ==> forall x, y :: 0 <= x < ScreenWidth && 0 <= y < ScreenHeight ==>
                pixels.pix[x, y] == old(pixels.pix[x, y])
      ensures !drawingSkipped ==> forall x, y :: 0 <= x < ScreenWidth && 0 <= y < HalfHeight ==>
                pixels.pix[x, y + HalfHeight] == SampleColor(project(x, y).0, project(x, y).1)
      ensures forall x, y :: 0 <= x < ScreenWidth && 0 <= y < HalfHeight ==>
                pixels.pix[x, y] == old(pixels.pix[x, y])
    {
      written := [];
      if drawingSkipped {
        return;
      }
      var y := 0;
      while y < HalfHeight
        invariant 0 <= y <= HalfHeight
        invariant |written| == y * ScreenWidth
        invariant forall i :: 0 <= i < |written| ==> written[i] == ScanPoint(i)
        invariant forall i, j :: 0 <= i < ScreenWidth && 0 <= j < y ==>
                    pixels.pix[i, j + HalfHeight] == SampleColor(project(i, j).0, project(i, j).1)
        invariant forall i, j :: 0 <= i < ScreenWidth && 0 <= j < ScreenHeight && !(HalfHeight <= j < HalfHeight + y) ==>
                    pixels.pix[i, j] == old(pixels.pix[i, j])
      {
        var x := 0;
        while x < ScreenWidth
          invariant 0 <= x <= ScreenWidth
          invariant |written| == y * ScreenWidth + x
          invariant forall i :: 0 <= i < |written| ==> written[i] == ScanPoint(i)
          invariant forall i, j :: 0 <= i < ScreenWidth && 0 <= j < y ==>
                      pixels.pix[i, j + HalfHeight] == SampleColor(project(i, j).0, project(i, j).1)
          invariant forall i :: 0 <= i < x ==>
                      pixels.pix[i, y + HalfHeight] == SampleColor(project(i, y).0, project(i, y).1)
          invariant forall i, j ::
                      (0 <= i < ScreenWidth && 0 <= j < ScreenHeight &&
                       !(HalfHeight <= j < HalfHeight + y) && !(j == y + HalfHeight && i < x)) ==>
                      pixels.pix[i, j] == old(pixels.pix[i, j])
        {
          var s := project(x, y);
          pixels.Set(x, y + HalfHeight, SampleColor(s.0, s.1));
          ScanPointAt(x, y);
          written := written + [(x, y + HalfHeight)];
          x := x + 1;
        }
        y := y + 1;
      }
      assert |written| == |ScanOrder()|;
    }
  }

  /** The pixel of the i-th write of a frame, counting in loop order. */
  function ScanPoint(i: int): (int, int) {
    (i % ScreenWidth, HalfHeight + i / ScreenWidth)
  }

  /** The column x of row y of the bottom half is written at position
      y * ScreenWidth + x of the frame's writes. */
  lemma ScanPointAt(x: int, y: int)
    requires 0 <= x < ScreenWidth && 0 <= y
    ensures ScanPoint(y * ScreenWidth + x) == (x, y + HalfHeight)
  {
  }

  /** The pixels one frame writes, in the order it writes them. */
  function ScanOrder(): seq<(int, int)> {
    seq(ScreenWidth * HalfHeight, ScanPoint)
  }

  /** Every write lands in the bottom half of the framebuffer, so none is
      out of bounds. */
  lemma ScanOrderInBottomHalf(i: int)
    requires 0 <= i < |ScanOrder()|
    ensures 0 <= ScanOrder()[i].0 < ScreenWidth
    ensures HalfHeight <= ScanOrder()[i].1 < ScreenHeight
  {
  }

  /** Every pixel of the bottom half is written: (x, row) is written exactly
      when it lies in the bottom half. */
  lemma ScanOrderCoversBottomHalf(x: int, row: int)
    ensures (x, row) in ScanOrder() <==> 0 <= x < ScreenWidth && HalfHeight <= row < ScreenHeight
  {
    if 0 <= x < ScreenWidth && HalfHeight <= row < ScreenHeight {
      ScanPointAt(x, row - HalfHeight);
      assert ScanOrder()[(row - HalfHeight) * ScreenWidth + x] == (x, row);
    }
    if (x, row) in ScanOrder() {
      var i :| 0 <= i < |ScanOrder()| && ScanOrder()[i] == (x, row);
      ScanOrderInBottomHalf(i);
    }
  }

  /** No pixel is written twice in one frame. */
  lemma ScanOrderNoRepeats(i: int, j: int)
    requires 0 <= i < j < |ScanOrder()|
    ensures ScanOrder()[i] != ScanOrder()[j]
  {
  }

  /** Offset in the packed framebuffer bytes of the red byte of pixel
      (x, y); the pixel's four bytes are R, G, B, A from there. */
  function PixOffset(x: int, y: int): int {
    y * Stride + x * 4
  }

  /** The four bytes of an in-bounds pixel lie inside the packed buffer and
      distinct pixels own disjoint bytes. */
  lemma PixOffsetsDisjoint(x1: int, y1: int, x2: int, y2: int)
    requires 0 <= x1 < ScreenWidth && 0 <= y1 < ScreenHeight
    requires 0 <= x2 < ScreenWidth && 0 <= y2 < ScreenHeight
    ensures 0 <= PixOffset(x1, y1) && PixOffset(x1, y1) + 4 <= Stride * ScreenHeight
    ensures (x1, y1) != (x2, y2) ==>
              PixOffset(x1, y1) + 4 <= PixOffset(x2, y2) || PixOffset(x2, y2) + 4 <= PixOffset(x1, y1)
  {
  }

  /** Every byte a frame writes lies in [HalfHeight * Stride, ScreenHeight * Stride),
      the second half of the packed buffer. */
  lemma ScanWritesSecondHalfOfBytes(i: int)
    requires 0 <= i < |ScanOrder()|
    ensures HalfHeight * Stride <= PixOffset(ScanOrder()[i].0, ScanOrder()[i].1)
    ensures PixOffset(ScanOrder()[i].0, ScanOrder()[i].1) + 4 <= ScreenHeight * Stride
  {
    ScanOrderInBottomHalf(i);
  }
}
