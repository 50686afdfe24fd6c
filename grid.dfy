/**
 * The procedural texture painted at start-up: a 1024 x 1024 image crossed by
 * three-texel-wide magenta columns and blue rows every 32 texels, over the
 * zero (transparent) background.
 *
 * The generator runs an outer loop over x = 0, 32, ..., 1024 (step k paints
 * around x = 32 * k) and an inner loop over y = 0 .. 1023; one inner step
 * (k, y) makes six writes: magenta at (x, y), (x - 1, y), (x + 1, y), then
 * blue at (y, x), (y, x - 1), (y, x + 1). Writes outside the image are
 * ignored, and where lines cross the last write wins, so the colour at a
 * crossing depends on the loop order. `Replay` replays the steps one by
 * one in loop order; `PaintedBefore` is the closed form of the colour of a
 * texel after every inner step that precedes (k, y), and `ReplayClosedForm`
 * proves the two agree; `GridColor` is the colour once the loops are done.
 */
module Grid {
  import opened Raster

  const MapSize: nat := 1024
  const LineSpacing: nat := 32
  /** Outer iterations: x = 0, 32, ..., MapSize, the last one inclusive. */
  const LineCount: nat := MapSize / LineSpacing + 1

  /** Whether index i lies on a line: within one of a multiple of the spacing. */
  predicate OnLine(i: int) {
    var m := i % LineSpacing;
    m == LineSpacing - 1 || m == 0 || m == 1
  }

  /** The outer iteration whose line passes through index i (when OnLine(i)). */
  function LineOf(i: int): int {
    (i + 1) / LineSpacing
  }

  /** Lexicographic order on inner steps (outer index, inner index). */
  predicate Precedes(k1: int, y1: int, k2: int, y2: int) {
    k1 < k2 || (k1 == k2 && y1 < y2)
  }

  /** Colour of texel (c, r) after all inner steps that precede step (k, y).
      The magenta write to (c, r) happens at step (LineOf(c), r), the blue
      write at step (LineOf(r), c); within one step blue follows magenta. */
  function PaintedBefore(k: int, y: int, c: int, r: int): Color {
    var vertical := OnLine(c) && Precedes(LineOf(c), r, k, y);
    var horizontal := OnLine(r) && Precedes(LineOf(r), c, k, y);
    if vertical && horizontal then
      (if Precedes(LineOf(r), c, LineOf(c), r) then Magenta else Blue)
    else if vertical then Magenta
    else if horizontal then Blue
    else Transparent
  }

  /** Colour of texel (c, r) once the generator has finished. */
  function GridColor(c: int, r: int): Color {
    PaintedBefore(LineCount, 0, c, r)
  }

  /** Effect of one inner step at outer value x and inner value y on texel
      (c, r) that held `prev`: the blue writes come last, so they win. */
  function StepColor(prev: Color, x: int, y: int, c: int, r: int): Color {
    if c == y && x - 1 <= r <= x + 1 then Blue
    else if r == y && x - 1 <= c <= x + 1 then Magenta
    else prev
  }

  /** Colour of texel (c, r) after the first n inner steps of the generator,
      taken one after the other in loop order: step n runs at outer value
      x = 32 * (n / MapSize) and inner value y = n % MapSize. */
  function Replay(n: nat, c: int, r: int): Color
    decreases n
  {
    if n == 0 then Transparent
    else
      var m := n - 1;
      StepColor(Replay(m, c, r), LineSpacing * (m / MapSize), m % MapSize, c, r)
  }

  /** An index is painted at outer step k exactly when it is within one of 32 * k. */
  lemma OnLineAt(i: int, k: int)
    ensures OnLine(i) && LineOf(i) == k <==> LineSpacing * k - 1 <= i <= LineSpacing * k + 1
  {
  }

  /** One inner step of the generator turns the state before step (k, y)
      into the state before step (k, y + 1). */
  lemma PaintedBeforeStep(k: int, y: int, c: int, r: int)
    requires 0 <= y < MapSize && 0 <= c < MapSize && 0 <= r < MapSize
    ensures PaintedBefore(k, y + 1, c, r) == StepColor(PaintedBefore(k, y, c, r), LineSpacing * k, y, c, r)
  {
    OnLineAt(c, k);
    OnLineAt(r, k);
  }

  /** Finishing the inner loop of outer step k is starting outer step k + 1. */
  lemma PaintedBeforeNextLine(k: int, c: int, r: int)
    requires 0 <= c < MapSize && 0 <= r < MapSize
    ensures PaintedBefore(k, MapSize, c, r) == PaintedBefore(k + 1, 0, c, r)
  {
  }

  /** Before the first step every texel still holds the zero colour. */
  lemma PaintedBeforeStart(c: int, r: int)
    requires 0 <= c && 0 <= r
    ensures PaintedBefore(0, 0, c, r) == Transparent
  {
  }

  /** Replaying the writes in loop order agrees with the closed form:
      the first n steps leave exactly the colours of PaintedBefore at step
      (n / MapSize, n % MapSize). */
  lemma {:induction false} ReplayClosedForm(n: nat, c: int, r: int)
    requires 0 <= c < MapSize && 0 <= r < MapSize
    ensures Replay(n, c, r) == PaintedBefore(n / MapSize, n % MapSize, c, r)
  {
    if n == 0 {
      PaintedBeforeStart(c, r);
    } else {
      var m := n - 1;
      ReplayClosedForm(m, c, r);
      PaintedBeforeStep(m / MapSize, m % MapSize, c, r);
      if m % MapSize == MapSize - 1 {
        PaintedBeforeNextLine(m / MapSize, c, r);
      }
    }
  }

  /** Exchanges the two line colours; used to state the transpose symmetry. */
  function SwapLineColors(col: Color): Color {
    match col
    case Magenta => Blue
    case Blue => Magenta
    case _ => col
  }

  /** A texel shows the background exactly when neither its column nor its
      row lies on a line. */
  lemma BackgroundOffLines(c: int, r: int)
    requires 0 <= c < MapSize && 0 <= r < MapSize
    ensures GridColor(c, r) == Transparent <==> !OnLine(c) && !OnLine(r)
  {
  }

  /** A texel on a vertical line and on no horizontal line is magenta. */
  lemma VerticalLineOnly(c: int, r: int)
    requires 0 <= c < MapSize && 0 <= r < MapSize
    requires OnLine(c) && !OnLine(r)
    ensures GridColor(c, r) == Magenta
  {
  }

  /** A texel on a horizontal line and on no vertical line is blue. */
  lemma HorizontalLineOnly(c: int, r: int)
    requires 0 <= c < MapSize && 0 <= r < MapSize
    requires !OnLine(c) && OnLine(r)
    ensures GridColor(c, r) == Blue
  {
  }

  /** Where a vertical and a horizontal line cross, the later write wins:
      for lines of different outer steps the later outer step, for lines of
      the same outer step the later inner step, and blue on a tie. */
  lemma CrossingLastWriteWins(c: int, r: int)
    requires 0 <= c < MapSize && 0 <= r < MapSize
    requires OnLine(c) && OnLine(r)
    ensures GridColor(c, r) == Magenta || GridColor(c, r) == Blue
    ensures LineOf(c) != LineOf(r) ==> (GridColor(c, r) == Blue <==> LineOf(c) < LineOf(r))
    ensures LineOf(c) == LineOf(r) ==> (GridColor(c, r) == Blue <==> r <= c)
  {
  }

  /** Transposing the texture swaps magenta and blue everywhere off the
      diagonal; a diagonal texel on a line is blue. */
  lemma TransposeSwapsColors(c: int, r: int)
    requires 0 <= c < MapSize && 0 <= r < MapSize
    ensures c != r ==> GridColor(r, c) == SwapLineColors(GridColor(c, r))
    ensures c == r && OnLine(c) ==> GridColor(c, r) == Blue
  {
  }

  /** Index MapSize - 1 lies on the line of the final outer step
      x = MapSize, and on no other: it is painted by that step's x - 1 writes. */
  lemma LastIndexOnFinalLine()
    ensures OnLine(MapSize - 1) && LineOf(MapSize - 1) == LineCount - 1
    ensures forall k :: LineSpacing * k - 1 <= MapSize - 1 <= LineSpacing * k + 1 <==> k == LineCount - 1
  {
  }

  /** The last column and row are painted. */
  lemma EdgesPainted(i: int)
    requires 0 <= i < MapSize
    ensures GridColor(MapSize - 1, i) != Transparent && GridColor(i, MapSize - 1) != Transparent
  {
  }

  /** The generator never paints black, so no texel of the texture is black. */
  lemma GridNeverBlack(c: int, r: int)
    ensures GridColor(c, r) != Black
  {
  }

  /** The six writes of one inner step (x, y). */
  method PaintStep(texture: Image, x: int, y: int)
    requires texture.Valid()
    modifies texture.pix
    ensures forall c, r :: 0 <= c < texture.width && 0 <= r < texture.height ==>
              texture.pix[c, r] == StepColor(old(texture.pix[c, r]), x, y, c, r)
  {
    texture.Set(x, y, Magenta);
    texture.Set(x - 1, y, Magenta);
    texture.Set(x + 1, y, Magenta);
    texture.Set(y, x, Blue);
    texture.Set(y, x - 1, Blue);
    texture.Set(y, x + 1, Blue);
  }

  /** Paints the grid into a fresh texture, in place. */
  method PaintGrid(texture: Image)
    requires texture.Valid() && texture.width == MapSize && texture.height == MapSize
    requires forall c, r :: 0 <= c < MapSize && 0 <= r < MapSize ==> texture.pix[c, r] == Transparent
    modifies texture.pix
    ensures forall c, r :: 0 <= c < MapSize && 0 <= r < MapSize ==> texture.pix[c, r] == GridColor(c, r)
  {
    var x := 0;
    ghost var k := 0;
    while x <= MapSize
      invariant 0 <= k <= LineCount && x == LineSpacing * k
      invariant forall c, r :: 0 <= c < MapSize && 0 <= r < MapSize ==>
                  texture.pix[c, r] == Replay(k * MapSize, c, r)
    {
      var y := 0;
      while y < MapSize
        invariant 0 <= y <= MapSize
        invariant forall c, r :: 0 <= c < MapSize && 0 <= r < MapSize ==>
                    texture.pix[c, r] == Replay(k * MapSize + y, c, r)
      {
        PaintStep(texture, x, y);
        assert (k * MapSize + y) / MapSize == k && (k * MapSize + y) % MapSize == y;
        y := y + 1;
      }
      x := x + LineSpacing;
      k := k + 1;
    }
    forall c, r | 0 <= c < MapSize && 0 <= r < MapSize
      ensures texture.pix[c, r] == GridColor(c, r)
    {
      ReplayClosedForm(LineCount * MapSize, c, r);
    }
  }
}
