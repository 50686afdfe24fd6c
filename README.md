# Mode7 renderer: integer core in Dafny

This project models the integer core of the Go "Mode7" demo (`mode7.go`),
a software renderer that projects a flat texture onto a perspective ground
plane. Three parts are modelled and proved:

- **Texture generator** (`init`). This code paints a 1024 x 1024 RGBA texture
  in place. It draws three-texel-wide magenta columns and blue rows every 32
  texels over a zero (transparent) background. `Grid.PaintGrid` runs the same
  nested loops over an `array2`, and `Grid.PaintStep` makes the six `Set`
  calls of one inner iteration. `Image.Set` ignores points outside the
  rectangle, as Go's `image.RGBA.Set` does. `Grid.Replay` replays the writes
  in loop order. `Grid.PaintedBefore` is a closed form of the texture after
  any prefix of the loop nest, and `Grid.ReplayClosedForm` proves that the two
  agree. The lemmas about `Grid.GridColor` state what the finished texture
  looks like: the background, the line colours, the crossings (the last write
  wins), transpose symmetry and the painted edges.
- **Texel lookup** (`SampleColor`). `Renderer.SampleColor` takes the two
  integer texel indices. It returns opaque black when either index is outside
  `[0, 1024)`. Otherwise it returns the texel at `sx % 1024, sy % 1024`, with
  Go's truncating `%` (`GoRemMapSize`). Black (a miss) and transparent (an unpainted
  texel) are different colours.
- **Scanline fill** (the loop in `update`). `Renderer.Update` returns
  without drawing when the host reports that drawing is skipped (a boolean
  parameter standing for `ebiten.IsDrawingSkipped()`). Otherwise it visits
  row `y` in `[0, 384)` and column `x` in `[0, 1024)`. For each pair it writes the
  sample for `(x, y)` to pixel `(x, y + 384)`. The perspective projection is a
  parameter, `project`. It maps a screen position to the texel indices that
  the float pipeline and the truncation would produce. A ghost trace of the
  written pixels equals `ScanOrder()`. The lemmas about `ScanOrder` show that
  every pixel of the bottom half is written exactly once, and that nothing
  else is written. `PixOffset` gives Go's packed byte layout
  (`y * Stride + x * 4`, R, G, B, A). With it, the lemmas show that every byte
  a frame writes lies in the second half of the buffer passed to
  `ReplacePixels`.

The two global images are the fields of a `Renderer` class. Its constructor
is `init`. Its invariant `Valid()` says that the texture holds the grid and
that the top half of the framebuffer stays zero.

Two consequences of the code are worth stating plainly:

- `SampleColor` rejects out-of-range indices before it applies `% mapSize`,
  so it never wraps, and the sample point `(1.5, 0.5)` samples black.
- Only rows 384..767 of the framebuffer are written; rows 0..383 keep their
  zero value.

## Model

| member | source | states |
|---|---|---|
| `Raster.Image.constructor` | mode7.go:46-47 | a new image has the requested size and every pixel is the zero (transparent) colour |
| `Raster.Image.At` | mode7.go:67 | an in-range read returns the stored pixel; a read outside the rectangle returns the zero colour (its partner is `Set`, whose contract is stated through `At`) |
| `Raster.Image.Set` | mode7.go:50-55 | an in-range write changes exactly that pixel; a write outside the rectangle (index -1, 1024, 1025) changes nothing; through `At`, reading the written point returns the new colour and every other read, in or out of range, is unchanged |
| `Grid.PaintStep` | mode7.go:50-55 | the six writes of one inner step leave each texel as `StepColor` says: blue where a blue write hit it (blue comes last), else magenta where a magenta write hit it, else unchanged |
| `Grid.PaintGrid` | mode7.go:47-57 | starting from an all-zero 1024 x 1024 texture, the nested loops leave every texel equal to `GridColor` |
| `Grid.OnLineAt` | mode7.go:48-55 | outer step k paints index i exactly when i is within one of 32k; this is the same as i mod 32 being 31, 0 or 1 with `LineOf(i) == k` |
| `Grid.PaintedBeforeStart` | mode7.go:47 | before the first step every texel is still transparent |
| `Grid.PaintedBeforeStep` | mode7.go:49-56 | one inner step at x = 32k, row y takes the closed form at (k, y) to the closed form at (k, y + 1) |
| `Grid.PaintedBeforeNextLine` | mode7.go:48-49 | finishing the 1024 inner steps of outer step k gives the state at the start of outer step k + 1 |
| `Grid.ReplayClosedForm` | mode7.go:48-57 | replaying the first n inner steps in loop order gives the closed form at (n / 1024, n mod 1024), for every n |
| `Grid.BackgroundOffLines` | mode7.go:47-57 | a finished texel is transparent exactly when neither its column nor its row is 31, 0 or 1 mod 32 |
| `Grid.VerticalLineOnly` | mode7.go:48-52 | a texel on a vertical line and on no horizontal line is magenta |
| `Grid.HorizontalLineOnly` | mode7.go:53-55 | a texel on a horizontal line and on no vertical line is blue |
| `Grid.CrossingLastWriteWins` | mode7.go:48-56 | at a crossing the later write wins: the later outer step for different lines; for the same line the later inner step, and blue on a tie |
| `Grid.TransposeSwapsColors` | mode7.go:48-56 | transposing the finished texture swaps magenta and blue off the diagonal; a diagonal texel on a line is blue |
| `Grid.LastIndexOnFinalLine` | mode7.go:48-55 | index 1023 lies on a line, and the only outer step that paints it is the last one, x = 1024, through its x - 1 writes |
| `Grid.EdgesPainted` | mode7.go:48-55 | every texel of column 1023 and of row 1023 is painted (not transparent) |
| `Grid.GridNeverBlack` | mode7.go:48-56 | no texel of the generated texture is black, for any (c, r) |
| `Mode7.GoRemMapSize` | mode7.go:67 | Go's truncating `a % mapSize`: it recomposes the dividend with the truncated quotient, is below 1024 in magnitude and signed like the dividend (which together fix it), and is the identity on `[0, 1024)` |
| `Mode7.Renderer.constructor` | mode7.go:45-58 | start-up allocates a 1024 x 768 zero framebuffer and a 1024 x 1024 texture holding the grid, and establishes `Valid()` |
| `Mode7.Renderer.SampleColor` | mode7.go:64-67 | black when either index is outside `[0, 1024)`; otherwise the texel at `(sx, sy)`, because the modulo leaves in-range indices unchanged |
| `Mode7.Renderer.SampleBlackIffMiss` | mode7.go:64-67 | with the grid texture, a lookup is black if and only if it misses; a hit returns the grid texel, which may be transparent but is never black |
| `Mode7.Renderer.Update` | mode7.go:86-135 | when drawing is skipped nothing is written; otherwise each pixel (x, y + 384) becomes the sample for (x, y), the writes happen in exactly the order `ScanOrder()`; rows 0..383 are unchanged either way and `Valid()` is kept |
| `Mode7.ScanPointAt` | mode7.go:109-133 | the write for column x of row y is number y * 1024 + x of the frame, and it lands on (x, y + 384) |
| `Mode7.ScanOrderInBottomHalf` | mode7.go:109-133 | every write of a frame is inside the 1024 x 768 buffer, in rows 384..767 |
| `Mode7.ScanOrderCoversBottomHalf` | mode7.go:109-133 | a pixel is written in a frame if and only if it lies in the bottom half |
| `Mode7.ScanOrderNoRepeats` | mode7.go:109-133 | no pixel is written twice in one frame |
| `Mode7.PixOffsetsDisjoint` | mode7.go:133-138 | in the packed RGBA buffer, every in-bounds pixel's four bytes lie inside the buffer, and distinct pixels own disjoint bytes |
| `Mode7.ScanWritesSecondHalfOfBytes` | mode7.go:133-138 | every byte a frame writes lies in `[384 * 4096, 768 * 4096)` of the packed buffer |

## Left out

- Floating-point math is not modelled. This covers the frustum corners from `cos`/`sin` (mode7.go:91-106), the reciprocal-depth interpolation (mode7.go:111-122) and the horizontal interpolation (mode7.go:126-130). It also covers the float-to-int truncation in `SampleColor` (mode7.go:61-62), including the `mapSize-1.0` scale on y and the conversion of the infinite or NaN coordinates of row 0. All of it is replaced by the parameter `project`, an arbitrary map from screen position to texel indices.
- Camera input is not modelled: the `ebiten.IsKeyPressed` polling and the float updates of `θ` and `world` (mode7.go:71-84). They poll input and do float arithmetic, and the scanline fill does not read them except through `project`.
- Presentation is not modelled: the query `ebiten.IsDrawingSkipped` itself (its answer is the parameter `drawingSkipped`), `screen.ReplacePixels`, `ebitenutil.DebugPrint`, `fmt.Sprintf`, `ebiten.CurrentFPS`, `main` and `ebiten.Run` (mode7.go:86, 138-152). These are calls into the graphics library. Only the byte offsets of the buffer passed to `ReplacePixels` are modelled (`PixOffset`).
- Colours are an enumeration, not four bytes. The RGBA values of `colornames.Magenta`, `colornames.Blue` and `colornames.Black` and the conversion in `color.RGBAModel` are not modelled. The framebuffer holds one colour per pixel, and its packed layout appears only through `PixOffset`.
- Go's 64-bit `int` is modelled as an unbounded integer. No index in the modelled code comes near the 64-bit limits; the indices that could come from the float conversion are arbitrary inputs anyway.
