# epd.c in Dafny

A model of `src/epd.c`, the in-memory framebuffer of a tri-colour (black,
white, red) e-paper panel. An image holds two bit-planes of
`rows * columns` bytes:
- the black/white plane;
- the red plane.

The orientation decides how a pixel maps to a byte and a bit of each plane.
The drawing primitives work on the planes in place:
- a point, a line, a filled or outline rectangle;
- a 1-bit-per-pixel picture;
- a character and a string from a font table.

The project has six modules, one per file:

| file | contents |
|---|---|
| `epd_types.dfy` | `EpdTypes`: the enumerations, the font record and the `uint8_t`/`uint16_t` ranges of the C headers |
| `epd_address.dfy` | `EpdAddress`: the plane shape chosen at creation and the address formula of `SetPixel` as pure functions, with its inverse `PixelAt` |
| `epd_planes.dfy` | `EpdPlanes`: the planes as values; `Plot`, the colour write of one pixel; `PlotAll`, a sequence of them; the fill bytes |
| `epd_raster.dfy` | `EpdRaster`: the points `EPD_DrawLine` and `EPD_DrawRectangle` draw, in order |
| `epd_blit.dfy` | `EpdBlit`: the points `EPD_ShowPicture`, `EPD_ShowChar` and `EPD_ShowString` draw, in order |
| `epd.dfy` | `Epd`: the class `Image`, with its two planes as arrays, and one method per C function, its loops kept as loops |

Every drawing method states its new state in one ensures. For a single
point this is `Contents() == Plot(old(Contents()), Layout(), Point(x, y), color)`;
for `Fill` it is `Filled` of the plane size; for every other method it is
`Contents() == PlotAll(old(Contents()), Layout(), <points>, color)`, where
`<points>` is the sequence of points the C code draws, defined by a function
of the inputs: `Line`, `Rectangle`, `Picture`, `Glyph` or `Text`. The
lemmas about those functions and about `PlotAll` then say what the source
promises:
- the pixels drawn;
- the bits written;
- that nothing else changes;
- that nothing outside the resolution is touched.

The C fixed-width arithmetic is written out where it matters:
- the `uint16_t` `y` and `batch_number` of `EPD_ShowPicture` wrap at 2^16;
- so do the `x` of `EPD_ShowString` and the destination rows;
- `char_number` and `bytes_per_width` of `EPD_ShowChar` wrap at 2^8;
- the `int32_t` error term of `EPD_DrawLine` is proved to stay in range.

The model follows the code where it differs from a textbook Bresenham line
or a reading of the parameters as inclusive bounds:
- A diagonal line need not reach its endpoint. The second test of the line
  loop reads the error term that the first step has just changed.
  `DiagonalMissesEndpoint` shows that (0, 0) to (2, 1) draws only (0, 0)
  and (1, 1). Endpoint inclusion is proved for axis-aligned lines only.
- A filled rectangle covers rows y1 <= y < y2. The row y2 is left out.
- `EPD_ShowPicture` draws set padding bits past the picture width.
- When a pixel leaves the resolution, `EPD_ShowPicture` abandons only the
  remaining bits of the current byte. The later bytes of the row are still
  read, and their bits find x past the edge as well.

## Model

| member | source | states |
|---|---|---|
| EpdTypes.ColorCode | src/epd.h:24-29 | the enumerators are numbered Black 0, White 1, Red 2, with the guard last |
| EpdAddress.ByteCount | src/epd.c:27 | the byte count of n pixels is the least multiple of 8 that covers n, divided by 8 |
| EpdAddress.ShapeOf | src/epd.c:23-33 | Normal and 180 degrees give rows = res_y and 8*columns covering res_x; 90 and 270 degrees swap the roles |
| EpdAddress.Address | src/epd.c:88-99 | the bit offset of every address is in 0..7 |
| EpdAddress.PixelAt | src/epd.c:88-99 | every plane bit, padding included, stands for a pixel with non-negative coordinates |
| EpdAddress.AddressRoundTrip | src/epd.c:88-99 | an in-range pixel's index is below rows*columns, and `PixelAt` maps its address back to it |
| EpdAddress.AddressInPlanes | src/epd.c:88-99 | an in-range pixel's byte index is below the plane size |
| EpdAddress.PixelRoundTrip | src/epd.c:88-99 | every plane bit is the address of the pixel `PixelAt` gives, so the address map is onto the plane bits |
| EpdAddress.AddressInjective | src/epd.c:88-99 | two distinct in-range pixels never share an (index, offset) pair |
| EpdAddress.AddressIff | src/epd.c:88-99 | an in-range pixel owns a plane bit exactly when `PixelAt` of that bit is the pixel |
| EpdAddress.SharedFormulas | src/epd.c:88-99 | Normal and 180 degrees address every pixel alike, and so do 90 and 270 degrees |
| EpdAddress.WrapAliases | src/epd.c:89-98 | an out-of-range x aliases an in-range pixel: in the plain layout, x + 8 * columns addresses the bit of (x, y + 1); in the transposed layout, x + rows addresses the bit of (x, y + 8) |
| EpdAddress.WrapExamples | src/epd.c:89-98 | on a well-formed 16 by 2 image, (16, 0) and (0, 1) share bit (2, 7); on a well-formed 90-degree 3 by 16 image, (3, 0) and (0, 8) share bit (3, 7) |
| EpdPlanes.MaskBits | src/epd.c:106-116 | OR-ing in `1 << offset` sets bit offset and keeps the other seven; AND-ing with its complement clears it and keeps the others |
| EpdPlanes.SetBit | src/epd.c:111 | OR-ing in the mask sets exactly its bit |
| EpdPlanes.ClearBit | src/epd.c:106-107 | AND-ing with the mask's complement clears exactly its bit |
| EpdPlanes.AfterIdempotent | src/epd.c:104-121 | the per-colour bit update, applied twice, is applied once |
| EpdPlanes.BwByte | src/epd.c:104-121 | defines the black/white byte after the colour write: AND with the mask's complement for Black, OR with the mask for White, unchanged for Red and the guard; its bits are stated by `BwBits` |
| EpdPlanes.RedByte | src/epd.c:104-121 | defines the red byte after the colour write: cleared bit for Black and White, set bit for Red, unchanged for the guard; its bits are stated by `RedBits` |
| EpdPlanes.ByteBits | src/epd.c:104-121 | the byte written for a colour has bit offset set to the colour's value in each plane and every other bit unchanged |
| EpdPlanes.BwBits | src/epd.c:104-121 | the black/white half of `ByteBits` |
| EpdPlanes.RedBits | src/epd.c:104-121 | the red half of `ByteBits` |
| EpdPlanes.Plot | src/epd.c:104-121 | the colour write of one pixel keeps both plane sizes |
| EpdPlanes.PlotBits | src/epd.c:84-121 | one pixel draw changes only the addressed bit in each plane: Black clears both; White sets bw and clears red; Red sets red and keeps bw; the guard changes nothing |
| EpdPlanes.PlotIdempotent | src/epd.c:104-121 | drawing a pixel twice in one colour is drawing it once |
| EpdPlanes.PlotAll | src/epd.c:124-128 | a sequence of point draws keeps both plane sizes |
| EpdPlanes.PlotAllSnoc | src/epd.c:124-128 | one more point draw is one more `Plot` on the planes drawn so far |
| EpdPlanes.PlotAllAppend | src/epd.c:124-128 | drawing a then b is drawing a + b |
| EpdPlanes.PlotAllBits | src/epd.c:104-128 | after a sequence of draws, a bit whose pixel is among the points holds the colour's value and every other bit, padding included, keeps its value |
| EpdPlanes.PlotAllSameSet | src/epd.c:104-128 | two draw sequences with the same set of points give the same planes, whatever their order or repetition |
| EpdPlanes.FillBw | src/epd.c:80 | the black/white fill byte is 0xFF for White and 0x00 for Black and Red |
| EpdPlanes.FillRed | src/epd.c:81 | the red fill byte is 0xFF for Red and 0x00 for Black and White |
| EpdPlanes.Filled | src/epd.c:52-53 | the flooded planes have the requested size |
| EpdPlanes.PlotReadBack | src/epd.c:104-121 | after a draw, the drawn pixel shows the colour and every other pixel shows what it showed before |
| EpdPlanes.FilledReadBack | src/epd.c:52-53 | every pixel of a flooded image shows the flood colour |
| EpdRaster.Segment.Dx | src/epd.c:133 | defines `dx`, the absolute horizontal extent of the line |
| EpdRaster.Segment.Dy | src/epd.c:134 | defines `dy`, the negated absolute vertical extent of the line |
| EpdRaster.Segment.XStep | src/epd.c:135 | defines `XAddway`: 1 when x1 < x2, else -1 |
| EpdRaster.Segment.YStep | src/epd.c:136 | defines `YAddway`: 1 when y1 < y2, else -1 |
| EpdRaster.ErrorFitsInt32 | src/epd.c:137-148 | in every state the line loop reaches, `2 * Esp` fits an `int32_t` |
| EpdRaster.Pass | src/epd.c:141-153 | defines one pass of the line loop after its draw: the x test and step, then the y test on the updated error term, either test breaking at the endpoint coordinate; its meaning is stated by `PassReachable`, `LinePass` and `DiagonalMissesEndpoint` |
| EpdRaster.PassReachable | src/epd.c:139-154 | a pass that goes on keeps the loop invariant (bounding box, error range) and strictly shrinks the distance to the endpoint, so the loop ends |
| EpdRaster.LineFrom | src/epd.c:139-154 | the loop draws at least one point from any reachable state, the current one first |
| EpdRaster.LineGoesOn | src/epd.c:139-154 | a pass that goes on adds its point, and the rest of the line follows from the new state |
| EpdRaster.LineStops | src/epd.c:139-154 | proof step of the line loop, one unfolding of `LineFrom`: a pass that breaks has drawn the last point of the line |
| EpdRaster.Start | src/epd.c:131-137 | the loop's first state is reachable |
| EpdRaster.Line | src/epd.c:130-155 | a line draws at least one point, (x1, y1) first |
| EpdRaster.LineFromInBox | src/epd.c:139-154 | every point drawn from a reachable state lies in the endpoints' bounding box |
| EpdRaster.LineInBox | src/epd.c:130-155 | every point of a line lies in the endpoints' bounding box |
| EpdRaster.LineInRange | src/epd.c:130-155 | a line with in-range endpoints draws only in-range points |
| EpdRaster.HorizontalLine | src/epd.c:130-155 | with y1 == y2 the line is the row from x1 to x2, both inclusive, in either direction, each pixel once |
| EpdRaster.VerticalLine | src/epd.c:130-155 | with x1 == x2 the line is the column from y1 to y2, both inclusive, each pixel once |
| EpdRaster.PointLine | src/epd.c:130-155 | equal endpoints draw one point |
| EpdRaster.DiagonalMissesEndpoint | src/epd.c:141-153 | from (0, 0) to (2, 1) the loop draws (0, 0) and (1, 1) only, leaving out the endpoint |
| EpdRaster.FilledRows | src/epd.c:158-160 | defines the lines the filled branch draws for rows y1 up to, not including, y, in loop order; its point set is stated by `FilledRowsMembers` and `FilledRectangle` |
| EpdRaster.Rectangle | src/epd.c:157-166 | defines the points `EPD_DrawRectangle` draws: `FilledRows` up to y2 when filled, else the four edge lines in the call order; its point sets are stated by `FilledRectangle` and `OutlineRectangle` |
| EpdRaster.FilledRowsNext | src/epd.c:159-160 | proof step of the filled loop, one unfolding of `FilledRows`: one more pass adds the line of row y |
| EpdRaster.FilledRectangle | src/epd.c:158-160 | a filled rectangle covers exactly the rows y1 <= y < y2, each from x1 to x2 inclusive, and nothing when y1 >= y2 |
| EpdRaster.OutlineRectangle | src/epd.c:161-166 | an outline covers exactly its four edges, corners included |
| EpdRaster.RectangleInRange | src/epd.c:157-167 | a rectangle whose drawn edges are in range draws only in-range points |
| EpdBlit.RowBytes | src/epd.c:191 | the row length in bytes is the least count of bytes that holds the width |
| EpdBlit.SourceIndex | src/epd.c:195 | defines the `batch_number` read for byte b of row r: (r * row length + b) mod 2^16; its range is stated by `SourceIndexBelow`, its steps by `SourceIndexNext` and `SourceIndexRow` |
| EpdBlit.SourceIndexBelow | src/epd.c:193-206 | every byte index the picture loops read is below `BytesRead`: the lesser of rows*row length and 2^16 |
| EpdBlit.SourceIndexNext | src/epd.c:206 | `batch_number++` after byte b of row r is the index of byte b + 1, modulo 2^16 |
| EpdBlit.SourceIndexRow | src/epd.c:193-207 | the counter past the last byte of a row is the index of the next row's first byte: the counter runs on, never reset |
| EpdBlit.SourceBit | src/epd.c:195-198 | defines source bit j of row r: bit 7 - j mod 8 of the row's byte j / 8, most significant first; the loop's bit test is tied to it by `SourceBitOf` |
| EpdBlit.SourceBitOf | src/epd.c:195-198 | the bit tested at pass `pixel` of byte b is source bit 8b + 8 - pixel of the row (MSB first) |
| EpdBlit.DestRow | src/epd.c:209 | defines the destination row of source row r: (y + r) mod 2^16; stated by `DestRowNext` and `DestRowIff` |
| EpdBlit.PixelTrace | src/epd.c:197-204 | defines what one source bit draws: its pixel when the bit is set and the pixel is inside the resolution, else nothing; stated by `PixelTraceMembers` |
| EpdBlit.RowTrace | src/epd.c:193-205 | defines the points drawn by the time the loops reach bit n of row r; stated by `RowTraceMembers` |
| EpdBlit.PictureRows | src/epd.c:193-210 | defines the points the first m rows draw; stated by `PictureRowsMembers` |
| EpdBlit.Picture | src/epd.c:187-211 | defines the points `EPD_ShowPicture` draws, all rows of the rounded-up row length; stated by `PictureMembers` and `PictureInRange` |
| EpdBlit.DestRowNext | src/epd.c:209 | `y++` moves to the next source row's destination, modulo 2^16 |
| EpdBlit.RowTraceNext | src/epd.c:197-204 | one more bit of a row inside the resolution draws its pixel exactly when the bit is set |
| EpdBlit.PixelStep | src/epd.c:195-204 | bit k of source byte b, read from the picture, draws pixel (x + j, row destination) exactly when set |
| EpdBlit.RowDone | src/epd.c:193-210 | proof step of the row loop, one unfolding of `PictureRows`: the last bit of row r completes the first r + 1 rows |
| EpdBlit.DestRowIff | src/epd.c:209 | destination row yr comes from source row r exactly when r is `RowOf(y, yr)`, for r below 2^16 |
| EpdBlit.RowTraceMembers | src/epd.c:193-210 | a point is drawn by bit n of row r exactly when an earlier row covers it or one of row r's first n set bits draws it inside the resolution |
| EpdBlit.RowTraceStep | src/epd.c:197-204 | proof step for `RowTraceMembers`: one more bit adds at most its own pixel to the points drawn before it |
| EpdBlit.PictureRowsMembers | src/epd.c:193-210 | the first m rows draw a point exactly when it is covered by one of them |
| EpdBlit.CoveredNext | src/epd.c:193-210 | proof step for `PictureRowsMembers`: the points the first r + 1 rows cover are those the first r rows cover and those row r draws |
| EpdBlit.PixelTraceMembers | src/epd.c:198-203 | proof step for `RowTraceMembers`, one unfolding of `PixelTrace`: one bit draws at most its own pixel, and only when set and in range |
| EpdBlit.PictureMembers | src/epd.c:187-211 | the picture draws (x + j, (y + r) mod 2^16) exactly when source bit j of row r is set, padding included, and the pixel is inside the resolution; nothing else |
| EpdBlit.PictureInRange | src/epd.c:187-211 | a picture never draws outside the resolution |
| EpdBlit.CharNumber | src/epd.c:170 | the glyph number is c - 32, wrapping to c + 224 below the space |
| EpdBlit.BytesPerWidth | src/epd.c:171 | the row length held in a `uint8_t` equals the picture row length for widths up to 2040 |
| EpdBlit.GlyphOffset | src/epd.c:170-172 | defines `char_offset`: row length held in a `uint8_t`, times the height, times the wrapped glyph number; stated by `GlyphOffsetPrintable` |
| EpdBlit.Glyph | src/epd.c:169-175 | defines the points `EPD_ShowChar` draws: the picture that starts at the glyph offset of the table; stated by `GlyphInRange` |
| EpdBlit.GlyphOffsetPrintable | src/epd.c:170-172 | for printable characters and fonts up to 2040 wide, the glyph starts (c - 32) whole glyphs into the table |
| EpdBlit.GlyphInRange | src/epd.c:169-175 | a glyph never draws outside the resolution |
| EpdBlit.CharX | src/epd.c:183 | defines the x of character i: (x + i * distance) mod 2^16; stated by `CharXNext` and `CharXShift` |
| EpdBlit.Text | src/epd.c:177-185 | defines the points `EPD_ShowString` draws: glyph i at `CharX` of i, in string order; stated by `TextNext`, `TextSplit` and `TextInRange` |
| EpdBlit.TextNext | src/epd.c:181-184 | one more character adds its glyph after those drawn before |
| EpdBlit.CharXNext | src/epd.c:183 | `x += distance_size` gives the next character's x, modulo 2^16 |
| EpdBlit.CharXShift | src/epd.c:183 | k advances from character i's x give character i + k's x |
| EpdBlit.TextInRange | src/epd.c:177-185 | a string never draws outside the resolution |
| EpdBlit.TextSplit | src/epd.c:177-185 | a string a + b draws a at x, then b as many advances further on as a has characters |
| EpdBlit.ClipX | src/epd.c:199-204 | defines where x stands after j bits of a row: one pixel per bit until the resolution, frozen on a row outside it; stated by `ClipXNext` and `ClipXClipped` |
| EpdBlit.RowTraceClipped | src/epd.c:199-200 | once a row has left the resolution, its later bits draw nothing |
| EpdBlit.ClipXNext | src/epd.c:199-204 | inside the resolution x is x + j after j bits and advances one per bit |
| EpdBlit.ClipXClipped | src/epd.c:199-200 | once x or the row is outside the resolution, x stays where it is |
| Epd.Memset | src/epd.c:52-53 | every byte of the array becomes the fill value |
| Epd.Image.Valid | src/epd.h:31-43 | defines a well-formed image: two distinct planes of `rows_count * columns_count` bytes each, laid out as src/epd.c:23-38 chooses for the orientation |
| Epd.Image.constructor | src/epd.c:17-56 | a valid image with the given resolution and orientation, both planes fresh and flooded with the colour |
| Epd.Image.SetPixel | src/epd.c:84-121 | the planes become `Plot` of the old planes at (x, y) in the colour |
| Epd.Image.WriteBit | src/epd.c:104-121 | only byte idx of each plane changes, to the colour's byte |
| Epd.Image.DrawPoint | src/epd.c:124-128 | the planes become `Plot` of the old planes; with the guard colour nothing changes |
| Epd.Image.LinePass | src/epd.c:141-153 | one pass of the line loop after its draw: it breaks exactly when `Pass` ends, and otherwise reaches `Pass`'s next state |
| Epd.Image.DrawLine | src/epd.c:130-155 | the planes become the old planes with the points of `Line` drawn, in order |
| Epd.Image.DrawRectangle | src/epd.c:157-167 | the planes become the old planes with the points of `Rectangle` drawn |
| Epd.Image.DrawRows | src/epd.c:158-160 | the filled branch draws the lines of rows y1 <= y < y2 |
| Epd.Image.DrawOutline | src/epd.c:161-166 | the outline branch draws its four edges in the source's order |
| Epd.Image.ShowPictureBit | src/epd.c:198-203 | one bit inside the resolution draws its pixel exactly when it is set |
| Epd.Image.ShowPictureByte | src/epd.c:195-205 | the bit loop over one source byte draws that byte's set bits and leaves x clipped at the resolution |
| Epd.Image.ShowPictureRow | src/epd.c:194-208 | the byte loop of one row draws the row's bits and advances `batch_number` by the row length, modulo 2^16 |
| Epd.Image.ShowPicture | src/epd.c:187-211 | the planes become the old planes with the points of `Picture` drawn, all inside the resolution |
| Epd.Image.ShowChar | src/epd.c:169-175 | the planes become the old planes with the character's glyph drawn |
| Epd.Image.ShowString | src/epd.c:177-185 | a missing string changes nothing; otherwise the planes become the old planes with `Text` drawn, glyph i at x + i * distance mod 2^16 |
| Epd.NewImage | src/epd.c:13-64 | null exactly for the guard orientation or the guard colour; otherwise a valid image shaped by `ShapeOf` and flooded with the colour |
| Epd.DeleteImage | src/epd.c:66-74 | the result is false exactly for a missing image |
| Epd.Fill | src/epd.c:76-82 | a present image with a drawing colour is flooded; a missing image or the guard colour changes nothing |

## Left out

- Allocation failures in `EPD_NewImage` (src/epd.c:40-50) and their unwinding (src/epd.c:58-63) are not modelled: Dafny allocation cannot fail. The same holds for the `calloc` of zero bytes for a zero resolution.
- The `free` calls of `EPD_DeleteImage` are not modelled: memory is managed. Only the null check is.
- The `default` branches of the orientation switches (src/epd.c:34-35, 100-101) are not modelled. An image's orientation is never the guard value; `ValidOrientation` excludes it. Enumeration values past the guards do not exist in the datatypes.
- SetPixel, DrawPoint, DrawLine, DrawRectangle: the C code checks no bounds. For the three drawing colours, the model requires in-range coordinates.
  - An out-of-range coordinate whose byte index stays below `image_size` is defined C: it silently draws the bit of a different pixel. `WrapAliases` and `WrapExamples` show this. On a 16 by 2 image, (16, 0) writes the bit of (0, 1). On a 90-degree image 3 wide and 16 high, (3, 0) writes the bit of (0, 8). The model excludes these calls.
  - Only an index that reaches `image_size` writes outside the planes, which is undefined behaviour.
  - A line requires both endpoints in range.
  - An outline rectangle requires all four corners in range.
  - A filled rectangle requires its rows y1 <= y < y2 in range.
- SetPixel, DrawPoint: with a drawing colour, (x, y) must be inside the resolution. In C, two kinds of out-of-range point stay inside the planes: a point in the padding bits of a row's last byte, and a point that aliases another pixel. The model admits neither, so its requires is stronger than the source's.
- ShowPicture, ShowChar: reading outside the picture or the font table is undefined in C. The model requires every byte the loops read to exist: `BytesRead` for a picture, `GlyphFits` for a character.
- ShowString: a C string becomes its bytes without the terminating NUL, and `strlen` becomes the sequence length. A `char` is taken as a byte 0..255. For a signed `char` this gives the same `char_number`, because the value is reduced modulo 256.
- GlyphOffset: `bytes_per_width * font.hight * char_number` is computed in `int` and can overflow it for very large fonts. The model takes the mathematical product, which stays below 2^32 and so equals what the `unsigned` receives under two's-complement wrap-around.
- PixelColor: how the panel shows a pixel whose red and black/white bits are both set is not part of `src/epd.c`. The model reads such a pixel as red. It uses `PixelColor` only to restate the bit contracts per pixel.
- The image handle: the drawing functions of `src/epd.c` do not check for a null image, and they dereference it on every path that draws. The model makes them methods of a non-null `Image`. Some calls touch no pixel and so are harmless on a null image, and those cannot be expressed on a non-null `Image`:
  - `EPD_DrawPoint` and `EPD_DrawLine` with the guard colour (src/epd.c:125-126);
  - a filled `EPD_DrawRectangle` with y1 >= y2 (src/epd.c:159);
  - `EPD_ShowPicture` with a zero width or height (src/epd.c:193-194);
  - `EPD_ShowString` on an empty string. `EPD_Fill`, `EPD_DeleteImage` and `EPD_ShowString`'s string check for null, and the model keeps those checks.
- Real rotation for 180 and 270 degrees: the code has none, and the model has none either.
- I/O, display hardware, concurrency and floating point: `src/epd.c` has none of them.
