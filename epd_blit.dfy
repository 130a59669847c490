/**
 * The points `EPD_ShowPicture`, `EPD_ShowChar` and `EPD_ShowString` draw.
 * A source bitmap is row-major, one bit per pixel, most significant bit
 * first, each row padded to whole bytes.
 */
module EpdBlit {
  import opened EpdTypes
  import opened EpdAddress
  import opened EpdPlanes
  import opened EpdRaster

  /** Bytes per source row, rounded up as `EPD_ShowPicture` rounds them. */
  function RowBytes(w: U16): (b: U16)
    ensures 8 * b >= w && 8 * b < w + 8
  {
    w / 8 + (if w % 8 != 0 then 1 else 0)
  }

  /**
   * The index `batch_number` holds when row `r` reads its byte `b`: the
   * `uint16_t` counter advances once per byte and wraps at 2^16.
   */
  function SourceIndex(bpr: nat, r: nat, b: nat): U16 {
    (r * bpr + b) % U16_MOD
  }

  /** The bytes a picture of `h` rows of `bpr` bytes reads start at 0 and run below this bound. */
  function BytesRead(bpr: nat, h: nat): nat {
    Min(h * bpr, U16_MOD)
  }

  /** Every byte index the picture loops read lies below `BytesRead(bpr, h)`. */
  lemma SourceIndexBelow(bpr: nat, h: nat, r: nat, b: nat)
    requires r < h && b < bpr
    ensures SourceIndex(bpr, r, b) < BytesRead(bpr, h)
  {
    IndexBelow(r, h, bpr, b);
  }

  /** The byte counter after byte `b` of row `r` is the counter of byte `b + 1`. */
  lemma SourceIndexNext(bpr: nat, r: nat, b: nat, next: nat, cur: U16)
    requires next == b + 1 && cur == SourceIndex(bpr, r, b)
    ensures SourceIndex(bpr, r, next) == (cur + 1) % U16_MOD
  {
    ModAdd(r * bpr + b, 1);
  }

  /** The counter past the last byte of row `r` is the counter of the first byte of row `r + 1`. */
  lemma SourceIndexRow(bpr: nat, r: nat, next: nat)
    requires next == r + 1
    ensures SourceIndex(bpr, r, bpr) == SourceIndex(bpr, next, 0)
  {
    assert next * bpr == r * bpr + bpr;
  }

  /** Source bit `j` of row `r`: bit `7 - j % 8` of the row's byte `j / 8`. */
  predicate SourceBit(pic: seq<Byte>, bpr: nat, h: nat, r: nat, j: nat)
    requires |pic| >= BytesRead(bpr, h) && r < h && j < 8 * bpr
  {
    SourceIndexBelow(bpr, h, r, j / 8);
    Bit(pic[SourceIndex(bpr, r, j / 8)], 7 - j % 8)
  }

  /** Bit `k` of byte `b` of row `r` is source bit `8 * b + 7 - k` of that row. */
  lemma SourceBitOf(pic: seq<Byte>, bpr: nat, h: nat, r: nat, b: nat, j: nat, k: nat, byte: Byte)
    requires |pic| >= BytesRead(bpr, h) && r < h && b < bpr && k < 8 && j == 8 * b + 7 - k
    requires SourceIndex(bpr, r, b) < |pic| && byte == pic[SourceIndex(bpr, r, b)]
    ensures j < 8 * bpr && SourceBit(pic, bpr, h, r, j) == Bit(byte, k)
  {
    DivModOf(b, 8, 7 - k);
  }

  /** The destination row of source row `r`: `y` is a `uint16_t` that wraps. */
  function DestRow(y: U16, r: nat): U16 {
    (y + r) % U16_MOD
  }

  /** The destination row after row `r` is one `uint16_t` step past it. */
  lemma DestRowNext(y: U16, r: nat, next: nat, cur: U16)
    requires next == r + 1 && cur == DestRow(y, r)
    ensures DestRow(y, next) == (cur + 1) % U16_MOD
  {
    ModAdd(y + r, 1);
  }

  /**
   * What source bit `j` of row `r` draws: its destination pixel when the
   * bit is set and the pixel is inside the resolution, else nothing. Bits
   * past the picture width (the row's padding) are walked like the others.
   */
  function PixelTrace(resX: U16, resY: U16, pic: seq<Byte>, x: U16, y: U16, bpr: nat, h: nat, r: nat, j: nat): seq<Point>
    requires |pic| >= BytesRead(bpr, h) && r < h && j < 8 * bpr
  {
    if SourceBit(pic, bpr, h, r, j) && x + j < resX && DestRow(y, r) < resY then [Point(x + j, DestRow(y, r))] else []
  }

  /**
   * The points drawn by the time the loops of `EPD_ShowPicture` reach bit
   * `n` of row `r`: those of the rows before `r`, then those of the first
   * `n` bits of row `r`.
   */
  function RowTrace(resX: U16, resY: U16, pic: seq<Byte>, x: U16, y: U16, bpr: nat, h: nat, r: nat, n: nat): seq<Point>
    requires |pic| >= BytesRead(bpr, h) && r < h && n <= 8 * bpr
    decreases r, n + 1
  {
    if n == 0 then PictureRows(resX, resY, pic, x, y, bpr, h, r)
    else RowTrace(resX, resY, pic, x, y, bpr, h, r, n - 1) + PixelTrace(resX, resY, pic, x, y, bpr, h, r, n - 1)
  }

  /** The points the first `m` source rows draw. */
  function PictureRows(resX: U16, resY: U16, pic: seq<Byte>, x: U16, y: U16, bpr: nat, h: nat, m: nat): seq<Point>
    requires |pic| >= BytesRead(bpr, h) && m <= h
    decreases m, 0
  {
    if m == 0 then [] else RowTrace(resX, resY, pic, x, y, bpr, h, m - 1, 8 * bpr)
  }

  /**
   * One more source bit of a row whose destination is still inside the
   * resolution: it adds its pixel exactly when it is set.
   */
  lemma RowTraceNext(resX: U16, resY: U16, pic: seq<Byte>, x: U16, y: U16, bpr: nat, h: nat, r: nat, j: nat, next: nat,
                     done: seq<Point>, on: bool)
    requires |pic| >= BytesRead(bpr, h) && r < h && j < 8 * bpr && next == j + 1
    requires x + j < resX && DestRow(y, r) < resY
    requires done == RowTrace(resX, resY, pic, x, y, bpr, h, r, j)
    requires on == SourceBit(pic, bpr, h, r, j)
    ensures on ==> done + [Point(x + j, DestRow(y, r))] == RowTrace(resX, resY, pic, x, y, bpr, h, r, next)
    ensures !on ==> done == RowTrace(resX, resY, pic, x, y, bpr, h, r, next)
  {
    assert RowTrace(resX, resY, pic, x, y, bpr, h, r, next) == done + PixelTrace(resX, resY, pic, x, y, bpr, h, r, j);
  }

  /**
   * Bit `k` of source byte `b` of row `r`, counted from the most
   * significant one, is bit `j` of the row: with its destination inside the
   * resolution it adds its pixel exactly when it is set.
   */
  lemma PixelStep(resX: U16, resY: U16, pic: seq<Byte>, x: U16, y: U16, bpr: nat, h: nat, r: nat, b: nat, j: nat,
                  next: nat, k: nat, byte: Byte, done: seq<Point>)
    requires |pic| >= BytesRead(bpr, h) && r < h && b < bpr && k < 8 && j == 8 * b + 7 - k && next == j + 1
    requires SourceIndex(bpr, r, b) < |pic| && byte == pic[SourceIndex(bpr, r, b)]
    requires x + j < resX && DestRow(y, r) < resY
    requires done == RowTrace(resX, resY, pic, x, y, bpr, h, r, j)
    ensures RowTrace(resX, resY, pic, x, y, bpr, h, r, next) ==
      done + (if Bit(byte, k) then [Point(x + j, DestRow(y, r))] else [])
  {
    SourceBitOf(pic, bpr, h, r, b, j, k, byte);
    RowTraceNext(resX, resY, pic, x, y, bpr, h, r, j, next, done, Bit(byte, k));
  }

  /** The last bit of row `r` completes the first `r + 1` rows. */
  lemma RowDone(resX: U16, resY: U16, pic: seq<Byte>, x: U16, y: U16, bpr: nat, h: nat, r: nat, next: nat)
    requires |pic| >= BytesRead(bpr, h) && r < h && next == r + 1
    ensures PictureRows(resX, resY, pic, x, y, bpr, h, next) == RowTrace(resX, resY, pic, x, y, bpr, h, r, 8 * bpr)
  {
  }

  /** The points `EPD_ShowPicture` draws for a `w` by `h` bitmap placed at (x, y). */
  function Picture(resX: U16, resY: U16, pic: seq<Byte>, x: U16, y: U16, w: U16, h: U16): seq<Point>
    requires |pic| >= BytesRead(RowBytes(w), h)
  {
    PictureRows(resX, resY, pic, x, y, RowBytes(w), h, h)
  }

  /** The source row that destination row `yr` shows, when `yr` is the image of a row below 2^16. */
  function RowOf(y: U16, yr: U16): U16 {
    (yr - y) % U16_MOD
  }

  lemma DestRowIff(y: U16, r: nat, yr: U16)
    requires r < U16_MOD
    ensures DestRow(y, r) == yr <==> r == RowOf(y, yr)
  {
  }

  /**
   * The pixel condition of `EPD_ShowPicture`: `pt` is drawn exactly when it
   * is inside the resolution, it is the destination of a source bit of the
   * picture's rows (padding included), and that bit is set.
   */
  predicate Covered(resX: U16, resY: U16, pic: seq<Byte>, x: U16, y: U16, bpr: nat, h: nat, m: nat, pt: Point)
    requires |pic| >= BytesRead(bpr, h) && m <= h
  {
    0 <= pt.y < resY && x <= pt.x < resX && pt.x - x < 8 * bpr && RowOf(y, pt.y) < m &&
    SourceBit(pic, bpr, h, RowOf(y, pt.y), pt.x - x)
  }

  /**
   * A point is drawn by bit `n` of row `r` exactly when an earlier row
   * covers it, or it lies on row `r`'s destination and one of the first `n`
   * set bits of row `r` draws it.
   */
  lemma {:induction false} RowTraceMembers(resX: U16, resY: U16, pic: seq<Byte>, x: U16, y: U16, bpr: nat, h: nat, r: nat, n: nat, pt: Point)
    requires |pic| >= BytesRead(bpr, h) && r < h && n <= 8 * bpr && h < U16_MOD
    ensures pt in RowTrace(resX, resY, pic, x, y, bpr, h, r, n) <==>
      Covered(resX, resY, pic, x, y, bpr, h, r, pt) ||
      (pt.y == DestRow(y, r) && pt.y < resY && x <= pt.x < resX && pt.x - x < n && SourceBit(pic, bpr, h, r, pt.x - x))
    decreases r, n + 1
  {
    if n == 0 {
      PictureRowsMembers(resX, resY, pic, x, y, bpr, h, r, pt);
    } else {
      var j := n - 1;
      RowTraceMembers(resX, resY, pic, x, y, bpr, h, r, j, pt);
      RowTraceStep(resX, resY, pic, x, y, bpr, h, r, j, n, pt);
    }
  }

  /** Bit `j` of row `r` adds to the points drawn before it at most its own pixel. */
  lemma RowTraceStep(resX: U16, resY: U16, pic: seq<Byte>, x: U16, y: U16, bpr: nat, h: nat, r: nat, j: nat, next: nat, pt: Point)
    requires |pic| >= BytesRead(bpr, h) && r < h && j < 8 * bpr && next == j + 1
    ensures pt in RowTrace(resX, resY, pic, x, y, bpr, h, r, next) <==>
      pt in RowTrace(resX, resY, pic, x, y, bpr, h, r, j) ||
      (SourceBit(pic, bpr, h, r, j) && x + j < resX && DestRow(y, r) < resY && pt == Point(x + j, DestRow(y, r)))
  {
    assert RowTrace(resX, resY, pic, x, y, bpr, h, r, next) ==
      RowTrace(resX, resY, pic, x, y, bpr, h, r, j) + PixelTrace(resX, resY, pic, x, y, bpr, h, r, j);
    PixelTraceMembers(resX, resY, pic, x, y, bpr, h, r, j, pt);
  }

  /** Bit `j` of row `r` draws at most its own pixel. */
  lemma PixelTraceMembers(resX: U16, resY: U16, pic: seq<Byte>, x: U16, y: U16, bpr: nat, h: nat, r: nat, j: nat, pt: Point)
    requires |pic| >= BytesRead(bpr, h) && r < h && j < 8 * bpr
    ensures pt in PixelTrace(resX, resY, pic, x, y, bpr, h, r, j) <==>
      SourceBit(pic, bpr, h, r, j) && x + j < resX && DestRow(y, r) < resY && pt == Point(x + j, DestRow(y, r))
  {
  }

  /** The points the first `r + 1` rows cover are those the first `r` rows cover and those of row `r`. */
  lemma CoveredNext(resX: U16, resY: U16, pic: seq<Byte>, x: U16, y: U16, bpr: nat, h: nat, r: nat, next: nat, pt: Point)
    requires |pic| >= BytesRead(bpr, h) && r < h && next == r + 1 && h < U16_MOD
    ensures Covered(resX, resY, pic, x, y, bpr, h, next, pt) <==>
      Covered(resX, resY, pic, x, y, bpr, h, r, pt) ||
      (pt.y == DestRow(y, r) && pt.y < resY && x <= pt.x < resX && pt.x - x < 8 * bpr && SourceBit(pic, bpr, h, r, pt.x - x))
  {
    if 0 <= pt.y < U16_MOD {
      DestRowIff(y, r, pt.y);
    }
  }

  lemma {:induction false} PictureRowsMembers(resX: U16, resY: U16, pic: seq<Byte>, x: U16, y: U16, bpr: nat, h: nat, m: nat, pt: Point)
    requires |pic| >= BytesRead(bpr, h) && m <= h && h < U16_MOD
    ensures pt in PictureRows(resX, resY, pic, x, y, bpr, h, m) <==> Covered(resX, resY, pic, x, y, bpr, h, m, pt)
    decreases m, 0
  {
    if m > 0 {
      var r := m - 1;
      RowTraceMembers(resX, resY, pic, x, y, bpr, h, r, 8 * bpr, pt);
      CoveredNext(resX, resY, pic, x, y, bpr, h, r, m, pt);
    }
  }

  /**
   * `EPD_ShowPicture` draws source bit j of row r at (x + j, (y + r) mod
   * 2^16) exactly when that bit is set and the pixel is inside the
   * resolution; it draws nothing else.
   */
  lemma PictureMembers(resX: U16, resY: U16, pic: seq<Byte>, x: U16, y: U16, w: U16, h: U16, pt: Point)
    requires |pic| >= BytesRead(RowBytes(w), h)
    ensures pt in Picture(resX, resY, pic, x, y, w, h) <==> Covered(resX, resY, pic, x, y, RowBytes(w), h, h, pt)
  {
    PictureRowsMembers(resX, resY, pic, x, y, RowBytes(w), h, h, pt);
  }

  /** A picture never draws outside the resolution. */
  lemma PictureInRange(g: Geometry, pic: seq<Byte>, x: U16, y: U16, w: U16, h: U16)
    requires |pic| >= BytesRead(RowBytes(w), h)
    ensures AllInRange(g, Picture(g.resX, g.resY, pic, x, y, w, h))
  {
    var pts := Picture(g.resX, g.resY, pic, x, y, w, h);
    forall j | 0 <= j < |pts|
      ensures InRange(g, pts[j])
    {
      PictureMembers(g.resX, g.resY, pic, x, y, w, h, pts[j]);
    }
  }

  /** The glyph number of a character: `(uint8_t)(c - ' ')`, wrapping below the space. */
  function CharNumber(ch: U8): (n: U8)
    ensures ch >= 32 ==> n == ch - 32
    ensures ch < 32 ==> n == ch + 224
  {
    (ch - 32) % 0x100
  }

  /** The glyph row length of `EPD_ShowChar`, held in a `uint8_t`. */
  function BytesPerWidth(w: U16): (b: U8)
    ensures w <= 2040 ==> b == RowBytes(w)
  {
    (w / 8 + (if w % 8 != 0 then 1 else 0)) % 0x100
  }

  /** Where a character's glyph starts in the font table. */
  function GlyphOffset(ch: U8, font: Font): nat {
    var perRow: nat := BytesPerWidth(font.width);
    MulNonnegative(perRow, font.hight);
    var perGlyph: nat := perRow * font.hight;
    MulNonnegative(perGlyph, CharNumber(ch));
    perGlyph * CharNumber(ch)
  }

  /** A product of two naturals is a natural. */
  lemma MulNonnegative(a: nat, b: nat)
    ensures a * b >= 0
  {
  }

  /**
   * For fonts up to 2040 pixels wide the table holds one glyph of
   * `RowBytes(width) * hight` bytes per character, in character order from
   * the space on: the glyph of character `ch` follows the glyphs of the
   * `ch - 32` characters before it.
   */
  lemma GlyphOffsetPrintable(ch: U8, font: Font)
    requires 32 <= ch && font.width <= 2040
    ensures GlyphOffset(ch, font) == (ch - 32) * (RowBytes(font.width) * font.hight)
  {
    var b, h, n := RowBytes(font.width), font.hight as int, ch - 32;
    assert b * h * n == n * (b * h);
  }

  /** The part of the table that `EPD_ShowChar` hands to `EPD_ShowPicture` is there to read. */
  predicate GlyphFits(ch: U8, font: Font) {
    GlyphOffset(ch, font) + BytesRead(RowBytes(font.width), font.hight) <= |font.table|
  }

  /** The points `EPD_ShowChar` draws: its glyph as a picture at (x, y). */
  function Glyph(resX: U16, resY: U16, x: U16, y: U16, ch: U8, font: Font): seq<Point>
    requires GlyphFits(ch, font)
  {
    Picture(resX, resY, font.table[GlyphOffset(ch, font)..], x, y, font.width, font.hight)
  }

  /** A glyph never draws outside the resolution. */
  lemma GlyphInRange(g: Geometry, x: U16, y: U16, ch: U8, font: Font)
    requires GlyphFits(ch, font)
    ensures AllInRange(g, Glyph(g.resX, g.resY, x, y, ch, font))
  {
    PictureInRange(g, font.table[GlyphOffset(ch, font)..], x, y, font.width, font.hight);
  }

  /** The x of character `i` of a string started at `x`: the `uint16_t` x wraps. */
  function CharX(x: U16, i: nat, distance: U16): U16 {
    (x + i * distance) % U16_MOD
  }

  /** A C string's bytes, without its terminating NUL, whose glyphs the font holds. */
  predicate TextFits(text: seq<U8>, font: Font) {
    forall i | 0 <= i < |text| :: text[i] != 0 && GlyphFits(text[i], font)
  }

  /** The points `EPD_ShowString` draws: glyph `i` at `CharX(x, i, distanceSize)`. */
  function Text(resX: U16, resY: U16, x: U16, y: U16, text: seq<U8>, font: Font): seq<Point>
    requires TextFits(text, font)
    decreases |text|
  {
    if text == [] then []
    else
      var n := |text| - 1;
      Text(resX, resY, x, y, text[..n], font) + Glyph(resX, resY, CharX(x, n, font.distanceSize), y, text[n], font)
  }

  /** One more character of a string: its glyph follows the glyphs before it. */
  lemma TextNext(resX: U16, resY: U16, x: U16, y: U16, text: seq<U8>, i: nat, next: nat, font: Font)
    requires TextFits(text, font) && i < |text| && next == i + 1
    ensures TextFits(text[..i], font) && TextFits(text[..next], font) && GlyphFits(text[i], font)
    ensures Text(resX, resY, x, y, text[..next], font) ==
      Text(resX, resY, x, y, text[..i], font) + Glyph(resX, resY, CharX(x, i, font.distanceSize), y, text[i], font)
  {
    assert text[..next][..i] == text[..i];
  }

  /** The x of the next character is one `uint16_t` advance past the x of this one. */
  lemma CharXNext(x: U16, i: nat, next: nat, d: U16, cur: U16)
    requires next == i + 1 && cur == CharX(x, i, d)
    ensures CharX(x, next, d) == (cur + d) % U16_MOD
  {
    ModAdd(x + i * d, d);
    assert x + i * d + d == x + next * d;
  }

  /** A string never draws outside the resolution. */
  lemma {:induction false} TextInRange(g: Geometry, x: U16, y: U16, text: seq<U8>, font: Font)
    requires TextFits(text, font)
    ensures AllInRange(g, Text(g.resX, g.resY, x, y, text, font))
    decreases |text|
  {
    if text != [] {
      var n := |text| - 1;
      TextInRange(g, x, y, text[..n], font);
      GlyphInRange(g, CharX(x, n, font.distanceSize), y, text[n], font);
    }
  }

  /** Adding `u` to a value reduced modulo 2^16 and reducing again is reducing the sum. */
  lemma ModAdd(v: int, u: int)
    ensures (v % U16_MOD + u) % U16_MOD == (v + u) % U16_MOD
  {
    var q := v / U16_MOD;
    assert v == q * U16_MOD + v % U16_MOD;
    ModShift(v % U16_MOD + u, q);
  }

  lemma ModShift(v: int, q: int)
    ensures (v + q * U16_MOD) % U16_MOD == v % U16_MOD
  {
    var a, b := (v + q * U16_MOD) / U16_MOD, v / U16_MOD;
    assert (a - q - b) * U16_MOD == v % U16_MOD - (v + q * U16_MOD) % U16_MOD;
    MulSmall(a - q - b, U16_MOD);
  }

  /** The x of character `i + k` is `k` advances past the x of character `i`. */
  lemma CharXShift(x: U16, i: nat, k: nat, d: U16)
    ensures CharX(CharX(x, i, d), k, d) == CharX(x, i + k, d)
  {
    ModAdd(x + i * d, k * d);
    assert x + i * d + k * d == x + (i + k) * d;
  }

  /**
   * A string drawn at `x` is its first part drawn at `x` and then the rest
   * drawn `|a|` advances further on.
   */
  lemma {:induction false} TextSplit(resX: U16, resY: U16, x: U16, y: U16, a: seq<U8>, b: seq<U8>, font: Font)
    requires TextFits(a, font) && TextFits(b, font)
    ensures TextFits(a + b, font)
    ensures Text(resX, resY, x, y, a + b, font) ==
      Text(resX, resY, x, y, a, font) + Text(resX, resY, CharX(x, |a|, font.distanceSize), y, b, font)
    decreases |b|
  {
    var d := font.distanceSize;
    TextFitsAppend(a, b, font);
    if b == [] {
      assert a + b == a;
    } else {
      var n := |b| - 1;
      var ab := a + b;
      var x' := CharX(x, |a|, d);
      assert ab[..|ab| - 1] == a + b[..n];
      assert ab[|ab| - 1] == b[n];
      TextFitsAppend(a, b[..n], font);
      TextSplit(resX, resY, x, y, a, b[..n], font);
      CharXShift(x, |a|, n, d);
      var glyph := Glyph(resX, resY, CharX(x', n, d), y, b[n], font);
      assert Text(resX, resY, x, y, ab, font) == Text(resX, resY, x, y, a + b[..n], font) + glyph;
      assert Text(resX, resY, x', y, b, font) == Text(resX, resY, x', y, b[..n], font) + glyph;
    }
  }

  lemma TextFitsAppend(a: seq<U8>, b: seq<U8>, font: Font)
    requires TextFits(a, font) && TextFits(b, font)
    ensures TextFits(a + b, font)
  {
    forall i | 0 <= i < |a + b|
      ensures (a + b)[i] != 0 && GlyphFits((a + b)[i], font)
    {
      if i >= |a| {
        assert (a + b)[i] == b[i - |a|];
      }
    }
  }

  /**
   * Where the x of `EPD_ShowPicture` stands after `j` bits of a row drawn
   * to row `yr`: it advances one pixel per bit until it reaches the
   * resolution, and not at all on a row outside it.
   */
  function ClipX(resX: U16, resY: U16, x: U16, yr: U16, j: nat): int {
    if yr < resY && x < resX then Min(x + j, resX) else x
  }

  /** Once a row has left the resolution at bit `j`, its later bits draw nothing. */
  lemma {:induction false} RowTraceClipped(resX: U16, resY: U16, pic: seq<Byte>, x: U16, y: U16, bpr: nat, h: nat, r: nat, j: nat, n: nat)
    requires |pic| >= BytesRead(bpr, h) && r < h && j <= n <= 8 * bpr
    requires x + j >= resX || DestRow(y, r) >= resY
    ensures RowTrace(resX, resY, pic, x, y, bpr, h, r, n) == RowTrace(resX, resY, pic, x, y, bpr, h, r, j)
    decreases n
  {
    if n > j {
      RowTraceClipped(resX, resY, pic, x, y, bpr, h, r, j, n - 1);
    }
  }

  /** Inside the resolution, x advances one pixel per bit. */
  lemma ClipXNext(resX: U16, resY: U16, x: U16, yr: U16, j: nat, next: nat, cur: int)
    requires cur == ClipX(resX, resY, x, yr, j) && cur < resX && yr < resY && next == j + 1
    ensures cur == x + j && ClipX(resX, resY, x, yr, next) == cur + 1
  {
  }

  /** Once x or the row is outside the resolution, x stays where it is. */
  lemma ClipXClipped(resX: U16, resY: U16, x: U16, yr: U16, j: nat, n: nat)
    requires j <= n
    requires ClipX(resX, resY, x, yr, j) >= resX || yr >= resY
    ensures ClipX(resX, resY, x, yr, n) == ClipX(resX, resY, x, yr, j)
  {
  }
}
