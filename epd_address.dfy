/**
 * The buffer geometry of an image and the pixel addressing that maps an
 * (x, y) coordinate to a byte index and an MSB-first bit offset.
 */
module EpdAddress {
  import opened EpdTypes

  /** The shape of each plane: `rows` rows of `columns` bytes. */
  datatype Shape = Shape(rows: nat, columns: nat)

  /** The per-image data the addressing uses. */
  datatype Geometry = Geometry(orientation: ValidOrientation, resX: U16, resY: U16, rows: nat, columns: nat)

  /** A bit of a plane: the byte index and the bit offset within that byte. */
  datatype BitAddress = BitAddress(index: nat, offset: nat)

  /** 90 and 270 degrees lay the buffer out transposed; Normal and 180 do not. */
  predicate Transposed(o: Orientation) {
    o == Deg90 || o == Deg270
  }

  /** The number of bytes needed for `n` pixels, as the C code rounds it up. */
  function ByteCount(n: nat): (b: nat)
    ensures 8 * b >= n && 8 * b < n + 8
  {
    (n + 7) / 8
  }

  /**
   * The plane shape chosen at creation: the pixel axis that runs along a row
   * is packed eight pixels to the byte.
   */
  function ShapeOf(o: ValidOrientation, resX: U16, resY: U16): (s: Shape)
    ensures !Transposed(o) ==> s.rows == resY && 8 * s.columns >= resX && 8 * s.columns < resX + 8
    ensures Transposed(o) ==> s.rows == resX && 8 * s.columns >= resY && 8 * s.columns < resY + 8
  {
    if Transposed(o) then Shape(resX, ByteCount(resY)) else Shape(resY, ByteCount(resX))
  }

  /** The geometry record holds the shape its orientation and resolution give. */
  predicate WellFormed(g: Geometry) {
    Shape(g.rows, g.columns) == ShapeOf(g.orientation, g.resX, g.resY)
  }

  /** The byte length of each plane. */
  function Size(g: Geometry): nat {
    g.rows * g.columns
  }

  predicate InRange(g: Geometry, p: Point) {
    0 <= p.x < g.resX && 0 <= p.y < g.resY
  }

  /**
   * The address of pixel (x, y). The transposed layout splits `y` into a
   * byte and a bit; the other splits `x`. Offset 7 is the most significant
   * bit, so the leftmost pixel of a byte is its high bit.
   */
  function Address(g: Geometry, p: Point): (a: BitAddress)
    requires 0 <= p.x && 0 <= p.y
    ensures a.offset < 8
  {
    if Transposed(g.orientation) then
      var idx := p.y / 8;
      BitAddress(idx * g.rows + p.x, 7 - (p.y - idx * 8))
    else
      BitAddress(p.x / 8 + p.y * g.columns, 7 - p.x % 8)
  }

  /**
   * The pixel a plane bit stands for: the inverse of `Address`. Bits past
   * the resolution (the padding of the last byte of a row) stand for
   * pixels whose coordinate is out of range.
   */
  function PixelAt(g: Geometry, a: BitAddress): (p: Point)
    requires a.index < Size(g) && a.offset < 8
    ensures 0 <= p.x && 0 <= p.y
  {
    SizePositive(g, a.index);
    if Transposed(g.orientation) then
      Point(Rem(a.index, g.rows), Quot(a.index, g.rows) * 8 + (7 - a.offset))
    else
      Point(Rem(a.index, g.columns) * 8 + (7 - a.offset), Quot(a.index, g.columns))
  }

  /** The quotient of a byte index by a positive row length. */
  function Quot(n: nat, d: nat): nat
    requires d > 0
  {
    n / d
  }

  /** The remainder of a byte index by a positive row length. */
  function Rem(n: nat, d: nat): nat
    requires d > 0
  {
    n % d
  }

  /** A positive multiple of `c` is at least `c`. */
  lemma MulAtLeast(k: int, c: nat)
    requires k >= 1
    ensures k * c >= c
  {
  }

  /** A plane that holds a byte has at least one row and one column. */
  lemma SizePositive(g: Geometry, index: nat)
    requires index < Size(g)
    ensures g.rows > 0 && g.columns > 0
  {
  }

  /** The only multiple of `c` strictly between `-c` and `c` is zero. */
  lemma MulSmall(k: int, c: int)
    requires c >= 0 && -c < k * c < c
    ensures k == 0
  {
    if k >= 1 {
      MulAtLeast(k, c);
    } else if k <= -1 {
      assert (-k) * c == -(k * c);
      MulAtLeast(-k, c);
    }
  }

  /** Euclidean division of `q * c + r` by `c` gives back `q` and `r`. */
  lemma DivModOf(q: nat, c: nat, r: nat)
    requires r < c
    ensures (q * c + r) / c == q && (q * c + r) % c == r
  {
    var n := q * c + r;
    var d := n / c;
    var m := n % c;
    assert (d - q) * c == r - m;
    MulSmall(d - q, c);
  }

  /** A row of length `c` below row `rows` ends before `rows * c`. */
  lemma IndexBelow(q: nat, rows: nat, c: nat, r: nat)
    requires q < rows && r < c
    ensures q * c + r < rows * c
  {
    MulAtLeast(rows - q, c);
    assert (rows - q) * c == rows * c - q * c;
  }

  /** Every in-range pixel lands inside the planes and its bit maps back to it. */
  lemma {:induction false} AddressRoundTrip(g: Geometry, p: Point)
    requires WellFormed(g) && InRange(g, p)
    ensures Address(g, p).index < Size(g)
    ensures PixelAt(g, Address(g, p)) == p
  {
    if Transposed(g.orientation) {
      var q := p.y / 8;
      IndexBelow(q, g.columns, g.rows, p.x);
      assert g.rows * g.columns == g.columns * g.rows;
      DivModOf(q, g.rows, p.x);
    } else {
      var q := p.x / 8;
      assert q < g.columns;
      IndexBelow(p.y, g.rows, g.columns, q);
      assert q + p.y * g.columns == p.y * g.columns + q;
      DivModOf(p.y, g.columns, q);
    }
  }

  /** Every in-range pixel lands inside the planes. */
  lemma AddressInPlanes(g: Geometry, p: Point)
    requires WellFormed(g) && InRange(g, p)
    ensures Address(g, p).index < Size(g)
  {
    AddressRoundTrip(g, p);
  }

  /** Every plane bit, padding included, is the address of the pixel `PixelAt` gives. */
  lemma {:induction false} PixelRoundTrip(g: Geometry, a: BitAddress)
    requires a.index < Size(g) && a.offset < 8
    ensures Address(g, PixelAt(g, a)) == a
  {
    SizePositive(g, a.index);
    var p := PixelAt(g, a);
    if Transposed(g.orientation) {
      var q := Quot(a.index, g.rows);
      QuotRem(a.index, g.rows);
      DivModOf(q, 8, 7 - a.offset);
      assert p.y / 8 == q;
    } else {
      var m := Rem(a.index, g.columns);
      QuotRem(a.index, g.columns);
      DivModOf(m, 8, 7 - a.offset);
      assert p.x / 8 == m && p.x % 8 == 7 - a.offset;
    }
  }

  /** A byte index is its quotient rows of `d` bytes and its remainder. */
  lemma QuotRem(n: nat, d: nat)
    requires d > 0
    ensures n == Quot(n, d) * d + Rem(n, d) && Rem(n, d) < d
  {
  }

  /** No two distinct in-range pixels share a bit. */
  lemma AddressInjective(g: Geometry, p: Point, p': Point)
    requires WellFormed(g) && InRange(g, p) && InRange(g, p')
    requires Address(g, p) == Address(g, p')
    ensures p == p'
  {
    AddressRoundTrip(g, p);
    AddressRoundTrip(g, p');
  }

  /** An in-range pixel owns the bit at `a` exactly when `a` is its address. */
  lemma AddressIff(g: Geometry, p: Point, a: BitAddress)
    requires WellFormed(g) && InRange(g, p)
    requires a.index < Size(g) && a.offset < 8
    ensures Address(g, p) == a <==> PixelAt(g, a) == p
  {
    AddressRoundTrip(g, p);
    PixelRoundTrip(g, a);
  }

  /**
   * Normal and 180 degrees use one formula, and 90 and 270 degrees the
   * other: the two members of each pair address every pixel alike.
   */
  lemma SharedFormulas(g: Geometry, p: Point)
    requires 0 <= p.x && 0 <= p.y
    ensures Address(g.(orientation := Normal), p) == Address(g.(orientation := Deg180), p)
    ensures Address(g.(orientation := Deg90), p) == Address(g.(orientation := Deg270), p)
  {
  }

  /**
   * Out-of-range coordinates can alias in-range pixels: in the plain
   * layout an x one row of bytes too far addresses the bit of the pixel on
   * the next row, and in the transposed layout an x one row count too far
   * addresses the bit of the pixel eight rows further down.
   */
  lemma {:induction false} WrapAliases(g: Geometry, p: Point)
    requires 0 <= p.x && 0 <= p.y
    ensures !Transposed(g.orientation) ==>
      Address(g, Point(p.x + 8 * g.columns, p.y)) == Address(g, Point(p.x, p.y + 1))
    ensures Transposed(g.orientation) ==>
      Address(g, Point(p.x + g.rows, p.y)) == Address(g, Point(p.x, p.y + 8))
  {
    if Transposed(g.orientation) {
      var q, r := p.y / 8, p.y % 8;
      DivModOf(q + 1, 8, r);
      assert (q + 1) * 8 + r == p.y + 8;
      assert (q + 1) * g.rows == q * g.rows + g.rows;
    } else {
      var q, r := p.x / 8, p.x % 8;
      DivModOf(q + g.columns, 8, r);
      assert (q + g.columns) * 8 + r == p.x + 8 * g.columns;
      assert (p.y + 1) * g.columns == p.y * g.columns + g.columns;
    }
  }

  /** A 16 by 2 image puts (16, 0) on the bit of (0, 1); a 90-degree 3 by 16 image puts (3, 0) on the bit of (0, 8). */
  lemma WrapExamples()
    ensures Address(Geometry(Normal, 16, 2, 2, 2), Point(16, 0)) == Address(Geometry(Normal, 16, 2, 2, 2), Point(0, 1)) == BitAddress(2, 7)
    ensures Address(Geometry(Deg90, 3, 16, 3, 2), Point(3, 0)) == Address(Geometry(Deg90, 3, 16, 3, 2), Point(0, 8)) == BitAddress(3, 7)
    ensures WellFormed(Geometry(Normal, 16, 2, 2, 2)) && WellFormed(Geometry(Deg90, 3, 16, 3, 2))
  {
    WrapAliases(Geometry(Normal, 16, 2, 2, 2), Point(0, 0));
  }
}
