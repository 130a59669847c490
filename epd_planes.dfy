/**
 * The two bit-planes of an image as values, and what drawing a pixel in a
 * colour does to them.
 */
module EpdPlanes {
  import opened EpdTypes
  import opened EpdAddress

  /** The black/white plane and the red plane. */
  datatype Planes = Planes(bw: seq<Byte>, red: seq<Byte>)

  /** Both planes hold `n` bytes. */
  predicate Sized(p: Planes, n: nat) {
    |p.bw| == n && |p.red| == n
  }

  /** The byte with only bit `offset` set: `1 << offset`. */
  function Mask(offset: nat): (m: Byte)
    requires offset < 8
  {
    (1 as Byte) << offset
  }

  /** Bit `offset` of byte `b`. */
  predicate Bit(b: Byte, offset: nat)
    requires offset < 8
  {
    b & Mask(offset) != 0
  }

  /** Setting a bit with `|=`, or clearing it with `&= ~`, changes that bit and no other. */
  lemma MaskBits(b: Byte, offset: nat, k: nat)
    requires offset < 8 && k < 8
    ensures Bit(b | Mask(offset), k) == (k == offset || Bit(b, k))
    ensures Bit(b & !Mask(offset), k) == (k != offset && Bit(b, k))
  {
    SetBit(b, offset, k);
    ClearBit(b, offset, k);
  }

  /** `|=` with a mask sets its bit and keeps the others. */
  lemma SetBit(b: Byte, offset: nat, k: nat)
    requires offset < 8 && k < 8
    ensures Bit(b | Mask(offset), k) == (k == offset || Bit(b, k))
  {
  }

  /** `&= ~` with a mask clears its bit and keeps the others. */
  lemma ClearBit(b: Byte, offset: nat, k: nat)
    requires offset < 8 && k < 8
    ensures Bit(b & !Mask(offset), k) == (k != offset && Bit(b, k))
  {
  }

  /** The black/white bit a pixel holds after it is drawn in `c`. */
  function BwAfter(c: Color, was: bool): bool {
    match c
    case Black => false
    case White => true
    case Red => was
    case ColorLast => was
  }

  /** The red bit a pixel holds after it is drawn in `c`. */
  function RedAfter(c: Color, was: bool): bool {
    match c
    case Black => false
    case White => false
    case Red => true
    case ColorLast => was
  }

  /** Drawing a colour a second time changes no bit further. */
  lemma AfterIdempotent(c: Color, was: bool)
    ensures BwAfter(c, BwAfter(c, was)) == BwAfter(c, was)
    ensures RedAfter(c, RedAfter(c, was)) == RedAfter(c, was)
  {
  }

  /** The black/white byte after `SetPixel` writes bit `offset` of it in colour `c`. */
  function BwByte(c: Color, b: Byte, offset: nat): Byte
    requires offset < 8
  {
    match c
    case Black => b & !Mask(offset)
    case White => b | Mask(offset)
    case Red => b
    case ColorLast => b
  }

  /** The red byte after `SetPixel` writes bit `offset` of it in colour `c`. */
  function RedByte(c: Color, b: Byte, offset: nat): Byte
    requires offset < 8
  {
    match c
    case Black => b & !Mask(offset)
    case White => b & !Mask(offset)
    case Red => b | Mask(offset)
    case ColorLast => b
  }

  /** Writing a byte changes bit `offset` to the colour's value and keeps the other seven. */
  lemma ByteBits(c: Color, b: Byte, offset: nat, k: nat)
    requires offset < 8 && k < 8
    ensures Bit(BwByte(c, b, offset), k) == (if k == offset then BwAfter(c, Bit(b, k)) else Bit(b, k))
    ensures Bit(RedByte(c, b, offset), k) == (if k == offset then RedAfter(c, Bit(b, k)) else Bit(b, k))
  {
    BwBits(c, b, offset, k);
    RedBits(c, b, offset, k);
  }

  /** The black/white half of `ByteBits`. */
  lemma BwBits(c: Color, b: Byte, offset: nat, k: nat)
    requires offset < 8 && k < 8
    ensures Bit(BwByte(c, b, offset), k) == (if k == offset then BwAfter(c, Bit(b, k)) else Bit(b, k))
  {
    MaskBits(b, offset, k);
  }

  /** The red half of `ByteBits`. */
  lemma RedBits(c: Color, b: Byte, offset: nat, k: nat)
    requires offset < 8 && k < 8
    ensures Bit(RedByte(c, b, offset), k) == (if k == offset then RedAfter(c, Bit(b, k)) else Bit(b, k))
  {
    MaskBits(b, offset, k);
  }

  /**
   * Pixel `pt` drawn in colour `c`: the colour write of `SetPixel`, as
   * `EPD_DrawPoint` reaches it. Black clears the addressed bit in both
   * planes, White sets it in the black/white plane and clears it in the red
   * one, Red sets it in the red plane only; the guard value draws nothing.
   */
  function Plot(p: Planes, g: Geometry, pt: Point, c: Color): (r: Planes)
    requires WellFormed(g) && Sized(p, Size(g))
    requires c != ColorLast ==> InRange(g, pt)
    ensures Sized(r, Size(g))
  {
    if c == ColorLast then p
    else
      AddressInPlanes(g, pt);
      var a := Address(g, pt);
      Planes(p.bw[a.index := BwByte(c, p.bw[a.index], a.offset)], p.red[a.index := RedByte(c, p.red[a.index], a.offset)])
  }

  /**
   * Drawing one pixel changes only the bit it addresses in each plane:
   * that bit takes the colour's value and every other bit, padding
   * included, keeps its old value.
   */
  lemma PlotBits(p: Planes, g: Geometry, pt: Point, c: Color, i: nat, k: nat)
    requires WellFormed(g) && Sized(p, Size(g))
    requires c != ColorLast ==> InRange(g, pt)
    requires i < Size(g) && k < 8
    ensures Bit(Plot(p, g, pt, c).bw[i], k) ==
      (if c != ColorLast && Address(g, pt) == BitAddress(i, k) then BwAfter(c, Bit(p.bw[i], k)) else Bit(p.bw[i], k))
    ensures Bit(Plot(p, g, pt, c).red[i], k) ==
      (if c != ColorLast && Address(g, pt) == BitAddress(i, k) then RedAfter(c, Bit(p.red[i], k)) else Bit(p.red[i], k))
  {
    if c != ColorLast {
      AddressRoundTrip(g, pt);
      var a := Address(g, pt);
      var r := Plot(p, g, pt, c);
      if i == a.index {
        assert r.bw[i] == BwByte(c, p.bw[i], a.offset) && r.red[i] == RedByte(c, p.red[i], a.offset);
        ByteBits(c, p.bw[i], a.offset, k);
        ByteBits(c, p.red[i], a.offset, k);
      } else {
        assert r.bw[i] == p.bw[i] && r.red[i] == p.red[i];
      }
    }
  }

  /** Two bytes that agree on all eight bits are equal. */
  lemma BitsEqual(a: Byte, b: Byte)
    requires forall k | 0 <= k < 8 :: Bit(a, k) == Bit(b, k)
    ensures a == b
  {
    MaskValues();
    assert Bit(a, 0) == Bit(b, 0) && Bit(a, 1) == Bit(b, 1) && Bit(a, 2) == Bit(b, 2) && Bit(a, 3) == Bit(b, 3);
    assert Bit(a, 4) == Bit(b, 4) && Bit(a, 5) == Bit(b, 5) && Bit(a, 6) == Bit(b, 6) && Bit(a, 7) == Bit(b, 7);
  }

  /** The eight masks, as constants. */
  lemma MaskValues()
    ensures Mask(0) == 1 && Mask(1) == 2 && Mask(2) == 4 && Mask(3) == 8
    ensures Mask(4) == 16 && Mask(5) == 32 && Mask(6) == 64 && Mask(7) == 128
  {
  }

  /** Two sized planes that agree on every bit are equal. */
  lemma PlanesEqual(p: Planes, q: Planes, n: nat)
    requires Sized(p, n) && Sized(q, n)
    requires forall i, k | 0 <= i < n && 0 <= k < 8 :: Bit(p.bw[i], k) == Bit(q.bw[i], k)
    requires forall i, k | 0 <= i < n && 0 <= k < 8 :: Bit(p.red[i], k) == Bit(q.red[i], k)
    ensures p == q
  {
    forall i | 0 <= i < n
      ensures p.bw[i] == q.bw[i] && p.red[i] == q.red[i]
    {
      BitsEqual(p.bw[i], q.bw[i]);
      BitsEqual(p.red[i], q.red[i]);
    }
  }

  /** Drawing the same pixel in the same colour twice is drawing it once. */
  lemma PlotIdempotent(p: Planes, g: Geometry, pt: Point, c: Color)
    requires WellFormed(g) && Sized(p, Size(g))
    requires c != ColorLast ==> InRange(g, pt)
    ensures Plot(Plot(p, g, pt, c), g, pt, c) == Plot(p, g, pt, c)
  {
    var once := Plot(p, g, pt, c);
    var twice := Plot(once, g, pt, c);
    forall i, k | 0 <= i < Size(g) && 0 <= k < 8
      ensures Bit(twice.bw[i], k) == Bit(once.bw[i], k)
      ensures Bit(twice.red[i], k) == Bit(once.red[i], k)
    {
      PlotBits(p, g, pt, c, i, k);
      PlotBits(once, g, pt, c, i, k);
      AfterIdempotent(c, Bit(p.bw[i], k));
      AfterIdempotent(c, Bit(p.red[i], k));
    }
    PlanesEqual(twice, once, Size(g));
  }

  /** Every point of `pts` is inside the resolution. */
  predicate AllInRange(g: Geometry, pts: seq<Point>) {
    forall j | 0 <= j < |pts| :: InRange(g, pts[j])
  }

  /** Two point sequences are in range exactly when their concatenation is. */
  lemma AllInRangeAppend(g: Geometry, a: seq<Point>, b: seq<Point>)
    ensures AllInRange(g, a + b) <==> AllInRange(g, a) && AllInRange(g, b)
  {
    if AllInRange(g, a + b) {
      forall j | 0 <= j < |a|
        ensures InRange(g, a[j])
      {
        assert a[j] == (a + b)[j];
      }
      forall j | 0 <= j < |b|
        ensures InRange(g, b[j])
      {
        assert b[j] == (a + b)[|a| + j];
      }
    }
    if AllInRange(g, a) && AllInRange(g, b) {
      forall j | 0 <= j < |a + b|
        ensures InRange(g, (a + b)[j])
      {
        if j < |a| {
          assert (a + b)[j] == a[j];
        } else {
          assert (a + b)[j] == b[j - |a|];
        }
      }
    }
  }

  /** The points `pts` drawn one after another in colour `c`. */
  function PlotAll(p: Planes, g: Geometry, pts: seq<Point>, c: Color): (r: Planes)
    requires WellFormed(g) && Sized(p, Size(g))
    requires c != ColorLast ==> AllInRange(g, pts)
    ensures Sized(r, Size(g))
    decreases |pts|
  {
    if pts == [] then p
    else Plot(PlotAll(p, g, pts[..|pts| - 1], c), g, pts[|pts| - 1], c)
  }

  /** Drawing one more point is one more `Plot` on top of what was drawn. */
  lemma PlotAllSnoc(p: Planes, g: Geometry, pts: seq<Point>, pt: Point, c: Color)
    requires WellFormed(g) && Sized(p, Size(g))
    requires c != ColorLast ==> AllInRange(g, pts) && InRange(g, pt)
    ensures c != ColorLast ==> AllInRange(g, pts + [pt])
    ensures PlotAll(p, g, pts + [pt], c) == Plot(PlotAll(p, g, pts, c), g, pt, c)
  {
    AllInRangeAppend(g, pts, [pt]);
    assert (pts + [pt])[..|pts|] == pts;
  }

  /** Drawing `a` and then `b` is drawing `a + b`. */
  lemma {:induction false} PlotAllAppend(p: Planes, g: Geometry, a: seq<Point>, b: seq<Point>, c: Color)
    requires WellFormed(g) && Sized(p, Size(g))
    requires c != ColorLast ==> AllInRange(g, a) && AllInRange(g, b)
    ensures c != ColorLast ==> AllInRange(g, a + b)
    ensures PlotAll(p, g, a + b, c) == PlotAll(PlotAll(p, g, a, c), g, b, c)
    decreases |b|
  {
    if b != [] {
      var b' := b[..|b| - 1];
      assert (a + b)[..|a + b| - 1] == a + b';
      PlotAllAppend(p, g, a, b', c);
    } else {
      assert a + b == a;
    }
  }

  /**
   * What a sequence of point draws does to each bit: the bit of an in-range
   * pixel that is among `pts` holds the colour's value, and every other bit,
   * padding included, keeps its old value.
   */
  lemma {:induction false} PlotAllBits(p: Planes, g: Geometry, pts: seq<Point>, c: Color, i: nat, k: nat)
    requires WellFormed(g) && Sized(p, Size(g))
    requires c != ColorLast ==> AllInRange(g, pts)
    requires i < Size(g) && k < 8
    ensures Bit(PlotAll(p, g, pts, c).bw[i], k) ==
      (if c != ColorLast && PixelAt(g, BitAddress(i, k)) in pts then BwAfter(c, Bit(p.bw[i], k)) else Bit(p.bw[i], k))
    ensures Bit(PlotAll(p, g, pts, c).red[i], k) ==
      (if c != ColorLast && PixelAt(g, BitAddress(i, k)) in pts then RedAfter(c, Bit(p.red[i], k)) else Bit(p.red[i], k))
    decreases |pts|
  {
    if pts != [] {
      var init, last := pts[..|pts| - 1], pts[|pts| - 1];
      assert pts == init + [last];
      PlotAllBits(p, g, init, c, i, k);
      PlotBits(PlotAll(p, g, init, c), g, last, c, i, k);
      AfterIdempotent(c, Bit(p.bw[i], k));
      AfterIdempotent(c, Bit(p.red[i], k));
      if c != ColorLast {
        AddressIff(g, last, BitAddress(i, k));
      }
    }
  }

  /** Only the set of points drawn matters, not their order or repetition. */
  lemma PlotAllSameSet(p: Planes, g: Geometry, a: seq<Point>, b: seq<Point>, c: Color)
    requires WellFormed(g) && Sized(p, Size(g))
    requires c != ColorLast ==> AllInRange(g, a) && AllInRange(g, b)
    requires forall pt :: pt in a <==> pt in b
    ensures PlotAll(p, g, a, c) == PlotAll(p, g, b, c)
  {
    forall i, k | 0 <= i < Size(g) && 0 <= k < 8
      ensures Bit(PlotAll(p, g, a, c).bw[i], k) == Bit(PlotAll(p, g, b, c).bw[i], k)
      ensures Bit(PlotAll(p, g, a, c).red[i], k) == Bit(PlotAll(p, g, b, c).red[i], k)
    {
      PlotAllBits(p, g, a, c, i, k);
      PlotAllBits(p, g, b, c, i, k);
    }
    PlanesEqual(PlotAll(p, g, a, c), PlotAll(p, g, b, c), Size(g));
  }

  /** The byte `memset` writes to the black/white plane for colour `c`. */
  function FillBw(c: Color): (b: Byte)
    requires c != ColorLast
    ensures b == (if c == White then 0xFF else 0x00)
  {
    ((ColorCode(c) as Byte) & 0x1) * 0xFF
  }

  /** The byte `memset` writes to the red plane for colour `c`. */
  function FillRed(c: Color): (b: Byte)
    requires c != ColorLast
    ensures b == (if c == Red then 0xFF else 0x00)
  {
    (((ColorCode(c) as Byte) >> 1) & 0x1) * 0xFF
  }

  /** Both planes of `n` bytes flooded with colour `c`. */
  function Filled(n: nat, c: Color): (p: Planes)
    requires c != ColorLast
    ensures Sized(p, n)
  {
    Planes(seq(n, _ => FillBw(c)), seq(n, _ => FillRed(c)))
  }

  /**
   * The colour a pixel shows, reading the red plane first: a pixel whose
   * red bit is set is red whatever its black/white bit holds.
   */
  function PixelColor(p: Planes, g: Geometry, pt: Point): Color
    requires WellFormed(g) && Sized(p, Size(g)) && InRange(g, pt)
  {
    AddressRoundTrip(g, pt);
    var a := Address(g, pt);
    if Bit(p.red[a.index], a.offset) then Red
    else if Bit(p.bw[a.index], a.offset) then White
    else Black
  }

  /** After a draw in `c`, the pixel drawn shows `c` and every other pixel is as it was. */
  lemma PlotReadBack(p: Planes, g: Geometry, pt: Point, c: Color, q: Point)
    requires WellFormed(g) && Sized(p, Size(g)) && InRange(g, pt) && InRange(g, q)
    requires c != ColorLast
    ensures PixelColor(Plot(p, g, pt, c), g, q) == if q == pt then c else PixelColor(p, g, q)
  {
    AddressRoundTrip(g, q);
    AddressRoundTrip(g, pt);
    var a := Address(g, q);
    PlotBits(p, g, pt, c, a.index, a.offset);
  }

  /** Every pixel of a flooded image shows the flood colour. */
  lemma FilledReadBack(g: Geometry, c: Color, q: Point)
    requires WellFormed(g) && InRange(g, q) && c != ColorLast
    ensures PixelColor(Filled(Size(g), c), g, q) == c
  {
    AddressRoundTrip(g, q);
  }
}
