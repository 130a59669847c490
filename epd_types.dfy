/**
 * The value types of the e-paper framebuffer: the enumerations and the font
 * descriptor of the C headers, and the fixed-width integer ranges the C code
 * works with.
 */
module EpdTypes {

  /** A plane byte. Bit 7 is the leftmost pixel of the byte (MSB first). */
  type Byte = bv8

  /** The C `uint8_t` and `uint16_t` ranges, as subsets of `int`. */
  type U8 = n: int | 0 <= n < 0x100
  type U16 = n: int | 0 <= n < 0x1_0000

  /** The modulus of `uint16_t` arithmetic. */
  const U16_MOD: int := 0x1_0000

  /** `EpdOrientation`: four rotations and the `Last` guard value. */
  datatype Orientation = Normal | Deg90 | Deg180 | Deg270 | OrientationLast

  /** An orientation an image can have: every value but the guard. */
  type ValidOrientation = o: Orientation | o != OrientationLast witness Normal

  /** `EpdColor`: three colours and the `Last` guard value. */
  datatype Color = Black | White | Red | ColorLast

  /** The enumerator's numeric value, as the C compiler assigns it. */
  function ColorCode(c: Color): (code: nat)
    ensures code < 4
    ensures c == Black <==> code == 0
    ensures c == White <==> code == 1
    ensures c == Red <==> code == 2
  {
    match c
    case Black => 0
    case White => 1
    case Red => 2
    case ColorLast => 3
  }

  /**
   * `EpdFont`: a glyph table that is not owned by the image, the glyph
   * width and height in pixels, and the horizontal advance between glyphs.
   */
  datatype Font = Font(table: seq<Byte>, width: U16, hight: U16, distanceSize: U16)

  /** A value or its absence, for the C code's null pointers. */
  datatype Option<T> = None | Some(value: T)

  /** A pixel coordinate. */
  datatype Point = Point(x: int, y: int)

  /** Concatenation is associative. */
  lemma AppendAssoc<T>(a: seq<T>, b: seq<T>, c: seq<T>)
    ensures (a + b) + c == a + (b + c)
  {
  }
}
