/**
 * The framebuffer of a tri-colour e-paper panel: an image with two
 * bit-planes and the drawing operations that change them in place.
 */
module Epd {
  import opened EpdTypes
  import opened EpdAddress
  import opened EpdPlanes
  import opened EpdRaster
  import opened EpdBlit

  /** `memset`: every byte of `a` becomes `v`. */
  method Memset(a: array<Byte>, v: Byte)
    modifies a
    ensures a[..] == seq(a.Length, _ => v)
  {
    var i := 0;
    while i < a.Length
      invariant i <= a.Length
      invariant forall k | 0 <= k < i :: a[k] == v
    {
      a[i] := v;
      i := i + 1;
    }
  }

  /** `EpdImage`: two planes of `imageSize` bytes and the geometry they are laid out by. */
  class Image {
    const imageBw: array<Byte>
    const imageRed: array<Byte>
    const imageSize: nat
    const orientation: ValidOrientation
    const resolutionX: U16
    const resolutionY: U16
    const rowsCount: U16
    const columnsCount: U16

    /** The fields the pixel addressing reads. */
    function Layout(): Geometry {
      Geometry(orientation, resolutionX, resolutionY, rowsCount, columnsCount)
    }

    /** Two distinct planes of `rows * columns` bytes, shaped by the orientation. */
    ghost predicate Valid() {
      imageBw != imageRed && WellFormed(Layout()) &&
      imageSize == Size(Layout()) && imageBw.Length == imageSize && imageRed.Length == imageSize
    }

    ghost function Contents(): Planes
      reads imageBw, imageRed
    {
      Planes(imageBw[..], imageRed[..])
    }

    /** The part of `EPD_NewImage` that runs once its arguments are accepted. */
    constructor (resolutionX: U16, resolutionY: U16, orientation: ValidOrientation, color: Color)
      requires color != ColorLast
      ensures Valid() && fresh(imageBw) && fresh(imageRed)
      ensures this.resolutionX == resolutionX && this.resolutionY == resolutionY && this.orientation == orientation
      ensures Contents() == Filled(imageSize, color)
    {
      var shape := ShapeOf(orientation, resolutionX, resolutionY);
      this.resolutionX, this.resolutionY, this.orientation := resolutionX, resolutionY, orientation;
      rowsCount, columnsCount := shape.rows, shape.columns;
      imageSize := shape.rows * shape.columns;
      imageBw := new Byte[shape.rows * shape.columns];
      imageRed := new Byte[shape.rows * shape.columns];
      new;
      Memset(imageBw, FillBw(color));
      Memset(imageRed, FillRed(color));
    }

    /**
     * `SetPixel`: the address of (x, y), then the colour write on that bit
     * of each plane.
     */
    method SetPixel(x: U16, y: U16, color: Color)
      requires Valid()
      requires color != ColorLast ==> x < resolutionX && y < resolutionY
      modifies imageBw, imageRed
      ensures Contents() == Plot(old(Contents()), Layout(), Point(x, y), color)
    {
      var a := Address(Layout(), Point(x, y));
      if color == ColorLast {
        return;
      }
      AddressInPlanes(Layout(), Point(x, y));
      WriteBit(a.index, a.offset, color);
    }

    /** The second half of `SetPixel`: the colour's write on bit `offset` of byte `idx` in each plane. */
    method WriteBit(idx: nat, offset: nat, color: Color)
      requires Valid() && idx < imageSize && offset < 8
      modifies imageBw, imageRed
      ensures imageBw[..] == old(imageBw[..])[idx := BwByte(color, old(imageBw[idx]), offset)]
      ensures imageRed[..] == old(imageRed[..])[idx := RedByte(color, old(imageRed[idx]), offset)]
    {
      match color
      case Black =>
        imageBw[idx] := imageBw[idx] & !Mask(offset);
        imageRed[idx] := imageRed[idx] & !Mask(offset);
      case White =>
        imageBw[idx] := imageBw[idx] | Mask(offset);
        imageRed[idx] := imageRed[idx] & !Mask(offset);
      case Red =>
        imageRed[idx] := imageRed[idx] | Mask(offset);
      case ColorLast =>
    }

    /** `EPD_DrawPoint`: the guard colour draws nothing. */
    method DrawPoint(x: U16, y: U16, color: Color)
      requires Valid()
      requires color != ColorLast ==> x < resolutionX && y < resolutionY
      modifies imageBw, imageRed
      ensures Contents() == Plot(old(Contents()), Layout(), Point(x, y), color)
    {
      if color == ColorLast {
        return;
      }
      SetPixel(x, y, color);
    }

    /**
     * The body of the `for (;;)` loop of `EPD_DrawLine` after it has drawn
     * the current point: at most an x step, then at most a y step. `stop`
     * is the `break` of either endpoint test.
     */
    static method LinePass(s: Segment, xPoint: U16, yPoint: U16, esp: int) returns (x: U16, y: U16, e: int, stop: bool)
      requires Reachable(s, Cursor(xPoint, yPoint, esp))
      ensures stop <==> Pass(s, Cursor(xPoint, yPoint, esp)).None?
      ensures !stop ==> Pass(s, Cursor(xPoint, yPoint, esp)) == Some(Cursor(x, y, e))
    {
      ErrorFitsInt32(s, Cursor(xPoint, yPoint, esp));
      PassReachable(s, Cursor(xPoint, yPoint, esp));
      x, y, e, stop := xPoint, yPoint, esp, false;
      if 2 * e >= s.Dy() {
        if x == s.x2 {
          return x, y, e, true;
        }
        e := e + s.Dy();
        x := x + s.XStep();
      }
      if 2 * e <= s.Dx() {
        if y == s.y2 {
          return x, y, e, true;
        }
        e := e + s.Dx();
        y := y + s.YStep();
      }
    }

    /** `EPD_DrawLine`: draws the points of `Line`, one `EPD_DrawPoint` each. */
    method DrawLine(x1: U16, y1: U16, x2: U16, y2: U16, color: Color)
      requires Valid()
      requires color != ColorLast ==> x1 < resolutionX && x2 < resolutionX && y1 < resolutionY && y2 < resolutionY
      modifies imageBw, imageRed
      ensures color != ColorLast ==> AllInRange(Layout(), Line(Segment(x1, y1, x2, y2)))
      ensures Contents() == PlotAll(old(Contents()), Layout(), Line(Segment(x1, y1, x2, y2)), color)
    {
      var s := Segment(x1, y1, x2, y2);
      ghost var done: seq<Point> := [];
      if color != ColorLast {
        LineInRange(Layout(), s);
      }
      var xPoint: U16 := x1;
      var yPoint: U16 := y1;
      var esp: int := s.Dx() + s.Dy();
      assert Cursor(xPoint, yPoint, esp) == Start(s);
      while true
        invariant Reachable(s, Cursor(xPoint, yPoint, esp))
        invariant done + LineFrom(s, Cursor(xPoint, yPoint, esp)) == Line(s)
        invariant color != ColorLast ==> AllInRange(Layout(), done)
        invariant Contents() == PlotAll(old(Contents()), Layout(), done, color)
        decreases Remaining(s, Cursor(xPoint, yPoint, esp))
      {
        ghost var before := Cursor(xPoint, yPoint, esp);
        PlotAllSnoc(old(Contents()), Layout(), done, Point(xPoint, yPoint), color);
        DrawPoint(xPoint, yPoint, color);
        ghost var done0 := done;
        done := done + [Point(xPoint, yPoint)];
        var stop;
        xPoint, yPoint, esp, stop := LinePass(s, xPoint, yPoint, esp);
        if stop {
          LineStops(s, before, done0);
          break;
        }
        LineGoesOn(s, before, Cursor(xPoint, yPoint, esp), done0);
      }
    }

    /** `EPD_DrawRectangle`: the rows y1 <= y < y2 when filled, else four edges. */
    method DrawRectangle(x1: U16, y1: U16, x2: U16, y2: U16, color: Color, isFilled: bool)
      requires Valid()
      requires color != ColorLast ==> RectangleFits(Layout(), x1, y1, x2, y2, isFilled)
      modifies imageBw, imageRed
      ensures color != ColorLast ==> AllInRange(Layout(), Rectangle(x1, y1, x2, y2, isFilled))
      ensures Contents() == PlotAll(old(Contents()), Layout(), Rectangle(x1, y1, x2, y2, isFilled), color)
    {
      if isFilled {
        DrawRows(x1, y1, x2, y2, color);
      } else {
        DrawOutline(x1, y1, x2, y2, color);
      }
    }

    /** The filled branch of `EPD_DrawRectangle`: one horizontal line for each row y1 <= y < y2. */
    method DrawRows(x1: U16, y1: U16, x2: U16, y2: U16, color: Color)
      requires Valid()
      requires color != ColorLast ==> RectangleFits(Layout(), x1, y1, x2, y2, true)
      modifies imageBw, imageRed
      ensures color != ColorLast ==> AllInRange(Layout(), FilledRows(x1, x2, y1, y2))
      ensures Contents() == PlotAll(old(Contents()), Layout(), FilledRows(x1, x2, y1, y2), color)
    {
      ghost var g := Layout();
      var y := y1;
      while y < y2
        invariant y == y1 || y1 < y <= y2
        invariant color != ColorLast ==> AllInRange(g, FilledRows(x1, x2, y1, y))
        invariant Contents() == PlotAll(old(Contents()), g, FilledRows(x1, x2, y1, y), color)
      {
        ghost var before := FilledRows(x1, x2, y1, y);
        var next := y + 1;
        FilledRowsNext(x1, x2, y1, y, next);
        DrawLine(x1, y, x2, y, color);
        PlotAllAppend(old(Contents()), g, before, Line(Segment(x1, y, x2, y)), color);
        if color != ColorLast {
          AllInRangeAppend(g, before, Line(Segment(x1, y, x2, y)));
        }
        y := next;
      }
    }

    /** The outline branch of `EPD_DrawRectangle`: its four edges, each one line. */
    method DrawOutline(x1: U16, y1: U16, x2: U16, y2: U16, color: Color)
      requires Valid()
      requires color != ColorLast ==> RectangleFits(Layout(), x1, y1, x2, y2, false)
      modifies imageBw, imageRed
      ensures color != ColorLast ==> AllInRange(Layout(), Rectangle(x1, y1, x2, y2, false))
      ensures Contents() == PlotAll(old(Contents()), Layout(), Rectangle(x1, y1, x2, y2, false), color)
    {
      ghost var g := Layout();
      if color != ColorLast {
        RectangleInRange(g, x1, y1, x2, y2, false);
      }
      ghost var top, left := Line(Segment(x1, y1, x2, y1)), Line(Segment(x1, y1, x1, y2));
      ghost var right, bottom := Line(Segment(x2, y2, x2, y1)), Line(Segment(x2, y2, x1, y2));
      DrawLine(x1, y1, x2, y1, color);
      DrawLine(x1, y1, x1, y2, color);
      PlotAllAppend(old(Contents()), g, top, left, color);
      DrawLine(x2, y2, x2, y1, color);
      PlotAllAppend(old(Contents()), g, top + left, right, color);
      DrawLine(x2, y2, x1, y2, color);
      PlotAllAppend(old(Contents()), g, top + left + right, bottom, color);
    }

    /**
     * One pass of the bit loop of `EPD_ShowPicture` that stays inside the
     * resolution: bit `pixel - 1` of the source byte is tested and, when
     * set, its pixel drawn.
     */
    method ShowPictureBit(batchOfPixels: Byte, pixel: U8, curX: U16, curY: U16, color: Color,
                          ghost base: Planes, ghost done: seq<Point>)
      returns (ghost newDone: seq<Point>)
      requires Valid() && Sized(base, imageSize)
      requires 1 <= pixel <= 8 && curX < resolutionX && curY < resolutionY
      requires AllInRange(Layout(), done)
      requires Contents() == PlotAll(base, Layout(), done, color)
      modifies imageBw, imageRed
      ensures newDone == done + (if Bit(batchOfPixels, pixel - 1) then [Point(curX, curY)] else [])
      ensures AllInRange(Layout(), newDone)
      ensures Contents() == PlotAll(base, Layout(), newDone, color)
    {
      var isPixelOn := Bit(batchOfPixels, pixel - 1);
      newDone := done;
      if isPixelOn {
        PlotAllSnoc(base, Layout(), done, Point(curX, curY), color);
        DrawPoint(curX, curY, color);
        newDone := done + [Point(curX, curY)];
      }
    }

    /**
     * The bit loop of `EPD_ShowPicture` over one source byte, bits
     * `first` to `last` of row `pictureY`: each set bit draws its pixel, and
     * the loop ends early once x or y is outside the resolution.
     */
    method ShowPictureByte(x: U16, y: U16, picture: seq<Byte>, bytesPerRow: U16, ghost h: nat, pictureY: U16, pictureX: U16,
                           batchOfPixels: Byte, ghost first: nat, ghost last: nat, curX: U16, curY: U16, color: Color,
                           ghost base: Planes, ghost done: seq<Point>)
      returns (newX: U16, ghost newDone: seq<Point>)
      requires Valid() && Sized(base, imageSize)
      requires |picture| >= BytesRead(bytesPerRow, h) && pictureY < h
      requires pictureX < bytesPerRow && first == 8 * pictureX && last == first + 8
      requires SourceIndex(bytesPerRow, pictureY, pictureX) < |picture|
      requires batchOfPixels == picture[SourceIndex(bytesPerRow, pictureY, pictureX)]
      requires curY == DestRow(y, pictureY) && curX == ClipX(resolutionX, resolutionY, x, curY, first)
      requires done == RowTrace(resolutionX, resolutionY, picture, x, y, bytesPerRow, h, pictureY, first)
      requires AllInRange(Layout(), done)
      requires Contents() == PlotAll(base, Layout(), done, color)
      modifies imageBw, imageRed
      ensures newX == ClipX(resolutionX, resolutionY, x, curY, last)
      ensures newDone == RowTrace(resolutionX, resolutionY, picture, x, y, bytesPerRow, h, pictureY, last)
      ensures AllInRange(Layout(), newDone)
      ensures Contents() == PlotAll(base, Layout(), newDone, color)
    {
      newX, newDone := curX, done;
      var pixel: U8 := 8;
      ghost var j := first;
      while pixel > 0
        invariant pixel <= 8 && j == last - pixel
        invariant newX == ClipX(resolutionX, resolutionY, x, curY, j)
        invariant newDone == RowTrace(resolutionX, resolutionY, picture, x, y, bytesPerRow, h, pictureY, j)
        invariant AllInRange(Layout(), newDone)
        invariant Contents() == PlotAll(base, Layout(), newDone, color)
      {
        if newX >= resolutionX || curY >= resolutionY {
          break;
        }
        ghost var next := j + 1;
        ClipXNext(resolutionX, resolutionY, x, curY, j, next, newX);
        PixelStep(resolutionX, resolutionY, picture, x, y, bytesPerRow, h, pictureY, pictureX, j, next, pixel - 1,
                  batchOfPixels, newDone);
        newDone := ShowPictureBit(batchOfPixels, pixel, newX, curY, color, base, newDone);
        newX := newX + 1;
        pixel := pixel - 1;
        j := next;
      }
      if pixel > 0 {
        RowTraceClipped(resolutionX, resolutionY, picture, x, y, bytesPerRow, h, pictureY, j, last);
        ClipXClipped(resolutionX, resolutionY, x, curY, j, last);
      }
    }

    /**
     * The byte loop of `EPD_ShowPicture` over source row `pictureY`, drawn
     * to row `curY` from x = `x` on: each byte's bits in turn, the byte
     * counter `batchNumber` advancing once per byte.
     */
    method ShowPictureRow(x: U16, y: U16, picture: seq<Byte>, bytesPerRow: U16, ghost h: nat, pictureY: U16,
                          batchNumber: U16, curY: U16, color: Color, ghost base: Planes, ghost done: seq<Point>)
      returns (newBatch: U16, ghost newDone: seq<Point>)
      requires Valid() && Sized(base, imageSize)
      requires |picture| >= BytesRead(bytesPerRow, h) && pictureY < h < U16_MOD
      requires batchNumber == SourceIndex(bytesPerRow, pictureY, 0) && curY == DestRow(y, pictureY)
      requires done == PictureRows(resolutionX, resolutionY, picture, x, y, bytesPerRow, h, pictureY)
      requires AllInRange(Layout(), done)
      requires Contents() == PlotAll(base, Layout(), done, color)
      modifies imageBw, imageRed
      ensures newBatch == SourceIndex(bytesPerRow, pictureY, bytesPerRow)
      ensures newDone == RowTrace(resolutionX, resolutionY, picture, x, y, bytesPerRow, h, pictureY, 8 * bytesPerRow)
      ensures AllInRange(Layout(), newDone)
      ensures Contents() == PlotAll(base, Layout(), newDone, color)
    {
      ghost var g := Layout();
      newBatch, newDone := batchNumber, done;
      var curX := x;
      var pictureX: U16 := 0;
      ghost var col := 0;
      while pictureX < bytesPerRow
        invariant pictureX <= bytesPerRow && col == 8 * pictureX
        invariant newBatch == SourceIndex(bytesPerRow, pictureY, pictureX)
        invariant curX == ClipX(resolutionX, resolutionY, x, curY, col)
        invariant newDone == RowTrace(resolutionX, resolutionY, picture, x, y, bytesPerRow, h, pictureY, col)
        invariant AllInRange(g, newDone)
        invariant Contents() == PlotAll(base, g, newDone, color)
      {
        SourceIndexBelow(bytesPerRow, h, pictureY, pictureX);
        var batchOfPixels := picture[newBatch];
        ghost var nextCol := col + 8;
        curX, newDone := ShowPictureByte(x, y, picture, bytesPerRow, h, pictureY, pictureX, batchOfPixels, col, nextCol,
                                         curX, curY, color, base, newDone);
        var nextX := pictureX + 1;
        SourceIndexNext(bytesPerRow, pictureY, pictureX, nextX, newBatch);
        newBatch := (newBatch + 1) % U16_MOD;
        pictureX := nextX;
        col := nextCol;
      }
    }

    /**
     * `EPD_ShowPicture`: walks every source byte of every row, all eight
     * bits of it, and draws each set bit whose destination is inside the
     * resolution. Leaving the resolution ends the bit loop of the current
     * byte only; the row's later bytes are still read and find x past the
     * edge too. Each row starts again at x = `x`.
     */
    method ShowPicture(x: U16, y: U16, picture: seq<Byte>, pictureSizeX: U16, pictureSizeY: U16, color: Color)
      requires Valid()
      requires |picture| >= BytesRead(RowBytes(pictureSizeX), pictureSizeY)
      modifies imageBw, imageRed
      ensures AllInRange(Layout(), Picture(resolutionX, resolutionY, picture, x, y, pictureSizeX, pictureSizeY))
      ensures Contents() == PlotAll(old(Contents()), Layout(), Picture(resolutionX, resolutionY, picture, x, y, pictureSizeX, pictureSizeY), color)
    {
      ghost var g := Layout();
      ghost var h := pictureSizeY as nat;
      ghost var done: seq<Point> := [];
      var batchNumber: U16 := 0;
      // The source reuses picture_size_x for the row length in bytes.
      var bytesPerRow: U16 := pictureSizeX / 8 + (if pictureSizeX % 8 != 0 then 1 else 0);
      var curY := y;
      var pictureY: U16 := 0;
      while pictureY < pictureSizeY
        invariant pictureY <= pictureSizeY
        invariant curY == DestRow(y, pictureY)
        invariant batchNumber == SourceIndex(bytesPerRow, pictureY, 0)
        invariant done == PictureRows(resolutionX, resolutionY, picture, x, y, bytesPerRow, h, pictureY)
        invariant AllInRange(g, done)
        invariant Contents() == PlotAll(old(Contents()), g, done, color)
      {
        batchNumber, done := ShowPictureRow(x, y, picture, bytesPerRow, h, pictureY, batchNumber, curY, color, old(Contents()), done);
        var nextY := pictureY + 1;
        SourceIndexRow(bytesPerRow, pictureY, nextY);
        RowDone(resolutionX, resolutionY, picture, x, y, bytesPerRow, h, pictureY, nextY);
        DestRowNext(y, pictureY, nextY, curY);
        curY := (curY + 1) % U16_MOD;
        pictureY := nextY;
      }
    }

    /** `EPD_ShowChar`: the character's glyph, located by `GlyphOffset`, as a picture. */
    method ShowChar(x: U16, y: U16, charToShow: U8, font: Font, color: Color)
      requires Valid() && GlyphFits(charToShow, font)
      modifies imageBw, imageRed
      ensures AllInRange(Layout(), Glyph(resolutionX, resolutionY, x, y, charToShow, font))
      ensures Contents() == PlotAll(old(Contents()), Layout(), Glyph(resolutionX, resolutionY, x, y, charToShow, font), color)
    {
      var charOffset := GlyphOffset(charToShow, font);
      ShowPicture(x, y, font.table[charOffset..], font.width, font.hight, color);
    }

    /**
     * `EPD_ShowString`: each character left to right, x advancing by the
     * font's distance after each; a missing string draws nothing.
     */
    method ShowString(x: U16, y: U16, stringToShow: Option<seq<U8>>, font: Font, color: Color)
      requires Valid()
      requires stringToShow.Some? ==> TextFits(stringToShow.value, font)
      modifies imageBw, imageRed
      ensures stringToShow.None? ==> Contents() == old(Contents())
      ensures stringToShow.Some? ==>
        AllInRange(Layout(), Text(resolutionX, resolutionY, x, y, stringToShow.value, font)) &&
        Contents() == PlotAll(old(Contents()), Layout(), Text(resolutionX, resolutionY, x, y, stringToShow.value, font), color)
    {
      if stringToShow.None? {
        return;
      }
      ghost var g := Layout();
      var text := stringToShow.value;
      var curX := x;
      var i := 0;
      ghost var done: seq<Point> := [];
      assert text[..0] == [];
      while i < |text|
        invariant i <= |text| && TextFits(text[..i], font)
        invariant curX == CharX(x, i, font.distanceSize)
        invariant done == Text(resolutionX, resolutionY, x, y, text[..i], font)
        invariant AllInRange(g, done)
        invariant Contents() == PlotAll(old(Contents()), g, done, color)
      {
        var next := i + 1;
        TextNext(resolutionX, resolutionY, x, y, text, i, next, font);
        CharXNext(x, i, next, font.distanceSize, curX);
        ghost var glyph := Glyph(resolutionX, resolutionY, curX, y, text[i], font);
        ShowChar(curX, y, text[i], font, color);
        PlotAllAppend(old(Contents()), g, done, glyph, color);
        AllInRangeAppend(g, done, glyph);
        done := done + glyph;
        curX := (curX + font.distanceSize) % U16_MOD;
        i := next;
      }
      assert text[..i] == text;
    }
  }

  /**
   * `EPD_NewImage`: no image for the guard orientation or the guard colour;
   * otherwise planes shaped by the orientation and flooded with the colour.
   */
  method NewImage(resolutionX: U16, resolutionY: U16, orientation: Orientation, color: Color) returns (image: Image?)
    ensures image == null <==> orientation == OrientationLast || color == ColorLast
    ensures image != null ==>
      fresh(image) && fresh(image.imageBw) && fresh(image.imageRed) && image.Valid() &&
      image.resolutionX == resolutionX && image.resolutionY == resolutionY && image.orientation == orientation &&
      Shape(image.rowsCount, image.columnsCount) == ShapeOf(orientation, resolutionX, resolutionY) &&
      image.Contents() == Filled(image.imageSize, color)
  {
    if orientation == OrientationLast || color == ColorLast {
      return null;
    }
    image := new Image(resolutionX, resolutionY, orientation, color);
  }

  /** `EPD_DeleteImage`: fails only on a missing image; the memory is not modelled. */
  method DeleteImage(image: Image?) returns (ok: bool)
    ensures ok <==> image != null
  {
    if image == null {
      return false;
    }
    return true;
  }

  /** `EPD_Fill`: floods both planes, unless the image is missing or the colour is the guard. */
  method Fill(image: Image?, color: Color)
    requires image != null ==> image.Valid()
    modifies if image != null then {image.imageBw, image.imageRed} else {}
    ensures image != null && color != ColorLast ==> image.Contents() == Filled(image.imageSize, color)
    ensures image != null && color == ColorLast ==> image.Contents() == old(image.Contents())
  {
    if image == null || color == ColorLast {
      return;
    }
    Memset(image.imageBw, FillBw(color));
    Memset(image.imageRed, FillRed(color));
  }
}
