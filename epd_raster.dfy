/**
 * The points that `EPD_DrawLine` and `EPD_DrawRectangle` draw, in the
 * order they draw them.
 */
module EpdRaster {
  import opened EpdTypes
  import opened EpdAddress
  import opened EpdPlanes

  /** A line from (x1, y1) to (x2, y2), with the loop constants of `EPD_DrawLine`. */
  datatype Segment = Segment(x1: U16, y1: U16, x2: U16, y2: U16) {
    /** The horizontal extent, never negative. */
    function Dx(): int {
      if x2 - x1 >= 0 then x2 - x1 else x1 - x2
    }
    /** The vertical extent, never positive. */
    function Dy(): int {
      if y2 - y1 <= 0 then y2 - y1 else y1 - y2
    }
    function XStep(): int {
      if x1 < x2 then 1 else -1
    }
    function YStep(): int {
      if y1 < y2 then 1 else -1
    }
  }

  /** `v` lies between `a` and `b`, in either order. */
  predicate Between(v: int, a: int, b: int) {
    if a <= b then a <= v <= b else b <= v <= a
  }

  function Dist(a: int, b: int): nat {
    if a <= b then b - a else a - b
  }

  function Min(a: int, b: int): int {
    if a <= b then a else b
  }

  function Max(a: int, b: int): int {
    if a <= b then b else a
  }

  /** The variables of the line loop: the current point and the error term. */
  datatype Cursor = Cursor(x: int, y: int, esp: int)

  /** How far the current point still is from the endpoint, in steps. */
  function Remaining(s: Segment, c: Cursor): nat {
    Dist(c.x, s.x2) + Dist(c.y, s.y2)
  }

  /**
   * A loop state the line loop can reach: the current point lies in the
   * bounding box of the endpoints and the error term stays within
   * [2 * dy, 2 * dx], so `2 * esp` always fits an `int32_t`.
   */
  predicate Reachable(s: Segment, c: Cursor) {
    Between(c.x, s.x1, s.x2) && Between(c.y, s.y1, s.y2) && 2 * s.Dy() <= c.esp <= 2 * s.Dx()
  }

  /** In a reachable state the doubled error term fits the source's `int32_t`. */
  lemma ErrorFitsInt32(s: Segment, c: Cursor)
    requires Reachable(s, c)
    ensures -0x8000_0000 <= 2 * c.esp < 0x8000_0000
  {
  }

  /**
   * One pass of the `for (;;)` loop of `EPD_DrawLine` after it has drawn
   * the current point: at most an x step, then at most a y step; a test
   * that finds its coordinate at the endpoint ends the loop (`None`). The
   * second test reads the error term after the first step has changed it.
   */
  function Pass(s: Segment, c: Cursor): Option<Cursor> {
    var stepX := 2 * c.esp >= s.Dy();
    if stepX && c.x == s.x2 then None
    else
      var x', esp' := if stepX then c.x + s.XStep() else c.x, if stepX then c.esp + s.Dy() else c.esp;
      if 2 * esp' <= s.Dx() then
        if c.y == s.y2 then None else Some(Cursor(x', c.y + s.YStep(), esp' + s.Dx()))
      else Some(Cursor(x', c.y, esp'))
  }

  /**
   * A pass that goes on from a reachable state reaches a reachable state
   * closer to the endpoint: the loop keeps its invariant and ends.
   */
  lemma PassReachable(s: Segment, c: Cursor)
    requires Reachable(s, c)
    ensures Pass(s, c).Some? ==> Reachable(s, Pass(s, c).value) && Remaining(s, Pass(s, c).value) < Remaining(s, c)
  {
  }

  /** The points the line loop draws from the state `c` on. */
  function LineFrom(s: Segment, c: Cursor): (pts: seq<Point>)
    requires Reachable(s, c)
    ensures |pts| >= 1 && pts[0] == Point(c.x, c.y)
    decreases Remaining(s, c)
  {
    match Pass(s, c)
    case None => [Point(c.x, c.y)]
    case Some(next) =>
      PassReachable(s, c);
      [Point(c.x, c.y)] + LineFrom(s, next)
  }

  /**
   * A pass of the line loop that goes on to `next`: what is drawn so far,
   * then the rest of the line from `next`, is what was drawn before the
   * pass and the rest of the line from `c`.
   */
  lemma LineGoesOn(s: Segment, c: Cursor, next: Cursor, drawn: seq<Point>)
    requires Reachable(s, c) && Pass(s, c) == Some(next)
    ensures Reachable(s, next) && Remaining(s, next) < Remaining(s, c)
    ensures (drawn + [Point(c.x, c.y)]) + LineFrom(s, next) == drawn + LineFrom(s, c)
  {
    PassReachable(s, c);
    AppendAssoc(drawn, [Point(c.x, c.y)], LineFrom(s, next));
  }

  /** A pass of the line loop that ends in one of its tests has drawn the whole rest of the line. */
  lemma LineStops(s: Segment, c: Cursor, drawn: seq<Point>)
    requires Reachable(s, c) && Pass(s, c).None?
    ensures drawn + [Point(c.x, c.y)] == drawn + LineFrom(s, c)
  {
  }

  /** The loop's first state: the first endpoint, error term dx + dy. */
  function Start(s: Segment): (c: Cursor)
    ensures Reachable(s, c)
  {
    Cursor(s.x1, s.y1, s.Dx() + s.Dy())
  }

  /** The points `EPD_DrawLine` draws, from its first point on. */
  function Line(s: Segment): (pts: seq<Point>)
    ensures |pts| >= 1 && pts[0] == Point(s.x1, s.y1)
  {
    LineFrom(s, Start(s))
  }

  /** Every point the line loop draws from a reachable state lies in the bounding box. */
  lemma {:induction false} LineFromInBox(s: Segment, c: Cursor)
    requires Reachable(s, c)
    ensures forall j | 0 <= j < |LineFrom(s, c)| ::
      Between(LineFrom(s, c)[j].x, s.x1, s.x2) && Between(LineFrom(s, c)[j].y, s.y1, s.y2)
    decreases Remaining(s, c)
  {
    if Pass(s, c).Some? {
      PassReachable(s, c);
      LineFromInBox(s, Pass(s, c).value);
    }
  }

  /** Every point of a line lies in the bounding box of its endpoints. */
  lemma LineInBox(s: Segment)
    ensures forall j | 0 <= j < |Line(s)| :: Between(Line(s)[j].x, s.x1, s.x2) && Between(Line(s)[j].y, s.y1, s.y2)
  {
    LineFromInBox(s, Start(s));
  }

  /** A line whose endpoints are in range draws only points in range. */
  lemma LineInRange(g: Geometry, s: Segment)
    requires s.x1 < g.resX && s.x2 < g.resX && s.y1 < g.resY && s.y2 < g.resY
    ensures AllInRange(g, Line(s))
  {
    LineInBox(s);
  }

  /** The pixels of row `y` from `from` to `to` inclusive, in that order. */
  function Row(from: int, to: int, y: int): (pts: seq<Point>)
    ensures |pts| == Dist(from, to) + 1
    decreases Dist(from, to)
  {
    if from == to then [Point(from, y)]
    else [Point(from, y)] + Row(if from < to then from + 1 else from - 1, to, y)
  }

  /** The pixels of column `x` from `from` to `to` inclusive, in that order. */
  function Column(x: int, from: int, to: int): (pts: seq<Point>)
    ensures |pts| == Dist(from, to) + 1
    decreases Dist(from, to)
  {
    if from == to then [Point(x, from)]
    else [Point(x, from)] + Column(x, if from < to then from + 1 else from - 1, to)
  }

  /** A row holds exactly the points of its row between its ends. */
  lemma {:induction false} RowMembers(from: int, to: int, y: int, pt: Point)
    ensures pt in Row(from, to, y) <==> pt.y == y && Between(pt.x, from, to)
    decreases Dist(from, to)
  {
    if from != to {
      RowMembers(if from < to then from + 1 else from - 1, to, y, pt);
    }
  }

  /** A column holds exactly the points of its column between its ends. */
  lemma {:induction false} ColumnMembers(x: int, from: int, to: int, pt: Point)
    ensures pt in Column(x, from, to) <==> pt.x == x && Between(pt.y, from, to)
    decreases Dist(from, to)
  {
    if from != to {
      ColumnMembers(x, if from < to then from + 1 else from - 1, to, pt);
    }
  }

  lemma {:induction false} HorizontalFrom(s: Segment, x: int)
    requires s.y1 == s.y2 && Between(x, s.x1, s.x2)
    ensures Reachable(s, Cursor(x, s.y1, s.Dx()))
    ensures LineFrom(s, Cursor(x, s.y1, s.Dx())) == Row(x, s.x2, s.y1)
    decreases Dist(x, s.x2)
  {
    if x != s.x2 {
      HorizontalFrom(s, x + s.XStep());
    }
  }

  /**
   * A horizontal line draws every pixel of its row from x1 to x2, in
   * either direction, each once and in order, and nothing else.
   */
  lemma HorizontalLine(s: Segment)
    requires s.y1 == s.y2
    ensures Line(s) == Row(s.x1, s.x2, s.y1)
  {
    HorizontalFrom(s, s.x1);
  }

  lemma {:induction false} VerticalFrom(s: Segment, y: int)
    requires s.x1 == s.x2 && Between(y, s.y1, s.y2)
    ensures Reachable(s, Cursor(s.x1, y, s.Dy()))
    ensures LineFrom(s, Cursor(s.x1, y, s.Dy())) == Column(s.x1, y, s.y2)
    decreases Dist(y, s.y2)
  {
    if y != s.y2 {
      VerticalFrom(s, y + s.YStep());
    }
  }

  /** A vertical line draws every pixel of its column from y1 to y2, and nothing else. */
  lemma VerticalLine(s: Segment)
    requires s.x1 == s.x2
    ensures Line(s) == Column(s.x1, s.y1, s.y2)
  {
    VerticalFrom(s, s.y1);
  }

  /** A line whose endpoints coincide draws that one point. */
  lemma PointLine(x: U16, y: U16)
    ensures Line(Segment(x, y, x, y)) == [Point(x, y)]
  {
    HorizontalLine(Segment(x, y, x, y));
  }

  /**
   * A diagonal line need not reach its endpoint: from (0, 0) to (2, 1) the
   * loop draws (0, 0) and (1, 1) and stops, because its y test reads the
   * error term its x step has just changed.
   */
  lemma DiagonalMissesEndpoint()
    ensures Line(Segment(0, 0, 2, 1)) == [Point(0, 0), Point(1, 1)]
    ensures Point(2, 1) !in Line(Segment(0, 0, 2, 1))
  {
    var s := Segment(0, 0, 2, 1);
    var first, second := Cursor(0, 0, 1), Cursor(1, 1, 2);
    assert s.Dx() == 2 && s.Dy() == -1 && Start(s) == first;
    assert Pass(s, first) == Some(second);
    assert Reachable(s, second) && Pass(s, second) == None;
    assert LineFrom(s, second) == [Point(1, 1)];
    assert LineFrom(s, first) == [Point(0, 0), Point(1, 1)];
  }

  /** The horizontal lines that the filled rectangle draws for rows y1 up to, not including, `y`. */
  function FilledRows(x1: U16, x2: U16, y1: U16, y: U16): (pts: seq<Point>)
    decreases y - y1
  {
    if y <= y1 then [] else FilledRows(x1, x2, y1, y - 1) + Line(Segment(x1, y - 1, x2, y - 1))
  }

  /** One more row of the filled rectangle. */
  lemma FilledRowsNext(x1: U16, x2: U16, y1: U16, y: U16, next: U16)
    requires y1 <= y && next == y + 1
    ensures FilledRows(x1, x2, y1, next) == FilledRows(x1, x2, y1, y) + Line(Segment(x1, y, x2, y))
  {
  }

  /**
   * The points `EPD_DrawRectangle` draws: the rows y1 <= y < y2 when filled,
   * else its four edges as four lines.
   */
  function Rectangle(x1: U16, y1: U16, x2: U16, y2: U16, filled: bool): seq<Point> {
    if filled then FilledRows(x1, x2, y1, y2)
    else
      Line(Segment(x1, y1, x2, y1)) + Line(Segment(x1, y1, x1, y2)) +
      Line(Segment(x2, y2, x2, y1)) + Line(Segment(x2, y2, x1, y2))
  }

  lemma {:induction false} FilledRowsMembers(x1: U16, x2: U16, y1: U16, y: U16, pt: Point)
    ensures pt in FilledRows(x1, x2, y1, y) <==> y1 <= pt.y < y && Between(pt.x, x1, x2)
    decreases y - y1
  {
    if y > y1 {
      FilledRowsMembers(x1, x2, y1, y - 1, pt);
      HorizontalLine(Segment(x1, y - 1, x2, y - 1));
      RowMembers(x1, x2, y - 1, pt);
    }
  }

  /**
   * A filled rectangle covers the rows y1 <= y < y2 (the row y2 is left
   * out), each from x1 to x2 inclusive; with y1 >= y2 it covers nothing.
   */
  lemma FilledRectangle(x1: U16, y1: U16, x2: U16, y2: U16, pt: Point)
    ensures pt in Rectangle(x1, y1, x2, y2, true) <==> y1 <= pt.y < y2 && Between(pt.x, x1, x2)
  {
    FilledRowsMembers(x1, x2, y1, y2, pt);
  }

  /** An outline covers exactly its four edges, corners included. */
  lemma OutlineRectangle(x1: U16, y1: U16, x2: U16, y2: U16, pt: Point)
    ensures pt in Rectangle(x1, y1, x2, y2, false) <==>
      ((pt.y == y1 || pt.y == y2) && Between(pt.x, x1, x2)) ||
      ((pt.x == x1 || pt.x == x2) && Between(pt.y, y1, y2))
  {
    HorizontalLine(Segment(x1, y1, x2, y1));
    RowMembers(x1, x2, y1, pt);
    VerticalLine(Segment(x1, y1, x1, y2));
    ColumnMembers(x1, y1, y2, pt);
    VerticalLine(Segment(x2, y2, x2, y1));
    ColumnMembers(x2, y2, y1, pt);
    HorizontalLine(Segment(x2, y2, x1, y2));
    RowMembers(x2, x1, y2, pt);
  }

  /** The bounds under which `EPD_DrawRectangle` stays inside the resolution. */
  predicate RectangleFits(g: Geometry, x1: U16, y1: U16, x2: U16, y2: U16, filled: bool) {
    if filled then y1 < y2 ==> x1 < g.resX && x2 < g.resX && y2 <= g.resY
    else x1 < g.resX && x2 < g.resX && y1 < g.resY && y2 < g.resY
  }

  /** A rectangle that fits draws only points in range. */
  lemma RectangleInRange(g: Geometry, x1: U16, y1: U16, x2: U16, y2: U16, filled: bool)
    requires RectangleFits(g, x1, y1, x2, y2, filled)
    ensures AllInRange(g, Rectangle(x1, y1, x2, y2, filled))
  {
    var pts := Rectangle(x1, y1, x2, y2, filled);
    forall j | 0 <= j < |pts|
      ensures InRange(g, pts[j])
    {
      if filled {
        FilledRectangle(x1, y1, x2, y2, pts[j]);
      } else {
        OutlineRectangle(x1, y1, x2, y2, pts[j]);
      }
    }
  }
}
