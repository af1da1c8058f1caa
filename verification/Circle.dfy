/** pw_draw's DrawCircle: an integer error term walks one quarter of the circle,
    and four-fold symmetry supplies the rest. */
module CircleRaster {
  import opened Framebuffers

  /** The loop variables of DrawCircle. `x` runs from -radius up to 0. */
  datatype Arc = Arc(x: int, y: int, error: int) {
    /** One iteration after the pixels have been set; `r` is what the source keeps in `radius`. */
    function Next(): Arc {
      var r := error;
      var (y1, e1) := if r <= y then (y + 1, error + (y + 1) * 2 + 1) else (y, error);
      if r > x || e1 > y1 then Arc(x + 1, y1, e1 + (x + 1) * 2 + 1) else Arc(x, y1, e1)
    }
  }

  function Start(radius: int): Arc {
    Arc(-radius, 0, 2 - 2 * radius)
  }

  function Square(i: int): int {
    i * i
  }

  /** x^2 + y^2 - R^2: how far (squared) a point is from the ideal circle. */
  function Excess(x: int, y: int, radius: int): int {
    Square(x) + Square(y) - Square(radius)
  }

  /** The largest excess that a pixel of a filled circle has: just below its larger coordinate,
      and one less on the diagonals. */
  function Reach(s: nat, t: nat): int {
    if s == t then t - 2 else Max(s, t) - 1
  }

  /** Within the larger of its two coordinates of the ideal circle (in squared distance). */
  predicate Near(s: nat, t: nat, excess: int) {
    -Max(s, t) <= excess <= Reach(s, t)
  }

  /** The loop invariant: the error term looks one diagonal step ahead, and the point is
      near the ideal circle. */
  predicate OnCircle(a: Arc, radius: int) {
    && 0 < radius && -radius <= a.x <= 0 && 0 <= a.y
    && a.error == Excess(a.x + 1, a.y + 1, radius)
    && Near(-a.x, a.y, Excess(a.x, a.y, radius))
  }

  lemma StartIsOnCircle(radius: int)
    requires 0 < radius
    ensures OnCircle(Start(radius), radius)
  {
  }

  lemma ExcessAhead(x: int, y: int, radius: int)
    ensures Excess(x + 1, y, radius) == Excess(x, y, radius) + 2 * x + 1
    ensures Excess(x, y + 1, radius) == Excess(x, y, radius) + 2 * y + 1
  {
  }

  lemma NextIsOnCircle(a: Arc, radius: int)
    requires OnCircle(a, radius) && a.x < 0
    ensures var b := a.Next();
            && OnCircle(b, radius)
            && a.x <= b.x <= a.x + 1 && a.y <= b.y <= a.y + 1 && b != a
  {
    hide Excess;
    ExcessAhead(a.x, a.y, radius);
    ExcessAhead(a.x + 1, a.y, radius);
    ExcessAhead(a.x, a.y + 1, radius);
    ExcessAhead(a.x + 1, a.y + 1, radius);
    ExcessAhead(a.x + 2, a.y + 1, radius);
    ExcessAhead(a.x + 1, a.y + 2, radius);
  }

  lemma SquareMono(a: int, b: nat)
    ensures 0 <= a <= b ==> Square(a) <= Square(b)
    ensures 0 <= Square(a) == Square(-a)
  {
    if 0 <= a <= b {
      MulMono(a, b, a);
      MulMono(a, b, b);
    }
  }

  /** The walk never climbs above the radius, and reaches the axis only at (0, radius). */
  lemma WalkEndsOnAxis(a: Arc, radius: int)
    requires OnCircle(a, radius)
    ensures a.y <= radius
    ensures a.x == 0 ==> a.y == radius
  {
    SquareMono(a.x, 0);
    ExcessAhead(0, radius, radius);
    ExcessAhead(0, a.y, a.y);
    SquareMono(radius + 1, a.y);
    SquareMono(a.y + 1, radius);
    MulMono(radius + 1, a.y, a.y);
    MulMono(radius + 1, a.y, radius);
  }

  /** No intermediate value of the error term leaves four radii, so int never overflows. */
  lemma ErrorStaysSmall(a: Arc, radius: int)
    requires OnCircle(a, radius) && a.x < 0
    ensures -3 * radius <= a.error <= 3 * radius + 1
    ensures a.error <= a.y ==> a.error + 2 * (a.y + 1) + 1 <= 3 * radius + 3
  {
    WalkEndsOnAxis(a, radius);
    ExcessAhead(a.x, a.y, radius);
    ExcessAhead(a.x + 1, a.y, radius);
  }

  /** The successive loop states for which pixels are set. */
  function Walk(a: Arc, radius: int): (arcs: seq<Arc>)
    requires OnCircle(a, radius)
    ensures forall b :: b in arcs ==> OnCircle(b, radius) && b.x < 0
    decreases -a.x + (radius - a.y)
  {
    if a.x >= 0 then []
    else
      WalkEndsOnAxis(a, radius);
      NextIsOnCircle(a, radius);
      [a] + Walk(a.Next(), radius)
  }

  function Arcs(radius: int): (arcs: seq<Arc>)
    ensures forall b :: b in arcs ==> OnCircle(b, radius) && b.x < 0
  {
    if radius <= 0 then [] else StartIsOnCircle(radius); Walk(Start(radius), radius)
  }

  // ---- The pixels ----

  /** Lower right and upper left spans. */
  function RowSpans(centerX: int, centerY: int, y: int, i: int, last: int): seq<Point>
    decreases last - i + 1
  {
    if i > last then []
    else [Point(centerX - i, centerY + y), Point(centerX + i, centerY - y)] + RowSpans(centerX, centerY, y, i + 1, last)
  }

  /** Lower left and upper right spans. */
  function ColumnSpans(centerX: int, centerY: int, x: int, i: int, last: int): seq<Point>
    decreases last - i + 1
  {
    if i > last then []
    else [Point(centerX - i, centerY - x), Point(centerX + i, centerY + x)]
         + ColumnSpans(centerX, centerY, x, i + 1, last)
  }

  function ArcPoints(centerX: int, centerY: int, a: Arc, filled: bool): seq<Point> {
    RowSpans(centerX, centerY, a.y, a.x, if filled then 0 else a.x)
    + ColumnSpans(centerX, centerY, a.x, if filled then 0 else a.y, a.y)
  }

  function AllArcPoints(centerX: int, centerY: int, arcs: seq<Arc>, filled: bool): seq<Point> {
    if arcs == [] then []
    else ArcPoints(centerX, centerY, arcs[0], filled) + AllArcPoints(centerX, centerY, arcs[1..], filled)
  }

  function CirclePoints(centerX: int, centerY: int, radius: int, filled: bool): seq<Point> {
    AllArcPoints(centerX, centerY, Arcs(radius), filled)
  }

  /** The four spans (or, for an outline, points) that one loop state draws, as offsets
      from the centre. */
  predicate Covers(a: Arc, filled: bool, u: int, v: int) {
    if filled then
      || (0 <= u <= -a.x && v == a.y) || (a.x <= u <= 0 && v == -a.y)
      || (-a.y <= u <= 0 && v == -a.x) || (0 <= u <= a.y && v == a.x)
    else
      || (u == -a.x && v == a.y) || (u == a.x && v == -a.y)
      || (u == -a.y && v == -a.x) || (u == a.y && v == a.x)
  }

  lemma {:induction false} RowSpansMeaning(centerX: int, centerY: int, y: int, i: int, last: int, q: Point)
    ensures q in RowSpans(centerX, centerY, y, i, last) <==>
            (-last <= q.x - centerX <= -i && q.y - centerY == y) || (i <= q.x - centerX <= last && q.y - centerY == -y)
    decreases last - i + 1
  {
    if i > last {
    } else {
      RowSpansMeaning(centerX, centerY, y, i + 1, last, q);
      var rest := RowSpans(centerX, centerY, y, i + 1, last);
      assert q in [Point(centerX - i, centerY + y), Point(centerX + i, centerY - y)] + rest <==>
             q == Point(centerX - i, centerY + y) || q == Point(centerX + i, centerY - y) || q in rest;
    }
  }

  lemma {:induction false} ColumnSpansMeaning(centerX: int, centerY: int, x: int, i: int, last: int, q: Point)
    ensures q in ColumnSpans(centerX, centerY, x, i, last) <==>
            (-last <= q.x - centerX <= -i && q.y - centerY == -x) || (i <= q.x - centerX <= last && q.y - centerY == x)
    decreases last - i + 1
  {
    if i > last {
    } else {
      ColumnSpansMeaning(centerX, centerY, x, i + 1, last, q);
      var rest := ColumnSpans(centerX, centerY, x, i + 1, last);
      assert q in [Point(centerX - i, centerY - x), Point(centerX + i, centerY + x)] + rest <==>
             q == Point(centerX - i, centerY - x) || q == Point(centerX + i, centerY + x) || q in rest;
    }
  }

  lemma {:induction false} AllArcPointsMeaning(centerX: int, centerY: int, arcs: seq<Arc>, filled: bool, q: Point)
    requires forall a :: a in arcs ==> a.x < 0 <= a.y
    ensures q in AllArcPoints(centerX, centerY, arcs, filled) <==>
            exists a :: a in arcs && Covers(a, filled, q.x - centerX, q.y - centerY)
  {
    if arcs == [] {
    } else {
      hide RowSpans, ColumnSpans;
      var a := arcs[0];
      AllArcPointsMeaning(centerX, centerY, arcs[1..], filled, q);
      RowSpansMeaning(centerX, centerY, a.y, a.x, if filled then 0 else a.x, q);
      ColumnSpansMeaning(centerX, centerY, a.x, if filled then 0 else a.y, a.y, q);
      assert q in ArcPoints(centerX, centerY, a, filled) <==> Covers(a, filled, q.x - centerX, q.y - centerY);
      assert forall b :: b in arcs <==> b == a || b in arcs[1..];
      var u, v := q.x - centerX, q.y - centerY;
      if q in ArcPoints(centerX, centerY, a, filled) {
        assert a in arcs && Covers(a, filled, u, v);
      } else if q in AllArcPoints(centerX, centerY, arcs[1..], filled) {
        var b :| b in arcs[1..] && Covers(b, filled, u, v);
        assert b in arcs;
      }
    }
  }

  lemma CirclePointsMeaning(centerX: int, centerY: int, radius: int, filled: bool, q: Point)
    ensures q in CirclePoints(centerX, centerY, radius, filled) <==>
            exists a :: a in Arcs(radius) && Covers(a, filled, q.x - centerX, q.y - centerY)
  {
    AllArcPointsMeaning(centerX, centerY, Arcs(radius), filled, q);
  }

  // ---- What the whole circle is ----

  lemma SquareRootMono(a: nat, b: nat)
    requires Square(a) <= Square(b)
    ensures a <= b
  {
    SquareMono(b + 1, a);
    ExcessAhead(b, 0, 0);
  }

  lemma WalkUnfolds(a: Arc, radius: int)
    requires OnCircle(a, radius) && a.x < 0
    ensures a.y <= radius
    ensures var b := a.Next();
            && OnCircle(b, radius)
            && a.x <= b.x <= a.x + 1 && a.y <= b.y <= a.y + 1 && b != a
            && Walk(a, radius) == [a] + Walk(b, radius)
  {
    WalkEndsOnAxis(a, radius);
    NextIsOnCircle(a, radius);
  }

  /** The walk visits every row below the radius ... */
  lemma {:induction false} RowVisited(a: Arc, radius: int, v: int) returns (b: Arc)
    requires OnCircle(a, radius) && a.y <= v < radius
    ensures b in Walk(a, radius) && b.y == v
    decreases -a.x + (radius - a.y)
  {
    WalkEndsOnAxis(a, radius);
    WalkUnfolds(a, radius);
    if a.y == v {
      b := a;
    } else {
      b := RowVisited(a.Next(), radius, v);
    }
  }

  /** ... and every column except the axis. */
  lemma {:induction false} ColumnVisited(a: Arc, radius: int, u: int) returns (b: Arc)
    requires OnCircle(a, radius) && 0 < u <= -a.x
    ensures b in Walk(a, radius) && b.x == -u
    decreases -a.x + (radius - a.y)
  {
    WalkUnfolds(a, radius);
    if a.x == -u {
      b := a;
    } else {
      b := ColumnVisited(a.Next(), radius, u);
    }
  }

  /** A point well inside the circle lies under any loop state on its row or column. */
  lemma InsideIsUnder(a: Arc, radius: int, s: nat, t: nat)
    requires OnCircle(a, radius) && Excess(s, t, radius) <= -radius
    ensures t == a.y ==> s <= -a.x
    ensures t == -a.x ==> s <= a.y
  {
    WalkEndsOnAxis(a, radius);
    SquareMono(-a.x, 0);
    if t == a.y {
      SquareRootMono(s, -a.x);
    } else if t == -a.x {
      SquareRootMono(s, a.y);
    }
  }

  /** A filled circle leaves no holes: every offset with u^2 + v^2 <= R^2 - R is drawn. */
  lemma FilledCircleCoversDisc(radius: int, u: int, v: int)
    requires 0 < radius && Excess(u, v, radius) <= -radius
    ensures exists a :: a in Arcs(radius) && Covers(a, true, u, v)
  {
    var start := Start(radius);
    StartIsOnCircle(radius);
    var s, t := if u < 0 then -u else u, if v < 0 then -v else v;
    SquareMono(u, 0);
    SquareMono(v, 0);
    assert t < radius by {
      SquareMono(radius, t);
    }
    var a: Arc;
    if (u >= 0 && v >= 0) || (u <= 0 && v <= 0) {
      a := RowVisited(start, radius, t);
    } else {
      a := ColumnVisited(start, radius, t);
    }
    InsideIsUnder(a, radius, s, t);
    assert a in Arcs(radius) && Covers(a, true, u, v);
  }

  /** Neither form of circle draws anything with u^2 + v^2 >= R^2 + R. */
  lemma CircleStaysInside(radius: int, filled: bool, a: Arc, u: int, v: int)
    requires a in Arcs(radius) && Covers(a, filled, u, v)
    ensures Excess(u, v, radius) < radius
  {
    WalkEndsOnAxis(a, radius);
    SquareMono(u, 0);
    SquareMono(v, 0);
    SquareMono(a.x, 0);
    SquareMono(if u < 0 then -u else u, -a.x);
    SquareMono(if u < 0 then -u else u, a.y);
  }

  /** Every outline point is within max(|u|, |v|) of the circle in squared distance. */
  lemma OutlineIsAccurate(radius: int, a: Arc, u: int, v: int)
    requires a in Arcs(radius) && Covers(a, false, u, v)
    ensures var m := Max(Max(u, -u), Max(v, -v));
            && 0 < m <= radius
            && -m <= Excess(u, v, radius) <= m - 1
            && Square(radius - 1) < Square(u) + Square(v) < Square(radius + 1)
  {
    WalkEndsOnAxis(a, radius);
    SquareMono(a.x, 0);
    SquareMono(a.y, 0);
    ExcessAhead(radius, 0, radius);
    ExcessAhead(radius - 1, 0, radius);
  }

  /** A quarter turn about the centre. */
  function Rotate(p: Point): Point {
    Point(-p.y, p.x)
  }

  function RotateAll(ps: seq<Point>): seq<Point> {
    seq(|ps|, i requires 0 <= i < |ps| => Rotate(ps[i]))
  }

  /** The lower right quarter of the outline, walked from (R, 0) towards (0, R). */
  function Quarter(arcs: seq<Arc>): seq<Point> {
    seq(|arcs|, i requires 0 <= i < |arcs| => Point(-arcs[i].x, arcs[i].y))
  }

  /** Four turned copies of a quarter, one after another. */
  function Turned(q1: seq<Point>): seq<Point> {
    var q2 := RotateAll(q1);
    var q3 := RotateAll(q2);
    q1 + q2 + q3 + RotateAll(q3)
  }

  /** The whole outline in walking order. */
  function Outline(radius: int): seq<Point> {
    Turned(Quarter(Arcs(radius)))
  }

  lemma {:induction false} QuarterIsConnected(a: Arc, radius: int)
    requires OnCircle(a, radius) && a.x < 0
    ensures var q := Quarter(Walk(a, radius));
            && 0 < |q| && q[0] == Point(-a.x, a.y)
            && Chain(q)
            && Adjacent(q[|q| - 1], Point(0, radius))
    decreases -a.x + (radius - a.y)
  {
    hide OnCircle, Excess, Square;
    WalkUnfolds(a, radius);
    var b := a.Next();
    var q := Quarter(Walk(a, radius));
    if b.x < 0 {
      QuarterIsConnected(b, radius);
      var rest := Quarter(Walk(b, radius));
      assert forall i :: 0 < i < |q| ==> q[i] == rest[i - 1];
    } else {
      WalkEndsOnAxis(b, radius);
      assert Walk(b, radius) == [];
    }
  }

  predicate Chain(ps: seq<Point>) {
    forall i :: 0 <= i < |ps| - 1 ==> Adjacent(ps[i], ps[i + 1])
  }

  lemma ChainConcat(a: seq<Point>, b: seq<Point>)
    requires Chain(a) && Chain(b) && 0 < |a| && 0 < |b| && Adjacent(a[|a| - 1], b[0])
    ensures Chain(a + b)
  {
  }

  lemma TurnedIsClosed(q1: seq<Point>, radius: int)
    requires 0 < |q1| && q1[0] == Point(radius, 0) && Chain(q1)
    requires Adjacent(q1[|q1| - 1], Point(0, radius))
    ensures var ps := Turned(q1);
            0 < |ps| && Chain(ps) && Adjacent(ps[|ps| - 1], ps[0])
  {
    var q2 := RotateAll(q1);
    var q3 := RotateAll(q2);
    var q4 := RotateAll(q3);
    assert Chain(q2);
    assert Chain(q3);
    assert Chain(q4);
    assert Adjacent(q4[|q4| - 1], q1[0]);
    hide Chain;
    ChainConcat(q1, q2);
    ChainConcat(q1 + q2, q3);
    ChainConcat(q1 + q2 + q3, q4);
  }

  /** The outline is a closed curve: each point touches the next one, the last the first. */
  lemma OutlineIsClosed(radius: int)
    requires 0 < radius
    ensures var ps := Outline(radius);
            0 < |ps| && Chain(ps) && Adjacent(ps[|ps| - 1], ps[0])
  {
    StartIsOnCircle(radius);
    QuarterIsConnected(Start(radius), radius);
    TurnedIsClosed(Quarter(Arcs(radius)), radius);
  }

  lemma TurnedMeaning(q: seq<Point>, p: Point)
    ensures p in Turned(q) <==>
            exists o :: o in q && (p == o || p == Rotate(o) || p == Rotate(Rotate(o)) || p == Rotate(Rotate(Rotate(o))))
  {
    var q2 := RotateAll(q);
    var q3 := RotateAll(q2);
    var q4 := RotateAll(q3);
    assert p in Turned(q) <==> p in q || p in q2 || p in q3 || p in q4;
    RotateAllMeaning(q, p);
    RotateAllMeaning(q2, p);
    RotateAllMeaning(q3, p);
    RotateAllMeaning(q, Unrotate(p));
    RotateAllMeaning(q2, Unrotate(p));
    RotateAllMeaning(q, Unrotate(Unrotate(p)));
  }

  function Unrotate(p: Point): Point {
    Point(p.y, -p.x)
  }

  lemma RotateAllMeaning(q: seq<Point>, p: Point)
    ensures p in RotateAll(q) <==> Unrotate(p) in q
  {
    if Unrotate(p) in q {
      var i :| 0 <= i < |q| && q[i] == Unrotate(p);
      assert RotateAll(q)[i] == p;
    }
  }

  lemma QuarterMeaning(arcs: seq<Arc>, o: Point)
    ensures o in Quarter(arcs) <==> exists a :: a in arcs && o == Point(-a.x, a.y)
  {
    if a :| a in arcs && o == Point(-a.x, a.y) {
      var i :| 0 <= i < |arcs| && arcs[i] == a;
      assert Quarter(arcs)[i] == o;
    }
  }

  /** The points drawn for an outline are exactly those of the closed curve. */
  lemma OutlineIsDrawn(radius: int, u: int, v: int)
    ensures Point(u, v) in Outline(radius) <==>
            exists a :: a in Arcs(radius) && Covers(a, false, u, v)
  {
    hide Arcs, Turned, Quarter;
    var arcs, p := Arcs(radius), Point(u, v);
    TurnedMeaning(Quarter(arcs), p);
    QuarterMeaning(arcs, p);
    QuarterMeaning(arcs, Unrotate(p));
    QuarterMeaning(arcs, Rotate(Rotate(p)));
    QuarterMeaning(arcs, Rotate(p));
  }

  /** Turning the outline a quarter about the centre gives the same points. */
  lemma OutlineIsSymmetric(radius: int, p: Point)
    ensures p in Outline(radius) <==> Rotate(p) in Outline(radius)
  {
    hide Outline, Arcs;
    OutlineIsDrawn(radius, p.x, p.y);
    OutlineIsDrawn(radius, -p.y, p.x);
    assert forall a :: a in Arcs(radius) ==> (Covers(a, false, p.x, p.y) <==> Covers(a, false, -p.y, p.x));
  }

  /** A filled circle colours every pixel of its disc ... */
  lemma DiscIsPainted(pic: Picture, centerX: int, centerY: int, radius: int, color: Color, p: Point)
    requires p in pic && Addressable(pic)
    requires 0 < radius && Excess(p.x - centerX, p.y - centerY, radius) <= -radius
    ensures var now := PlotAll(pic, CirclePoints(centerX, centerY, radius, true), color);
            p in now && now[p] == color
  {
    hide PlotAll, CirclePoints, Arcs, Covers, Excess;
    var pts := CirclePoints(centerX, centerY, radius, true);
    PlotAllMeaning(pic, pts, color, p);
    FilledCircleCoversDisc(radius, p.x - centerX, p.y - centerY);
    CirclePointsMeaning(centerX, centerY, radius, true, p);
    assert p in pts && WrapPoint(p) == p;
  }

  /** ... and no circle touches a pixel all of whose uint16_t aliases lie outside. */
  lemma OutsideIsUntouched(pic: Picture, centerX: int, centerY: int, radius: int, filled: bool, color: Color, p: Point)
    requires p in pic
    requires forall q :: WrapPoint(q) == p ==> radius <= Excess(q.x - centerX, q.y - centerY, radius)
    ensures var now := PlotAll(pic, CirclePoints(centerX, centerY, radius, filled), color);
            p in now && now[p] == pic[p]
  {
    hide PlotAll, CirclePoints, Arcs, Covers, Excess, WrapPoint;
    var pts := CirclePoints(centerX, centerY, radius, filled);
    PlotAllMeaning(pic, pts, color, p);
    forall q | q in pts
      ensures WrapPoint(q) != p
    {
      CirclePointsMeaning(centerX, centerY, radius, filled, q);
      var a :| a in Arcs(radius) && Covers(a, filled, q.x - centerX, q.y - centerY);
      CircleStaysInside(radius, filled, a, q.x - centerX, q.y - centerY);
    }
  }

  // ---- The drawing procedure ----

  lemma PlotRowSpans(pic: Picture, centerX: int, centerY: int, y: int, i: int, last: int, color: Color)
    requires i <= last
    ensures PlotAll(pic, RowSpans(centerX, centerY, y, i, last), color)
         == PlotAll(PlotPoint(PlotPoint(pic, Point(centerX - i, centerY + y), color),
                              Point(centerX + i, centerY - y), color),
                    RowSpans(centerX, centerY, y, i + 1, last), color)
  {
    var p, q := Point(centerX - i, centerY + y), Point(centerX + i, centerY - y);
    var rest := RowSpans(centerX, centerY, y, i + 1, last);
    assert [p, q] + rest == [p] + ([q] + rest);
    PlotAllCons(pic, p, [q] + rest, color);
    PlotAllCons(PlotPoint(pic, p, color), q, rest, color);
  }

  lemma PlotColumnSpans(pic: Picture, centerX: int, centerY: int, x: int, i: int, last: int, color: Color)
    requires i <= last
    ensures PlotAll(pic, ColumnSpans(centerX, centerY, x, i, last), color)
         == PlotAll(PlotPoint(PlotPoint(pic, Point(centerX - i, centerY - x), color),
                              Point(centerX + i, centerY + x), color),
                    ColumnSpans(centerX, centerY, x, i + 1, last), color)
  {
    var p, q := Point(centerX - i, centerY - x), Point(centerX + i, centerY + x);
    var rest := ColumnSpans(centerX, centerY, x, i + 1, last);
    assert [p, q] + rest == [p] + ([q] + rest);
    PlotAllCons(pic, p, [q] + rest, color);
    PlotAllCons(PlotPoint(pic, p, color), q, rest, color);
  }

  lemma PlotNoSpans(pic: Picture, centerX: int, centerY: int, d: int, i: int, last: int, color: Color)
    requires last < i
    ensures PlotAll(pic, RowSpans(centerX, centerY, d, i, last), color) == pic
    ensures PlotAll(pic, ColumnSpans(centerX, centerY, d, i, last), color) == pic
  {
  }

  /** The body of the outer loop that sets pixels: two inner loops. */
  method DrawArc(fb: Framebuffer, centerX: int, centerY: int, x: int, y: int, fx: int, fy: int, penColor: Color)
    requires fb.Valid()
    modifies fb.data
    ensures fb.Picture() == PlotAll(old(fb.Picture()), RowSpans(centerX, centerY, y, x, fx)
                                                       + ColumnSpans(centerX, centerY, x, fy, y), penColor)
  {
    hide PlotPoint, PlotAll, RowSpans, ColumnSpans;
    PlotAllConcat(fb.Picture(), RowSpans(centerX, centerY, y, x, fx),
                  ColumnSpans(centerX, centerY, x, fy, y), penColor);
    ghost var goal := PlotAll(fb.Picture(), RowSpans(centerX, centerY, y, x, fx), penColor);
    var i := x;
    while i <= fx
      invariant PlotAll(fb.Picture(), RowSpans(centerX, centerY, y, i, fx), penColor) == goal
    {
      PlotRowSpans(fb.Picture(), centerX, centerY, y, i, fx, penColor);
      fb.SetPixelAt(centerX - i, centerY + y, penColor);
      fb.SetPixelAt(centerX + i, centerY - y, penColor);
      i := i + 1;
    }
    PlotNoSpans(fb.Picture(), centerX, centerY, y, i, fx, penColor);
    goal := PlotAll(fb.Picture(), ColumnSpans(centerX, centerY, x, fy, y), penColor);
    i := fy;
    while i <= y
      invariant PlotAll(fb.Picture(), ColumnSpans(centerX, centerY, x, i, y), penColor) == goal
    {
      PlotColumnSpans(fb.Picture(), centerX, centerY, x, i, y, penColor);
      fb.SetPixelAt(centerX - i, centerY - x, penColor);
      fb.SetPixelAt(centerX + i, centerY + x, penColor);
      i := i + 1;
    }
    PlotNoSpans(fb.Picture(), centerX, centerY, x, i, y, penColor);
  }

  /** What is still to be drawn from loop state `a` on. */
  function Remaining(centerX: int, centerY: int, a: Arc, radius: int, filled: bool): seq<Point>
    requires 0 < radius ==> OnCircle(a, radius)
  {
    if radius <= 0 then [] else AllArcPoints(centerX, centerY, Walk(a, radius), filled)
  }

  lemma PlotRemaining(pic: Picture, centerX: int, centerY: int, a: Arc, radius: int, filled: bool, color: Color)
    requires OnCircle(a, radius) && a.x < 0
    ensures OnCircle(a.Next(), radius)
    ensures PlotAll(pic, Remaining(centerX, centerY, a, radius, filled), color)
         == PlotAll(PlotAll(pic, ArcPoints(centerX, centerY, a, filled), color),
                    Remaining(centerX, centerY, a.Next(), radius, filled), color)
  {
    WalkUnfolds(a, radius);
    PlotAllConcat(pic, ArcPoints(centerX, centerY, a, filled),
                  Remaining(centerX, centerY, a.Next(), radius, filled), color);
  }

  lemma StartHasEverything(centerX: int, centerY: int, radius: int, filled: bool)
    ensures 0 < radius ==> OnCircle(Start(radius), radius)
    ensures Remaining(centerX, centerY, Start(radius), radius, filled) == CirclePoints(centerX, centerY, radius, filled)
  {
    if 0 < radius {
      StartIsOnCircle(radius);
    }
  }

  lemma PlotNothing(pic: Picture, centerX: int, centerY: int, a: Arc, radius: int, filled: bool, color: Color)
    requires 0 < radius ==> OnCircle(a, radius)
    requires a.x >= 0
    ensures PlotAll(pic, Remaining(centerX, centerY, a, radius, filled), color) == pic
  {
  }

  method DrawCircle(fb: Framebuffer, centerX: int, centerY: int, startRadius: int, penColor: Color, filled: bool)
    requires fb.Valid()
    modifies fb.data
    ensures fb.Picture() == PlotAll(old(fb.Picture()), CirclePoints(centerX, centerY, startRadius, filled), penColor)
  {
    hide PlotAll, Remaining, CirclePoints, OnCircle, Excess, Square;
    StartHasEverything(centerX, centerY, startRadius, filled);
    var radius := startRadius;
    var fx, fy := 0, 0;
    var x, y := -radius, 0;
    var errorValue := 2 - 2 * radius;
    ghost var goal := PlotAll(fb.Picture(), CirclePoints(centerX, centerY, startRadius, filled), penColor);
    while x < 0
      invariant 0 < startRadius ==> OnCircle(Arc(x, y, errorValue), startRadius)
      invariant startRadius <= 0 ==> x >= 0
      invariant filled ==> fx == fy == 0
      invariant PlotAll(fb.Picture(), Remaining(centerX, centerY, Arc(x, y, errorValue), startRadius, filled), penColor)
             == goal
      decreases -x + (startRadius - y)
    {
      ghost var a := Arc(x, y, errorValue);
      PlotRemaining(fb.Picture(), centerX, centerY, a, startRadius, filled, penColor);
      WalkUnfolds(a, startRadius);
      if !filled {
        fx := x;
        fy := y;
      }
      assert ArcPoints(centerX, centerY, a, filled)
          == RowSpans(centerX, centerY, y, x, fx) + ColumnSpans(centerX, centerY, x, fy, y);
      DrawArc(fb, centerX, centerY, x, y, fx, fy, penColor);
      radius := errorValue;
      if radius <= y {
        y := y + 1;
        errorValue := errorValue + (y * 2 + 1);
      }
      if radius > x || errorValue > y {
        x := x + 1;
        errorValue := errorValue + (x * 2 + 1);
      }
      assert Arc(x, y, errorValue) == a.Next();
    }
    PlotNothing(fb.Picture(), centerX, centerY, Arc(x, y, errorValue), startRadius, filled, penColor);
  }
}
