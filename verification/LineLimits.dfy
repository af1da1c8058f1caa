/** Exactly when the 16-bit temporaries of DrawLine do no harm. */
module LineLimits {
  import opened Framebuffers
  import opened LineRaster

  function Minor(p: Point, steep: bool): int {
    if steep then p.x else p.y
  }

  function Major(p: Point, steep: bool): int {
    if steep then p.y else p.x
  }

  predicate Steep(p: Point, q: Point) {
    Abs(q.y - p.y) > Abs(q.x - p.x)
  }

  function Span(p: Point, q: Point): nat {
    Max(Abs(q.x - p.x), Abs(q.y - p.y))
  }

  /** The points form a line between the first and the last of them. */
  predicate IsLine(pts: seq<Point>) {
    pts != [] &&
    var n, p, q := |pts| - 1, pts[0], pts[|pts| - 1];
    && n == Span(p, q)
    && (forall i :: 0 <= i < n ==> Adjacent(pts[i], pts[i + 1]))
    && (forall i :: 0 <= i <= n ==> Abs(Offset(pts[i], p.x, p.y, q.x, q.y)) <= n)
    && (forall i :: 0 <= i <= n ==> Major(pts[i], Steep(p, q)) == Major(p, Steep(p, q)) + i)
  }

  /** The same vector, from a point with the same uint16_t coordinates. */
  predicate SameEnds(p: Point, q: Point, p': Point, q': Point) {
    WrapPoint(p) == WrapPoint(p') && q.x - p.x == q'.x - p'.x && q.y - p.y == q'.y - p'.y
  }

  /** The points are a line between p and q, as far as a framebuffer can tell. */
  predicate DrawsLine(pts: seq<Point>, p: Point, q: Point) {
    IsLine(pts) && (SameEnds(pts[0], pts[|pts| - 1], p, q) || SameEnds(pts[0], pts[|pts| - 1], q, p))
  }

  predicate Forward(p: Point, q: Point) {
    Major(p, Steep(p, q)) <= Major(q, Steep(p, q))
  }

  /** Swapping the endpoints passes the first through the temporary; along the longer axis
      that must not change it. */
  predicate KeepsSpan(p: Point, q: Point) {
    Forward(p, q) || ToI16(Major(p, Steep(p, q))) == Major(p, Steep(p, q))
  }

  /** Along the shorter axis it must not exchange smaller and larger. */
  predicate KeepsDirection(p: Point, q: Point) {
    if Steep(p, q) then p.x == q.x || (ToI16(p.x) < ToI16(q.x) <==> p.x < q.x)
    else Forward(p, q) || p.y == q.y || (q.y < ToI16(p.y) <==> q.y < p.y)
  }

  /** Half the range is the longest span, but for axis-parallel lines across all of it. */
  predicate Survives(p: Point, q: Point) {
    && KeepsSpan(p, q) && KeepsDirection(p, q)
    && (Span(p, q) <= 32767 || (Span(p, q) == 65535 && (p.x == q.x || p.y == q.y)))
  }

  /** The endpoint with the smaller major coordinate, and the other. */
  function Ordered(p: Point, q: Point): (Point, Point) {
    if Forward(p, q) then (p, q) else (q, p)
  }

  /** The loop variables after the swaps, case by case. */
  lemma SetupCases(p: Point, q: Point)
    ensures Setup(p.x, p.y, q.x, q.y) ==
            if Steep(p, q) then
              if Forward(p, q) then Start(true, p.y, ToI16(p.x), q.y, ToI16(q.x))
              else Start(true, q.y, ToI16(q.x), ToI16(p.y), ToI16(p.x))
            else if Forward(p, q) then Start(false, p.x, p.y, q.x, q.y)
            else Start(false, q.x, q.y, ToI16(p.x), ToI16(p.y))
  {
    ToI16Twice(p.x);
    hide ToI16;
  }

  lemma ToI16Twice(i: int)
    ensures ToI16(ToI16(i)) == ToI16(i)
  {
  }

  /** How often a conversion goes round. */
  function Turns(i: int): int {
    -((i + 32768) / 65536)
  }

  lemma ToI16Turns(i: int)
    ensures ToI16(i) == i + 65536 * Turns(i)
  {
  }

  lemma TurnsKeepWrap(i: int, k: int)
    ensures ToU16(i + 65536 * k) == ToU16(i) && ToI16(i + 65536 * k) == ToI16(i)
  {
    RoundTurns(i, k);
    RoundTurns(i + 32768, k);
  }

  lemma RoundTurns(i: int, k: int)
    ensures (i + 65536 * k) % 65536 == i % 65536
  {
    RowOfIndex(i % 65536, i / 65536 + k, 65536);
  }

  /** The step along the shorter axis, computed from coordinates that have gone round. */
  lemma RiseSurvives(d1: int, d2: int, rise: int, k: int)
    requires -65535 <= rise <= 65535 && d2 - d1 == rise + 65536 * k
    ensures rise == 0 ==> ToI16(Abs(d2 - d1)) == 0
    ensures (d1 < d2 <==> 0 < rise) ==> ToI16(Abs(d2 - d1)) == ToI16(Abs(rise))
  {
    TurnsKeepWrap(Abs(rise), k);
    TurnsKeepWrap(Abs(rise), -k);
    TurnsKeepWrap(0, k);
    TurnsKeepWrap(0, -k);
    assert ToI16(0) == 0;
    hide ToI16, ToU16;
  }

  /** How far the drawing loop has to climb, and which way it goes. */
  predicate Climbs(r: Run, rise: int, survives: bool) {
    if rise == 0 then r.dy == 0
    else if survives then r.dy == ToI16(Abs(rise)) && r.ystep == (if 0 < rise then 1 else -1)
    else r.ystep == if 0 < rise then -1 else 1
  }

  function Rise(p: Point, q: Point): int {
    var (a, b) := Ordered(p, q);
    Minor(b, Steep(p, q)) - Minor(a, Steep(p, q))
  }

  lemma SetupClimbs(p: Point, q: Point)
    requires Span(p, q) <= 65535
    ensures Climbs(Setup(p.x, p.y, q.x, q.y), Rise(p, q), KeepsDirection(p, q))
    ensures !KeepsDirection(p, q) ==> Rise(p, q) != 0
  {
    SetupCases(p, q);
    ToI16Turns(p.x);
    ToI16Turns(q.x);
    ToI16Turns(p.y);
    hide Setup, ToI16, Turns;
    if Steep(p, q) {
      var (a, b) := Ordered(p, q);
      RiseSurvives(ToI16(a.x), ToI16(b.x), Rise(p, q), Turns(b.x) - Turns(a.x));
    } else if Forward(p, q) {
      RiseSurvives(p.y, q.y, Rise(p, q), 0);
    } else {
      RiseSurvives(q.y, ToI16(p.y), Rise(p, q), Turns(p.y));
    }
  }

  lemma SetupRuns(p: Point, q: Point)
    ensures var r := Setup(p.x, p.y, q.x, q.y);
            && r.steep == Steep(p, q) && r.dx == ToI16(r.x2 - r.x) && r.error == Half(r.dx)
            && (r.ystep == 1 || r.ystep == -1)
            && (r.x2 - r.x == Span(p, q) <==> KeepsSpan(p, q))
            && WrapPoint(r.Here()) == WrapPoint(Ordered(p, q).0)
  {
    SetupCases(p, q);
    ToI16Turns(p.x);
    ToI16Turns(q.x);
    TurnsKeepWrap(p.x, Turns(p.x));
    TurnsKeepWrap(q.x, Turns(q.x));
    hide Setup, ToI16, ToU16, Turns;
  }

  // The drawing loop, whatever its variables are.

  lemma {:induction false} TraceShape(r: Run, i: nat)
    requires r.x <= r.x2
    ensures |Trace(r)| == r.x2 - r.x + 1
    ensures i < |Trace(r)| ==>
              && Major(Trace(r)[i], r.steep) == r.x + i
              && (r.ystep == 1 ==> r.y <= Minor(Trace(r)[i], r.steep) <= r.y + i)
              && (r.ystep == -1 ==> r.y - i <= Minor(Trace(r)[i], r.steep) <= r.y)
              && (r.dy == 0 && 0 <= r.error ==> Minor(Trace(r)[i], r.steep) == r.y)
    decreases r.x2 - r.x
  {
    if r.x == r.x2 {
      TraceUnfolds(r.Next());
    } else {
      TraceShape(r.Next(), if i == 0 then 0 else i - 1);
      assert 0 < i < |Trace(r)| ==> Trace(r)[i] == Trace(r.Next())[i - 1];
    }
  }

  /** If the points are a line at all, it goes from the endpoint with the smaller major
      coordinate to the other. */
  lemma LineGoesUp(p: Point, q: Point)
    requires Span(p, q) <= 65535 && KeepsSpan(p, q) && DrawsLine(LinePoints(p.x, p.y, q.x, q.y), p, q)
    ensures var pts, steep := LinePoints(p.x, p.y, q.x, q.y), Steep(p, q);
            && |pts| == Span(p, q) + 1
            && Major(pts[|pts| - 1], steep) - Major(pts[0], steep) == Span(p, q)
            && Minor(pts[|pts| - 1], steep) - Minor(pts[0], steep) == Rise(p, q)
  {
    SetupRuns(p, q);
    TraceShape(Setup(p.x, p.y, q.x, q.y), 0);
    TraceShape(Setup(p.x, p.y, q.x, q.y), Span(p, q));
    hide Setup, Trace, KeepsSpan, IsLine, WrapPoint;
  }

  lemma DrawnSpan(pts: seq<Point>, p: Point, q: Point)
    requires DrawsLine(pts, p, q)
    ensures |pts| == Span(p, q) + 1
  {
    hide Adjacent, Offset, WrapPoint;
  }

  lemma WrongSpan(p: Point, q: Point)
    requires !KeepsSpan(p, q)
    ensures !DrawsLine(LinePoints(p.x, p.y, q.x, q.y), p, q)
  {
    hide Setup, Trace, KeepsSpan, DrawsLine, WrapPoint, Span, Steep;
    SetupRuns(p, q);
    var r := Setup(p.x, p.y, q.x, q.y);
    if DrawsLine(Trace(r), p, q) {
      DrawnSpan(Trace(r), p, q);
      TraceUnfolds(r);
      if r.x <= r.x2 {
        TraceShape(r, 0);
      }
      assert false;
    }
  }

  lemma WrongDirection(p: Point, q: Point)
    requires Span(p, q) <= 65535 && KeepsSpan(p, q) && !KeepsDirection(p, q)
    ensures !DrawsLine(LinePoints(p.x, p.y, q.x, q.y), p, q)
  {
    if DrawsLine(LinePoints(p.x, p.y, q.x, q.y), p, q) {
      LineGoesUp(p, q);
      SetupRuns(p, q);
      SetupClimbs(p, q);
      var r := Setup(p.x, p.y, q.x, q.y);
      TraceShape(r, 0);
      TraceShape(r, Span(p, q));
      hide Setup, Trace, KeepsSpan, KeepsDirection, DrawsLine, WrapPoint, Rise;
      assert false;
    }
  }

  /** Minor steps made in the first two iterations with these differences. */
  function FirstStep(n: int, k: int): int {
    if ToI16(Half(ToI16(n)) - ToI16(k)) < 0 then 1 else 0
  }

  function TwoSteps(n: int, k: int): int {
    var e1 := ToI16(Half(ToI16(n)) - ToI16(k));
    var e2 := ToI16((if e1 < 0 then ToI16(e1 + ToI16(n)) else e1) - ToI16(k));
    FirstStep(n, k) + if e2 < 0 then 1 else 0
  }

  /** Spans of more than half the range make dx negative, and then one of the first two steps
      goes wrong, unless dx is -1 and there is nothing to climb. */
  lemma FirstStepFails(n: int, k: int)
    requires 32768 <= n <= 65535 && 0 <= k <= n && !(n == 65535 && k == 0) && k != (n + 1) / 2
    ensures 2 * Abs(k - FirstStep(n, k) * n) > n
  {
    assert ToI16(n) == n - 65536;
    if k < 32768 {
      assert ToI16(k) == k;
    } else {
      assert ToI16(k) == k - 65536;
    }
  }

  lemma Halves(n: int)
    requires 32768 <= n <= 65535
    ensures Half(n - 65536) == (n + 1) / 2 - 32768
  {
    assert -((n - 65536)) / 2 == 32768 - (n + 1) / 2;
  }

  lemma SecondStepFails(n: int, k: int)
    requires 32768 <= n <= 65535 && k == (n + 1) / 2
    ensures 2 * Abs(2 * k - TwoSteps(n, k) * n) > n
  {
    assert ToI16(n) == n - 65536 && ToI16(-32768 + (n - 65536)) == n - 32768;
    assert Half(n - 65536) == k - 32768 by { Halves(n); }
    if n < 65535 {
      assert ToI16(k) == k && ToI16(k - 32768 - k) == -32768 && ToI16(n - 32768 - k) < 0;
    } else {
      assert ToI16(32768) == -32768 == ToI16(0 + 32768) && ToI16(32767 + 32768) == -1;
    }
    hide ToI16, Half;
  }

  lemma TwoPoints(r: Run, n: int, k: int)
    requires r.x + 2 <= r.x2 && r.dx == ToI16(n) && r.dy == ToI16(k) && r.error == Half(r.dx)
    requires r.ystep == 1 || r.ystep == -1
    ensures |Trace(r)| == r.x2 - r.x + 1
    ensures Minor(Trace(r)[1], r.steep) == Climb(r.y, r.ystep, FirstStep(n, k))
    ensures Minor(Trace(r)[2], r.steep) == Climb(r.y, r.ystep, TwoSteps(n, k))
  {
    TraceStarts(r);
    hide Trace;
    assert ToI16(n) == r.dx && ToI16(k) == r.dy;
    hide ToI16, Half;
  }

  lemma TraceStarts(r: Run)
    requires r.x + 2 <= r.x2
    ensures |Trace(r)| == r.x2 - r.x + 1 && Trace(r)[1] == r.Next().Here() && Trace(r)[2] == r.Next().Next().Here()
  {
    hide Trace, ToI16;
    TraceShape(r, 0);
    TraceUnfolds(r);
    TraceUnfolds(r.Next());
    TraceUnfolds(r.Next().Next());
  }

  /** The distance of a point from a line, from its steps along both axes. */
  lemma OffsetFromSteps(a: Point, b: Point, pt: Point, steep: bool, ystep: int, i: int, m: int, k: int)
    requires ystep == 1 || ystep == -1
    requires Major(pt, steep) == Major(a, steep) + i && Minor(pt, steep) == Climb(Minor(a, steep), ystep, m)
    requires Minor(b, steep) == Climb(Minor(a, steep), ystep, k)
    ensures var n := Major(b, steep) - Major(a, steep);
            Abs(Offset(pt, a.x, a.y, b.x, b.y)) == 2 * Abs(i * k - m * n)
  {
    var (x, y) := if steep then (a.y, a.x) else (a.x, a.y);
    OffsetOfSteps(x, y, ystep, i, m, Major(b, steep) - Major(a, steep), k);
  }

  /** What the first two steps of a line must be. */
  lemma FirstOffsetsOf(r: Run, n: nat, k: nat)
    requires n == r.x2 - r.x && 2 <= n && r.dx == ToI16(n) && r.dy == ToI16(k) && r.error == Half(r.dx)
    requires (r.ystep == 1 || r.ystep == -1) && IsLine(Trace(r)) && |Trace(r)| == n + 1
    requires Minor(Trace(r)[n], r.steep) == Climb(Minor(Trace(r)[0], r.steep), r.ystep, k)
    ensures 2 * Abs(k - FirstStep(n, k) * n) <= n && 2 * Abs(2 * k - TwoSteps(n, k) * n) <= n
  {
    hide Trace, ToI16, Half, FirstStep, TwoSteps, Offset, IsLine;
    TwoPoints(r, n, k);
    TraceShape(r, 0);
    TraceShape(r, 1);
    TraceShape(r, 2);
    TraceShape(r, n);
    var pts := Trace(r);
    LineOffset(pts, 1);
    LineOffset(pts, 2);
    OffsetFromSteps(pts[0], pts[n], pts[1], r.steep, r.ystep, 1, FirstStep(n, k), k);
    OffsetFromSteps(pts[0], pts[n], pts[2], r.steep, r.ystep, 2, TwoSteps(n, k), k);
  }

  lemma FirstOffsets(p: Point, q: Point)
    requires 32768 <= Span(p, q) <= 65535 && KeepsSpan(p, q) && KeepsDirection(p, q)
    requires DrawsLine(LinePoints(p.x, p.y, q.x, q.y), p, q)
    ensures var n, k := Span(p, q), Abs(Rise(p, q));
            && k <= n
            && 2 * Abs(k - FirstStep(n, k) * n) <= n
            && 2 * Abs(2 * k - TwoSteps(n, k) * n) <= n
  {
    hide Setup, Trace, KeepsSpan, KeepsDirection, WrapPoint, Half, FirstStep, TwoSteps, Offset, Adjacent;
    LineGoesUp(p, q);
    SetupRuns(p, q);
    SetupClimbs(p, q);
    assert ToI16(0) == 0;
    hide ToI16;
    assert Abs(Rise(p, q)) <= Span(p, q);
    hide IsLine, Rise;
    FirstOffsetsOf(Setup(p.x, p.y, q.x, q.y), Span(p, q), Abs(Rise(p, q)));
  }

  lemma LineOffset(pts: seq<Point>, i: nat)
    requires IsLine(pts) && i < |pts|
    ensures Abs(Offset(pts[i], pts[0].x, pts[0].y, pts[|pts| - 1].x, pts[|pts| - 1].y)) <= |pts| - 1
  {
    hide Offset, Adjacent;
  }

  lemma WrongSteps(p: Point, q: Point)
    requires 32768 <= Span(p, q) <= 65535 && KeepsSpan(p, q) && KeepsDirection(p, q)
    requires !(Span(p, q) == 65535 && Rise(p, q) == 0)
    ensures !DrawsLine(LinePoints(p.x, p.y, q.x, q.y), p, q)
  {
    hide DrawsLine, LinePoints, KeepsSpan, KeepsDirection, FirstStep, TwoSteps, Rise, Span;
    if DrawsLine(LinePoints(p.x, p.y, q.x, q.y), p, q) {
      var n, k := Span(p, q), Abs(Rise(p, q));
      FirstOffsets(p, q);
      if k == (n + 1) / 2 {
        SecondStepFails(n, k);
      } else {
        FirstStepFails(n, k);
      }
      assert false;
    }
  }

  /** From the normalised line to the line between the endpoints given. */
  lemma NormalIsLine(r: Run)
    requires Normal(r) && (r.steep ==> 0 < r.dx && r.dy < r.dx)
    ensures IsLine(Trace(r))
    ensures var last := Trace(r)[|Trace(r)| - 1];
            && Trace(r)[0] == r.Here()
            && Major(last, r.steep) - Major(r.Here(), r.steep) == r.dx
            && Minor(last, r.steep) == Climb(Minor(r.Here(), r.steep), r.ystep, r.dy)
  {
    hide Trace, Offset, Adjacent;
    NormalLineIsCorrect(r);
  }

  /** A run that never climbs. */
  lemma FlatPoints(r: Run)
    requires r.x <= r.x2 && r.dy == 0 && 0 <= r.error
    ensures |Trace(r)| == r.x2 - r.x + 1
    ensures forall i :: 0 <= i < |Trace(r)| ==>
              Major(Trace(r)[i], r.steep) == r.x + i && Minor(Trace(r)[i], r.steep) == r.y
  {
    TraceShape(r, 0);
    forall i | 0 <= i < |Trace(r)|
      ensures Major(Trace(r)[i], r.steep) == r.x + i && Minor(Trace(r)[i], r.steep) == r.y
    {
      TraceShape(r, i);
    }
  }

  lemma FlatIsLine(r: Run)
    requires r.x <= r.x2 && r.dy == 0 && 0 <= r.error && (r.steep ==> r.x < r.x2)
    ensures IsLine(Trace(r)) && |Trace(r)| == r.x2 - r.x + 1
    ensures forall i :: 0 <= i < |Trace(r)| ==>
              Major(Trace(r)[i], r.steep) == r.x + i && Minor(Trace(r)[i], r.steep) == r.y
  {
    FlatPoints(r);
    hide Trace;
    FlatPointsAreLine(Trace(r), r.steep, r.x, r.y);
  }

  lemma FlatPointsAreLine(pts: seq<Point>, steep: bool, x: int, y: int)
    requires pts != [] && (steep ==> 1 < |pts|)
    requires forall i :: 0 <= i < |pts| ==> Major(pts[i], steep) == x + i && Minor(pts[i], steep) == y
    ensures IsLine(pts)
  {
    forall i | 0 <= i < |pts|
      ensures Abs(Offset(pts[i], pts[0].x, pts[0].y, pts[|pts| - 1].x, pts[|pts| - 1].y)) == 0
    {
      OffsetFromSteps(pts[0], pts[|pts| - 1], pts[i], steep, 1, i, 0, 0);
    }
    hide Offset;
  }

  lemma Small(i: int)
    ensures -32768 <= i <= 32767 ==> ToI16(i) == i
    ensures 0 <= i ==> Half(i) == i / 2
  {
  }

  /** The loop then starts either flat or as it should. */
  lemma SurvivorSetup(p: Point, q: Point)
    requires Survives(p, q)
    ensures var r, rise := Setup(p.x, p.y, q.x, q.y), Rise(p, q);
            && r.steep == Steep(p, q) && r.x2 - r.x == Span(p, q) && (r.steep ==> r.x < r.x2)
            && WrapPoint(r.Here()) == WrapPoint(Ordered(p, q).0)
            && if rise == 0 then r.dy == 0 && 0 <= r.error
               else Normal(r) && (r.steep ==> r.dy < r.dx) && rise == (if r.ystep == 1 then r.dy else -r.dy)
  {
    var rise := Rise(p, q);
    SetupRuns(p, q);
    SetupClimbs(p, q);
    Small(Span(p, q));
    Small(Abs(rise));
    assert ToI16(65535) == -1 && Half(-1) == 0;
    hide Setup, KeepsSpan, KeepsDirection, ToI16, Half, WrapPoint;
    assert Abs(rise) <= Span(p, q) && (Steep(p, q) ==> Abs(rise) < Span(p, q));
    assert Span(p, q) == 65535 ==> rise == 0;
    hide Rise;
  }

  /** The run is a line with the span and rise that are asked for. */
  lemma SurvivorRuns(p: Point, q: Point)
    requires Survives(p, q)
    ensures var pts, steep := LinePoints(p.x, p.y, q.x, q.y), Steep(p, q);
            && IsLine(pts) && WrapPoint(pts[0]) == WrapPoint(Ordered(p, q).0)
            && Major(pts[|pts| - 1], steep) - Major(pts[0], steep) == Span(p, q)
            && Minor(pts[|pts| - 1], steep) - Minor(pts[0], steep) == Rise(p, q)
  {
    hide Setup, Trace, WrapPoint, IsLine, Rise, Survives, Steep, Span;
    SurvivorSetup(p, q);
    if Rise(p, q) == 0 {
      FlatIsLine(Setup(p.x, p.y, q.x, q.y));
    } else {
      NormalIsLine(Setup(p.x, p.y, q.x, q.y));
    }
  }

  lemma SurvivorIsLine(p: Point, q: Point)
    requires Survives(p, q)
    ensures DrawsLine(LinePoints(p.x, p.y, q.x, q.y), p, q)
  {
    hide LinePoints, Survives, IsLine, WrapPoint;
    SurvivorRuns(p, q);
  }

  /** For endpoints no further apart than a 16-bit coordinate can be, DrawLine draws the line
      between them if and only if its temporaries do no harm. */
  lemma LineIsCorrectExactly(p: Point, q: Point)
    requires Span(p, q) <= 65535
    ensures DrawsLine(LinePoints(p.x, p.y, q.x, q.y), p, q) <==> Survives(p, q)
  {
    hide DrawsLine, LinePoints, KeepsSpan, KeepsDirection;
    if !KeepsSpan(p, q) {
      WrongSpan(p, q);
    } else if !KeepsDirection(p, q) {
      WrongDirection(p, q);
    } else if Survives(p, q) {
      SurvivorIsLine(p, q);
    } else {
      WrongSteps(p, q);
    }
  }

  /** Of the two pixels next to the straight line, the nearer one is set, and of two equally near
      the one that is fewer steps from the end with the smaller major coordinate. */
  predicate Nearest(steps: nat, i: nat, n: nat, rise: nat) {
    0 - n <= 2 * (steps * n - i * rise) < n
  }

  /** That leaves one pixel in each column or row. */
  lemma NearestIsUnique(a: nat, b: nat, i: nat, n: nat, rise: nat)
    requires Nearest(a, i, n, rise) && Nearest(b, i, n, rise)
    ensures a == b
  {
    MulMono(a + 1, b, n);
    MulMono(b + 1, a, n);
  }

  /** A line that survives, pixel by pixel: from the end with the smaller major coordinate, one
      step along the major axis at a time, and towards the other end along the minor axis to the
      nearest pixel. */
  lemma PixelsOfLine(p: Point, q: Point, i: nat)
    requires Survives(p, q) && 0 < Span(p, q) && i <= Span(p, q)
    ensures var pts, steep := LinePoints(p.x, p.y, q.x, q.y), Steep(p, q);
            && |pts| == Span(p, q) + 1 && WrapPoint(pts[0]) == WrapPoint(Ordered(p, q).0)
            && Major(pts[i], steep) - Major(pts[0], steep) == i
            && var climbed := Minor(pts[i], steep) - Minor(pts[0], steep);
               && (if 0 <= Rise(p, q) then 0 <= climbed else climbed <= 0)
               && Nearest(Abs(climbed), i, Span(p, q), Abs(Rise(p, q)))
  {
    var r := Setup(p.x, p.y, q.x, q.y);
    hide Setup, WrapPoint, Survives, Steep, Span, Trace, Rise, Nearest;
    SurvivorSetup(p, q);
    if Rise(p, q) == 0 {
      FlatPoints(r);
      FlatIsNearest(i, Span(p, q));
    } else {
      NormalPoint(r, 0);
      NormalPoint(r, i);
    }
  }

  lemma FlatIsNearest(i: nat, n: nat)
    requires 0 < n
    ensures Nearest(0, i, n, 0)
  {
  }

  lemma NormalPoint(r: Run, i: nat)
    requires Normal(r) && 0 < r.dx && i <= r.dx
    ensures |Trace(r)| == r.dx + 1 && (i == 0 ==> Trace(r)[i] == r.Here())
    ensures var climbed := Minor(Trace(r)[i], r.steep) - r.y;
            && Major(Trace(r)[i], r.steep) == r.x + i
            && (if r.ystep == 1 then 0 <= climbed else climbed <= 0)
            && Nearest(Abs(climbed), i, r.dx, r.dy)
  {
    hide Trace, MinorSteps, AfterSteps, Nearest;
    IdealEnds(r);
    TraceIsIdeal(r, 0, r);
    MinorStepsAreNearest(i, r.dx, r.dy);
    assert Trace(r)[i] == IdealPoint(r, 0 + i);
  }

  lemma MinorStepsAreNearest(i: nat, n: nat, rise: nat)
    requires 0 < n
    ensures 0 <= MinorSteps(i, n, rise) && Nearest(MinorSteps(i, n, rise), i, n, rise)
  {
    MinorStepsFit(i, n, rise);
    MulMono(0, i, rise);
    QuotientAtLeast(i * rise + (n - 1) / 2, 0, n);
    hide MinorSteps;
  }

  /** A flat line of 40000 pixels is drawn wrong, and of two short ones at the far right of a
      wide framebuffer the one from right to left is not drawn at all. */
  lemma FarLines()
    ensures !DrawsLine(LinePoints(0, 0, 40000, 0), Point(0, 0), Point(40000, 0))
    ensures DrawsLine(LinePoints(40000, 0, 40010, 0), Point(40000, 0), Point(40010, 0))
    ensures LinePoints(40010, 0, 40000, 0) == []
  {
    LineIsCorrectExactly(Point(0, 0), Point(40000, 0));
    LineIsCorrectExactly(Point(40000, 0), Point(40010, 0));
    TraceUnfolds(Setup(40010, 0, 40000, 0));
    hide DrawsLine, Trace;
  }
}
