/** pw_draw's DrawLine: Bresenham's algorithm with 16-bit temporaries. */
module LineRaster {
  import opened Framebuffers

  type I16 = i: int | -32768 <= i < 32768

  /** The conversion of an int to int16_t. */
  function ToI16(i: int): I16 {
    (i + 32768) % 65536 - 32768
  }

  /** Halving as C does it: towards zero. */
  function Half(i: int): int {
    if i < 0 then -(-i / 2) else i / 2
  }

  /** The variables of DrawLine once its two swaps are done. */
  datatype Run = Run(steep: bool, x: int, y: int, x2: int, dx: I16, dy: I16, ystep: int, error: I16) {
    function Here(): Point {
      if steep then Point(y, x) else Point(x, y)
    }

    /** One iteration of the drawing loop after the pixel has been set. */
    function Next(): Run {
      var e := ToI16(error - dy);
      if e < 0 then this.(x := x + 1, y := y + ystep, error := ToI16(e + dx))
      else this.(x := x + 1, error := e)
    }
  }

  /** The points that the drawing loop sets from here on. */
  function Trace(r: Run): seq<Point>
    decreases r.x2 - r.x + 1
  {
    if r.x > r.x2 then [] else [r.Here()] + Trace(r.Next())
  }

  lemma PlotTrace(pic: Picture, r: Run, c: Color)
    requires r.x <= r.x2
    ensures PlotAll(pic, Trace(r), c) == PlotAll(PlotPoint(pic, r.Here(), c), Trace(r.Next()), c)
  {
    PlotAllCons(pic, r.Here(), Trace(r.Next()), c);
  }

  function Transposed(x1: int, y1: int, x2: int, y2: int): (int, int, int, int) {
    (y1, ToI16(x1), y2, ToI16(x2))
  }

  function Swapped(x1: int, y1: int, x2: int, y2: int): (int, int, int, int) {
    (x2, y2, ToI16(x1), ToI16(y1))
  }

  function Start(steep: bool, x1: int, y1: int, x2: int, y2: int): Run {
    var dx := ToI16(x2 - x1);
    Run(steep, x1, y1, x2, dx, ToI16(Abs(y2 - y1)), if y1 < y2 then 1 else -1, Half(dx))
  }

  function Setup(x1: int, y1: int, x2: int, y2: int): Run {
    var steep := Abs(y2 - y1) > Abs(x2 - x1);
    var (a1, b1, a2, b2) := if steep then Transposed(x1, y1, x2, y2) else (x1, y1, x2, y2);
    var (c1, d1, c2, d2) := if a1 > a2 then Swapped(a1, b1, a2, b2) else (a1, b1, a2, b2);
    Start(steep, c1, d1, c2, d2)
  }

  function LinePoints(x1: int, y1: int, x2: int, y2: int): seq<Point> {
    Trace(Setup(x1, y1, x2, y2))
  }

  /** The drawing loop, from any values of its variables. */
  method DrawRun(fb: Framebuffer, steep: bool, startX: int, startY: int, x2: int,
                 dx: I16, dy: I16, startError: I16, ystep: int, penColor: Color)
    requires fb.Valid()
    modifies fb.data
    ensures fb.Picture() == PlotAll(old(fb.Picture()),
                                    Trace(Run(steep, startX, startY, x2, dx, dy, ystep, startError)), penColor)
  {
    var x1, y1 := startX, startY;
    var errorValue: I16 := startError;
    ghost var r := Run(steep, x1, y1, x2, dx, dy, ystep, errorValue);
    ghost var goal := PlotAll(fb.Picture(), Trace(r), penColor);
    while x1 <= x2
      invariant r == Run(steep, x1, y1, x2, dx, dy, ystep, errorValue)
      invariant PlotAll(fb.Picture(), Trace(r), penColor) == goal
    {
      PlotTrace(fb.Picture(), r, penColor);
      if steep {
        fb.SetPixelAt(y1, x1, penColor);
      } else {
        fb.SetPixelAt(x1, y1, penColor);
      }
      r := r.Next();
      errorValue := ToI16(errorValue - dy);
      if errorValue < 0 {
        y1 := y1 + ystep;
        errorValue := ToI16(errorValue + dx);
      }
      x1 := x1 + 1;
    }
  }

  method DrawLine(fb: Framebuffer, startX: int, startY: int, endX: int, endY: int, penColor: Color)
    requires fb.Valid()
    modifies fb.data
    ensures fb.Picture() == PlotAll(old(fb.Picture()), LinePoints(startX, startY, endX, endY), penColor)
  {
    var x1, y1, x2, y2 := startX, startY, endX, endY;
    var steep := Abs(y2 - y1) > Abs(x2 - x1);
    var temp: I16;
    if steep {
      temp := ToI16(x1); x1 := y1; y1 := temp;
      temp := ToI16(x2); x2 := y2; y2 := temp;
    }
    if x1 > x2 {
      temp := ToI16(x1); x1 := x2; x2 := temp;
      temp := ToI16(y1); y1 := y2; y2 := temp;
    }
    var dx, dy := ToI16(x2 - x1), ToI16(Abs(y2 - y1));
    var ystep := if y1 < y2 then 1 else -1;
    assert Setup(startX, startY, endX, endY) == Run(steep, x1, y1, x2, dx, dy, ystep, Half(dx));
    DrawRun(fb, steep, x1, y1, x2, dx, dy, Half(dx), ystep, penColor);
  }

  // ---- What the error term computes ----

  /** Endpoints and their differences fit the 16-bit temporaries. */
  predicate Fits(x1: int, y1: int, x2: int, y2: int) {
    && ToI16(x1) == x1 && ToI16(y1) == y1 && ToI16(x2) == x2 && ToI16(y2) == y2
    && Abs(x2 - x1) <= 32767 && Abs(y2 - y1) <= 32767
  }

  /** `k * dy / dx` rounded to the nearest integer, halves down: the number of
      minor steps that k major steps call for. */
  function MinorSteps(k: nat, dx: nat, dy: nat): int {
    if dx == 0 then 0 else (k * dy + (dx - 1) / 2) / dx
  }

  /** The error term is half a step minus the signed distance to the ideal line. */
  function ErrorFor(k: nat, c: int, dx: nat, dy: nat): int {
    dx / 2 - k * dy + c * dx
  }

  lemma MinorStepsFit(k: nat, dx: nat, dy: nat)
    requires 0 < dx
    ensures 0 <= ErrorFor(k, MinorSteps(k, dx, dy), dx, dy) < dx
  {
    var n := k * dy + (dx - 1) / 2;
    assert n == (n / dx) * dx + n % dx;
  }

  /** Only one number of minor steps keeps the error term inside [0, dx). */
  lemma MinorStepsUnique(k: nat, c: int, dx: nat, dy: nat)
    requires 0 < dx && 0 <= ErrorFor(k, c, dx, dy) < dx
    ensures c == MinorSteps(k, dx, dy)
  {
    var m := MinorSteps(k, dx, dy);
    MinorStepsFit(k, dx, dy);
    assert ErrorFor(k, c, dx, dy) - ErrorFor(k, m, dx, dy) == (c - m) * dx;
    MulMono(1, c - m, dx);
    MulMono(c - m, -1, dx);
  }

  /** The line once its endpoints are swapped into drawing order. */
  predicate Normal(r: Run) {
    0 <= r.dy <= r.dx && r.x2 == r.x + r.dx && r.error == r.dx / 2 && (r.ystep == 1 || r.ystep == -1)
  }

  /** Where `c` minor steps lead from row `y`. */
  function Climb(y: int, ystep: int, c: int): int {
    if ystep == 1 then y + c else y - c
  }

  /** `r` is what the loop variables must be after k iterations from `r0`. */
  predicate AfterSteps(r0: Run, k: nat, r: Run)
    requires Normal(r0)
  {
    && r.steep == r0.steep && r.x2 == r0.x2 && r.dx == r0.dx && r.dy == r0.dy && r.ystep == r0.ystep
    && r.x == r0.x + k
    && r.y == Climb(r0.y, r0.ystep, MinorSteps(k, r0.dx, r0.dy))
    && r.error == ErrorAfter(k, r0.dx, r0.dy)
  }

  function ErrorAfter(k: nat, dx: nat, dy: nat): int {
    if dx == 0 then 0 else ErrorFor(k, MinorSteps(k, dx, dy), dx, dy)
  }

  /** The test on the error term decides correctly whether the next step is minor too. */
  lemma NextMinorStep(k: nat, dx: nat, dy: nat)
    requires dy <= dx
    ensures 0 <= ErrorAfter(k, dx, dy) <= dx
    ensures var e := ErrorAfter(k, dx, dy) - dy;
            && MinorSteps(k + 1, dx, dy) == MinorSteps(k, dx, dy) + (if e < 0 then 1 else 0)
            && ErrorAfter(k + 1, dx, dy) == (if e < 0 then e + dx else e)
  {
    if 0 < dx {
      var c := MinorSteps(k, dx, dy);
      var e := ErrorFor(k, c, dx, dy) - dy;
      MinorStepsFit(k, dx, dy);
      assert (k + 1) * dy == k * dy + dy;
      assert (c + 1) * dx == c * dx + dx;
      MinorStepsUnique(k + 1, if e < 0 then c + 1 else c, dx, dy);
    }
  }

  /** While the error term is in range, no int16_t conversion in a step changes a value. */
  lemma NextWithoutOverflow(r: Run)
    requires 0 <= r.dy <= r.dx && 0 <= r.error <= r.dx
    ensures var e := r.error - r.dy;
            r.Next() == Run(r.steep, r.x + 1, if e < 0 then r.y + r.ystep else r.y, r.x2,
                            r.dx, r.dy, r.ystep, if e < 0 then e + r.dx else e)
  {
  }

  lemma OneStep(r0: Run, k: nat, r: Run)
    requires Normal(r0) && AfterSteps(r0, k, r)
    ensures AfterSteps(r0, k + 1, r.Next())
    ensures r.Next().y == r.y || r.Next().y == r.y + r0.ystep
  {
    NextMinorStep(k, r0.dx, r0.dy);
    hide MinorSteps;
    NextWithoutOverflow(r);
  }

  /** The k-th point of a normalised line, computed directly. */
  function IdealPoint(r0: Run, k: nat): Point
    requires Normal(r0)
  {
    var x, y := r0.x + k, Climb(r0.y, r0.ystep, MinorSteps(k, r0.dx, r0.dy));
    if r0.steep then Point(y, x) else Point(x, y)
  }

  lemma HereIsIdeal(r0: Run, k: nat, r: Run)
    requires Normal(r0) && AfterSteps(r0, k, r)
    ensures r.Here() == IdealPoint(r0, k) && r.x == r0.x + k && r.x2 == r0.x + r0.dx
  {
    hide MinorSteps, ErrorAfter;
  }

  lemma TraceUnfolds(r: Run)
    ensures Trace(r) == if r.x > r.x2 then [] else [r.Here()] + Trace(r.Next())
  {
  }

  lemma {:induction false} TraceIsIdeal(r0: Run, k: nat, r: Run)
    requires Normal(r0) && AfterSteps(r0, k, r) && k <= r0.dx + 1
    ensures |Trace(r)| == r0.dx + 1 - k
    ensures forall i :: 0 <= i < |Trace(r)| ==> Trace(r)[i] == IdealPoint(r0, k + i)
    decreases r0.dx + 1 - k
  {
    hide Trace, IdealPoint, AfterSteps, Normal;
    HereIsIdeal(r0, k, r);
    TraceUnfolds(r);
    if k > r0.dx {
    } else {
      OneStep(r0, k, r);
      TraceIsIdeal(r0, k + 1, r.Next());
      var rest := Trace(r.Next());
      forall i | 0 <= i < |Trace(r)|
        ensures Trace(r)[i] == IdealPoint(r0, k + i)
      {
        assert i > 0 ==> Trace(r)[i] == rest[i - 1] == IdealPoint(r0, k + 1 + (i - 1));
      }
    }
  }

  /** The setup of a line whose coordinates fit: no conversion changes a value. */
  lemma SetupIsNormal(x1: int, y1: int, x2: int, y2: int)
    requires Fits(x1, y1, x2, y2)
    ensures var r := Setup(x1, y1, x2, y2);
            && Normal(r)
            && r.dx == Max(Abs(x2 - x1), Abs(y2 - y1))
            && r.steep == (Abs(y2 - y1) > Abs(x2 - x1))
            && var p, q := Point(x1, y1), Point(x2, y2);
               var first, last := r.Here(), r.(x := r.x2, y := Climb(r.y, r.ystep, r.dy)).Here();
               (first == p && last == q) || (first == q && last == p)
  {
  }

  /** Twice the (scaled) distance of `p` from the straight line through two points. */
  function Offset(p: Point, x1: int, y1: int, x2: int, y2: int): int {
    2 * ((p.x - x1) * (y2 - y1) - (p.y - y1) * (x2 - x1))
  }

  lemma OffsetFromEitherEnd(p: Point, x1: int, y1: int, x2: int, y2: int)
    ensures Offset(p, x1, y1, x2, y2) == -Offset(p, x2, y2, x1, y1)
  {
  }

  lemma OffsetOfSteps(x: int, y: int, ystep: int, k: int, c: int, dx: int, dy: int)
    requires ystep == 1 || ystep == -1
    ensures var y', yEnd := Climb(y, ystep, c), Climb(y, ystep, dy);
            var d := if ystep == 1 then k * dy - c * dx else c * dx - k * dy;
            && Offset(Point(x + k, y'), x, y, x + dx, yEnd) == 2 * d
            && Offset(Point(y', x + k), y, x, yEnd, x + dx) == -2 * d
  {
  }

  lemma IdealPointIsClose(r0: Run, k: nat)
    requires Normal(r0) && k <= r0.dx
    ensures var first, last := r0.Here(), r0.(x := r0.x2, y := Climb(r0.y, r0.ystep, r0.dy)).Here();
            Abs(Offset(IdealPoint(r0, k), first.x, first.y, last.x, last.y)) <= r0.dx
  {
    if 0 < r0.dx {
      MinorStepsFit(k, r0.dx, r0.dy);
    }
    OffsetOfSteps(r0.x, r0.y, r0.ystep, k, MinorSteps(k, r0.dx, r0.dy), r0.dx, r0.dy);
  }

  lemma FirstAndLastMinorSteps(dx: nat, dy: nat)
    requires 0 < dx
    ensures MinorSteps(0, dx, dy) == 0 && MinorSteps(dx, dx, dy) == dy
  {
    MinorStepsUnique(dx, dy, dx, dy);
    MinorStepsUnique(0, 0, dx, dy);
  }

  lemma IdealEnds(r0: Run)
    requires Normal(r0)
    ensures IdealPoint(r0, 0) == r0.Here() && AfterSteps(r0, 0, r0)
    ensures IdealPoint(r0, r0.dx) == r0.(x := r0.x2, y := Climb(r0.y, r0.ystep, r0.dy)).Here()
  {
    if 0 < r0.dx {
      FirstAndLastMinorSteps(r0.dx, r0.dy);
    }
  }

  lemma IdealNeighbours(r0: Run, k: nat)
    requires Normal(r0)
    ensures Adjacent(IdealPoint(r0, k), IdealPoint(r0, k + 1))
  {
    NextMinorStep(k, r0.dx, r0.dy);
  }

  /** The points of a normalised line. */
  lemma NormalLineIsCorrect(r0: Run)
    requires Normal(r0)
    ensures var pts, last := Trace(r0), r0.(x := r0.x2, y := Climb(r0.y, r0.ystep, r0.dy)).Here();
            && |pts| == r0.dx + 1
            && pts[0] == r0.Here() && pts[r0.dx] == last
            && (forall i :: 0 <= i < r0.dx ==> Adjacent(pts[i], pts[i + 1]))
            && (forall i :: 0 <= i <= r0.dx ==> Abs(Offset(pts[i], pts[0].x, pts[0].y, last.x, last.y)) <= r0.dx)
            && (forall i :: 0 <= i <= r0.dx ==>
                  if r0.steep then pts[i].y == pts[0].y + i else pts[i].x == pts[0].x + i)
  {
    hide Trace, MinorSteps, Offset, Adjacent, AfterSteps;
    IdealEnds(r0);
    TraceIsIdeal(r0, 0, r0);
    var pts := Trace(r0);
    forall i | 0 <= i < r0.dx
      ensures Adjacent(pts[i], pts[i + 1])
    {
      IdealNeighbours(r0, i);
    }
    var last := r0.(x := r0.x2, y := Climb(r0.y, r0.ystep, r0.dy)).Here();
    forall i | 0 <= i <= r0.dx
      ensures Abs(Offset(pts[i], pts[0].x, pts[0].y, last.x, last.y)) <= r0.dx
    {
      IdealPointIsClose(r0, i);
    }
  }

  /** DrawLine, for all coordinates that fit: one point for each step along the longer
      axis, from one endpoint to the other without gaps, each within half a pixel of the
      straight line, measured along the shorter axis. */
  lemma LineIsCorrect(x1: int, y1: int, x2: int, y2: int)
    requires Fits(x1, y1, x2, y2)
    ensures var pts, n := LinePoints(x1, y1, x2, y2), Max(Abs(x2 - x1), Abs(y2 - y1));
            && |pts| == n + 1
            && ((pts[0] == Point(x1, y1) && pts[n] == Point(x2, y2))
                || (pts[0] == Point(x2, y2) && pts[n] == Point(x1, y1)))
            && (forall i :: 0 <= i < n ==> Adjacent(pts[i], pts[i + 1]))
            && (forall i :: 0 <= i <= n ==> Abs(Offset(pts[i], x1, y1, x2, y2)) <= n)
            && (forall i :: 0 <= i <= n ==>
                  if Abs(y2 - y1) > Abs(x2 - x1) then pts[i].y == pts[0].y + i else pts[i].x == pts[0].x + i)
  {
    SetupIsNormal(x1, y1, x2, y2);
    var r0 := Setup(x1, y1, x2, y2);
    var pts := Trace(r0);
    hide Setup, Fits, Trace, Offset;
    NormalLineIsCorrect(r0);
    forall i | 0 <= i <= r0.dx
      ensures Abs(Offset(pts[i], x1, y1, x2, y2)) <= r0.dx
    {
      OffsetFromEitherEnd(pts[i], x1, y1, x2, y2);
    }
  }

  /** Drawing from p to q and from q to p sets the same points in the same order. */
  lemma LineIsSymmetric(x1: int, y1: int, x2: int, y2: int)
    requires Fits(x1, y1, x2, y2)
    ensures LinePoints(x1, y1, x2, y2) == LinePoints(x2, y2, x1, y1)
  {
    assert Setup(x1, y1, x2, y2) == Setup(x2, y2, x1, y1);
  }
}
