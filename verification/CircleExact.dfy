/** Exactly which pixels DrawCircle sets: a test on each offset from the centre alone. */
module CirclePixels {
  import opened Framebuffers
  import opened CircleRaster

  predicate OnOutline(radius: int, u: int, v: int) {
    Near(Abs(u), Abs(v), Excess(u, v, radius))
  }

  predicate InDisc(radius: int, u: int, v: int) {
    (u == 0 && v == 0) || Excess(u, v, radius) <= Reach(Abs(u), Abs(v))
  }

  // ---- One quarter ----

  /** The excess of a farther point exceeds its reach, if that of a nearer one does. */
  lemma {:induction false} ReachIsMonotone(s: nat, t: nat, n: nat, radius: int)
    requires 0 < s + t && Excess(s + n, t, radius) <= Reach(s + n, t)
    ensures Excess(s, t, radius) <= Reach(s, t)
    decreases n
  {
    if n == 0 {
    } else {
      ExcessAhead(s + n - 1, t, radius);
      hide Excess;
      ReachIsMonotone(s, t, n - 1, radius);
    }
  }

  lemma ExcessIsEven(u: int, v: int, radius: int)
    ensures Excess(u, v, radius) == Excess(Abs(u), Abs(v), radius) == Excess(v, u, radius)
  {
    SquareMono(u, 0);
    SquareMono(v, 0);
  }

  /** Likewise from below, in the other direction. */
  lemma {:induction false} BoundIsMonotone(s: nat, t: nat, n: nat, radius: int)
    requires -Max(s, t) <= Excess(s, t, radius)
    ensures -Max(s + n, t) <= Excess(s + n, t, radius)
    decreases n
  {
    if n == 0 {
    } else {
      ExcessAhead(s + n - 1, t, radius);
      hide Excess;
      BoundIsMonotone(s, t, n - 1, radius);
    }
  }

  /** If the pixel beyond in the same column is within reach, the walk stays in the column. */
  lemma StaysInColumn(a: Arc, radius: int)
    requires OnCircle(a, radius) && a.x < 0
    requires Excess(-a.x, a.y + 1, radius) <= Reach(-a.x, a.y + 1)
    ensures a.Next().x == a.x
  {
    ExcessIsEven(a.x, a.y, radius);
    ExcessIsEven(a.x, a.y + 1, radius);
    ExcessAhead(a.x, a.y, radius);
    ExcessAhead(a.x + 1, a.y, radius);
    ExcessAhead(a.x, a.y + 1, radius);
    hide Excess;
  }

  /** If the nearer pixel in the same row is not too near, the walk stays in the row. */
  lemma StaysInRow(a: Arc, radius: int)
    requires OnCircle(a, radius) && a.x < 0
    requires -Max(-a.x - 1, a.y) <= Excess(-a.x - 1, a.y, radius)
    ensures a.Next().y == a.y
  {
    ExcessIsEven(a.x + 1, a.y, radius);
    ExcessAhead(a.x, a.y, radius);
    ExcessAhead(a.x + 1, a.y, radius);
    ExcessAhead(a.x, a.y + 1, radius);
    hide Excess;
  }

  /** The walk never passes a pixel that is near the circle. */
  lemma WalkMissesNone(a: Arc, radius: int, s: nat, t: nat)
    requires OnCircle(a, radius) && a.x < 0 && Near(s, t, Excess(s, t, radius))
    requires s <= -a.x && a.y <= t && !(s == -a.x && t == a.y)
    ensures s <= -a.Next().x && a.Next().y <= t
  {
    hide Excess;
    NextIsOnCircle(a, radius);
    if s == -a.x {
      ExcessIsEven(s, t, radius);
      ExcessIsEven(s, a.y + 1, radius);
      ReachIsMonotone(a.y + 1, s, t - (a.y + 1), radius);
      StaysInColumn(a, radius);
    } else if t == a.y {
      BoundIsMonotone(s, t, -a.x - 1 - s, radius);
      StaysInRow(a, radius);
    }
  }

  lemma {:induction false} NearIsVisited(a: Arc, radius: int, s: nat, t: nat) returns (b: Arc)
    requires OnCircle(a, radius) && Near(s, t, Excess(s, t, radius)) && 0 < s <= -a.x && a.y <= t
    ensures b in Walk(a, radius) && b.x == 0 - s && b.y == t
    decreases -a.x + (radius - a.y)
  {
    hide OnCircle, Excess, Near, Walk;
    WalkUnfolds(a, radius);
    if s == -a.x && t == a.y {
      b := a;
    } else {
      WalkMissesNone(a, radius, s, t);
      b := NearIsVisited(a.Next(), radius, s, t);
    }
  }

  lemma WithinReachIsSmall(radius: int, s: nat, t: nat)
    requires 0 < radius && Excess(s, t, radius) <= Reach(s, t)
    ensures s <= radius && t <= radius
  {
    ExcessIsEven(s, t, radius);
    if s <= t {
      LargerIsSmall(radius, s, t);
    } else {
      LargerIsSmall(radius, t, s);
    }
  }

  lemma LargerIsSmall(radius: int, s: nat, t: nat)
    requires 0 < radius && s <= t && Excess(s, t, radius) <= t - 1
    ensures t <= radius
  {
    SquareMono(s, 0);
    if 0 < t {
      MulMono(radius + 1, t, t - 1);
      MulMono(radius, t - 1, radius + 1);
      assert Square(t) == t * (t - 1) + t;
      assert Square(radius) + radius == radius * (radius + 1);
    }
  }

  /** The loop states are the pixels near the circle, in a quarter. */
  lemma ArcsAreNear(radius: int, s: nat, t: nat)
    requires 0 < radius && 0 < s
    ensures (exists a :: a in Arcs(radius) && a.x == 0 - s && a.y == t) <==> Near(s, t, Excess(s, t, radius))
  {
    hide Walk, Excess, Near;
    if Near(s, t, Excess(s, t, radius)) {
      StartIsOnCircle(radius);
      hide OnCircle;
      NearIsSmall(radius, s, t);
      var a := NearIsVisited(Start(radius), radius, s, t);
      assert a in Arcs(radius);
    }
    forall a | a in Arcs(radius) && a.x == 0 - s && a.y == t
      ensures Near(s, t, Excess(s, t, radius))
    {
      ExcessIsEven(a.x, a.y, radius);
    }
  }

  lemma NearIsSmall(radius: int, s: nat, t: nat)
    requires 0 < radius && Near(s, t, Excess(s, t, radius))
    ensures s <= radius && t <= radius
  {
    hide Excess;
    WithinReachIsSmall(radius, s, t);
  }

  /** From a pixel within reach, outwards along its row, there is one near the circle. */
  lemma {:induction false} EdgeBeyond(radius: int, s: nat, t: nat) returns (edge: nat)
    requires 0 < radius && Excess(s, t, radius) <= Reach(s, t)
    ensures s <= edge && Near(edge, t, Excess(edge, t, radius))
    decreases radius - s
  {
    WithinReachIsSmall(radius, s, t);
    ExcessAhead(s, t, radius);
    if Excess(s + 1, t, radius) <= Reach(s + 1, t) {
      WithinReachIsSmall(radius, s + 1, t);
      edge := EdgeBeyond(radius, s + 1, t);
    } else {
      hide Excess;
      edge := s;
    }
  }

  // ---- All four quarters ----

  predicate IsDrawn(radius: int, filled: bool, u: int, v: int) {
    exists a :: a in Arcs(radius) && Covers(a, filled, u, v)
  }

  lemma ArcAt(radius: int, s: nat, t: nat) returns (a: Arc)
    requires 0 < radius && 0 < s && (Near(s, t, Excess(s, t, radius)) || Near(t, s, Excess(t, s, radius)))
    ensures a in Arcs(radius) && a.x == 0 - s && a.y == t
  {
    ExcessIsEven(s, t, radius);
    hide Arcs, Excess;
    ArcsAreNear(radius, s, t);
    a :| a in Arcs(radius) && a.x == 0 - s && a.y == t;
  }

  /** The outline is exactly the pixels near the circle. */
  lemma OutlineExactly(radius: int, u: int, v: int)
    ensures IsDrawn(radius, false, u, v) <==> 0 < radius && OnOutline(radius, u, v)
  {
    ExcessIsEven(u, v, radius);
    if 0 < radius && OnOutline(radius, u, v) {
      assert u != 0 || v != 0 by { SquareMono(1, radius); }
      hide Arcs, Excess, Near;
      ExcessIsEven(Abs(u), Abs(v), radius);
      assert Near(Abs(v), Abs(u), Excess(Abs(v), Abs(u), radius)) by { NearIsSymmetric(Abs(u), Abs(v), radius); }
      var onRow := (u > 0 && v >= 0) || (u < 0 && v <= 0);
      var a := ArcAt(radius, if onRow then Abs(u) else Abs(v), if onRow then Abs(v) else Abs(u));
      assert a in Arcs(radius) && Covers(a, false, u, v);
    }
    forall a | a in Arcs(radius) && Covers(a, false, u, v)
      ensures 0 < radius && OnOutline(radius, u, v)
    {
      ExcessIsEven(a.x, a.y, radius);
      hide Excess;
    }
  }

  lemma NearIsSymmetric(s: nat, t: nat, radius: int)
    requires Near(s, t, Excess(s, t, radius))
    ensures Near(t, s, Excess(t, s, radius))
  {
    ExcessIsEven(s, t, radius);
  }

  /** A filled circle is exactly the pixels within its reach, and its centre. */
  lemma FilledExactly(radius: int, u: int, v: int)
    ensures IsDrawn(radius, true, u, v) <==> 0 < radius && InDisc(radius, u, v)
  {
    hide Excess, Arcs;
    if 0 < radius && InDisc(radius, u, v) {
      DiscIsDrawn(radius, u, v);
    }
    forall a | a in Arcs(radius) && Covers(a, true, u, v)
      ensures 0 < radius && InDisc(radius, u, v)
    {
      DrawnIsInDisc(radius, a, u, v);
    }
  }

  lemma DiscIsDrawn(radius: int, u: int, v: int)
    requires 0 < radius && InDisc(radius, u, v)
    ensures IsDrawn(radius, true, u, v)
  {
    var s, t := Abs(u), Abs(v);
    ExcessIsEven(u, v, radius);
    var a: Arc;
    if u == 0 && v == 0 {
      a := ArcAt(radius, radius, 0);
    } else {
      hide Excess, Near;
      var edge := EdgeBeyond(radius, s, t);
      if edge == 0 {
        a := ArcAt(radius, t, 0);
      } else if (u >= 0 && v >= 0) || (u <= 0 && v <= 0) {
        a := ArcAt(radius, edge, t);
      } else {
        a := ArcAt(radius, t, edge);
      }
    }
    hide Arcs;
    assert a in Arcs(radius) && Covers(a, true, u, v);
  }

  lemma DrawnIsInDisc(radius: int, a: Arc, u: int, v: int)
    requires a in Arcs(radius) && Covers(a, true, u, v)
    ensures 0 < radius && InDisc(radius, u, v)
  {
    ExcessIsEven(u, v, radius);
    ExcessIsEven(a.x, a.y, radius);
    ExcessIsEven(-a.x, a.y, radius);
    hide Excess;
    var s, t := Abs(u), Abs(v);
    if s + t > 0 {
      if t == a.y && s <= -a.x {
        ReachIsMonotone(s, t, -a.x - s, radius);
      } else {
        ReachIsMonotone(s, t, a.y - s, radius);
      }
    }
  }

  /** What a circle does to a picture: a pixel takes the colour if and only if the test holds
      of some point that converts to it. */
  lemma CirclePaintsExactly(pic: Picture, centerX: int, centerY: int, radius: int, filled: bool, color: Color, p: Point)
    requires p in pic
    ensures var now := PlotAll(pic, CirclePoints(centerX, centerY, radius, filled), color);
            p in now && now[p] ==
            if exists q :: WrapPoint(q) == p && IsSet(q, centerX, centerY, radius, filled) then color else pic[p]
  {
    var pts := CirclePoints(centerX, centerY, radius, filled);
    hide PlotAll, CirclePoints, WrapPoint, IsSet;
    PlotAllMeaning(pic, pts, color, p);
    forall q
      ensures q in pts <==> IsSet(q, centerX, centerY, radius, filled)
    {
      SetExactly(q, centerX, centerY, radius, filled);
    }
  }

  predicate IsSet(q: Point, centerX: int, centerY: int, radius: int, filled: bool) {
    var u, v := q.x - centerX, q.y - centerY;
    0 < radius && if filled then InDisc(radius, u, v) else OnOutline(radius, u, v)
  }

  lemma SetExactly(q: Point, centerX: int, centerY: int, radius: int, filled: bool)
    ensures q in CirclePoints(centerX, centerY, radius, filled) <==> IsSet(q, centerX, centerY, radius, filled)
  {
    hide CirclePoints, Arcs, Covers, InDisc, OnOutline;
    CirclePointsMeaning(centerX, centerY, radius, filled, q);
    if filled {
      FilledExactly(radius, q.x - centerX, q.y - centerY);
    } else {
      OutlineExactly(radius, q.x - centerX, q.y - centerY);
    }
  }
}
