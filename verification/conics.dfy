/** The conic rasterizers of lab 2: the integer midpoint circle with eight-way
    symmetry, the two-region midpoint ellipse and hyperbola, and the sampled parabola.
    Every `draw_point` call appends the offset point to the emitted sequence; the
    decision variables with `0.25` and `0.5` terms are exact reals. */
module Conics {
  import opened Geometry

  // ---------------------------------------------------------------- circle

  /** The loop state of `draw_circle`: the offset `(x, y)` and the decision `d`. */
  datatype CState = CState(x: int, y: int, d: int)

  /** The eight reflections of the offset `(x, y)` around the center `c`, in the
      order `draw_circle` draws them. */
  function Octants(c: Pt, x: int, y: int): (r: seq<Pt>)
    ensures |r| == 8
  {
    [Pt(c.x + x, c.y + y), Pt(c.x + y, c.y + x), Pt(c.x - y, c.y + x), Pt(c.x - x, c.y + y),
     Pt(c.x - x, c.y - y), Pt(c.x - y, c.y - x), Pt(c.x + y, c.y - x), Pt(c.x + x, c.y - y)]
  }

  /** The eight points of one iteration form a figure symmetric about both axes
      through the center and about the diagonal: reflecting any of them gives
      another of them. */
  lemma OctantsSymmetric(c: Pt, x: int, y: int, p: Pt)
    requires p in Octants(c, x, y)
    ensures Pt(2 * c.x - p.x, p.y) in Octants(c, x, y)
    ensures Pt(p.x, 2 * c.y - p.y) in Octants(c, x, y)
    ensures Pt(c.x + (p.y - c.y), c.y + (p.x - c.x)) in Octants(c, x, y)
  {
    var o := Octants(c, x, y);
    var i :| 0 <= i < 8 && o[i] == p;
    var mirrorX := [3, 2, 1, 0, 7, 6, 5, 4];
    var diagonal := [1, 0, 7, 6, 5, 4, 3, 2];
    assert o[mirrorX[i]] == Pt(2 * c.x - p.x, p.y);
    assert o[7 - i] == Pt(p.x, 2 * c.y - p.y);
    assert o[diagonal[i]] == Pt(c.x + (p.y - c.y), c.y + (p.x - c.x));
  }

  /** One iteration's update: `x` grows first, then `y` and `d` are updated with the
      new `x` (and the new `y`). */
  function CircleNext(s: CState): (n: CState)
    ensures n.x == s.x + 1
    ensures n.y == (if s.d > 0 then s.y - 1 else s.y)
  {
    var x := s.x + 1;
    if s.d > 0 then CState(x, s.y - 1, s.d + 4 * (x - (s.y - 1)) + 10)
    else CState(x, s.y, s.d + 4 * x + 6)
  }

  /** The states at which `while x <= y` runs its body, from `s` on. */
  function CircleStates(s: CState): (r: seq<CState>)
    decreases s.y - s.x + 1
    ensures |r| > 0 <==> s.x <= s.y
    ensures |r| > 0 ==> r[0] == s
    ensures forall k :: 0 <= k < |r| ==> r[k].x == s.x + k && r[k].x <= r[k].y
    ensures forall k :: 0 <= k < |r| - 1 ==> r[k + 1] == CircleNext(r[k])
    ensures |r| > 0 ==> CircleNext(r[|r| - 1]).x > CircleNext(r[|r| - 1]).y
  {
    if s.x > s.y then [] else [s] + CircleStates(CircleNext(s))
  }

  function CircleStart(r: int): CState
  {
    CState(0, r, 3 - 2 * r)
  }

  /** The eight reflections of every state, state by state. */
  function EmitOctants(c: Pt, ss: seq<CState>): (r: seq<Pt>)
    ensures |r| == 8 * |ss|
    ensures forall k, j :: 0 <= k < |ss| && 0 <= j < 8 ==> r[8 * k + j] == Octants(c, ss[k].x, ss[k].y)[j]
  {
    if ss == [] then [] else
      var rest := EmitOctants(c, ss[1..]);
      Octants(c, ss[0].x, ss[0].y) + rest
  }

  /** `draw_circle(x0, y0, r)`: the points drawn. */
  function DrawCircle(c: Pt, r: int): (pts: seq<Pt>)
    ensures var ss := CircleStates(CircleStart(r));
            && |pts| == 8 * |ss|
            && forall k, j :: 0 <= k < |ss| && 0 <= j < 8 ==> pts[8 * k + j] == Octants(c, ss[k].x, ss[k].y)[j]
  {
    EmitOctants(c, CircleStates(CircleStart(r)))
  }

  /** The run starts at `(0, r)`, `x` counts the iterations, `y` drops by one exactly
      when `d > 0`, and the loop stops as soon as `x > y`. A negative radius draws
      nothing. */
  lemma DrawCircleShape(c: Pt, r: int)
    ensures var ss := CircleStates(CircleStart(r));
            && |DrawCircle(c, r)| == 8 * |ss|
            && (r < 0 <==> ss == [])
            && (r >= 0 ==> ss[0] == CState(0, r, 3 - 2 * r))
            && (forall k :: 0 <= k < |ss| ==> ss[k].x == k)
            && (forall k :: 0 <= k < |ss| - 1 ==>
                  ss[k + 1].y == (if ss[k].d > 0 then ss[k].y - 1 else ss[k].y))
  {
  }

  /** The decision variable the code keeps: the textbook midpoint residual
      `2(x+1)^2 + y^2 + (y-1)^2 - 2r^2` plus the drift `4(x + r - y)` that comes from
      updating `d` with the already-advanced `x` and `y`. */
  predicate CircleDecision(r: int, s: CState)
  {
    s.d == 2 * (s.x + 1) * (s.x + 1) + 2 * s.y * s.y - 2 * s.y + 1 - 2 * r * r + 4 * (s.x + r - s.y)
  }

  lemma CircleNextDecision(r: int, s: CState)
    requires CircleDecision(r, s)
    ensures CircleDecision(r, CircleNext(s))
  {
    assert (s.x + 2) * (s.x + 2) == (s.x + 1) * (s.x + 1) + 2 * s.x + 3;
    assert (s.y - 1) * (s.y - 1) == s.y * s.y - 2 * s.y + 1;
  }

  /** Every state of a run started at `CircleStart(r)` satisfies the decision relation. */
  lemma {:induction false} CircleStatesDecision(r: int, s: CState)
    requires CircleDecision(r, s)
    ensures forall k :: 0 <= k < |CircleStates(s)| ==> CircleDecision(r, CircleStates(s)[k])
    decreases s.y - s.x + 1
  {
    if s.x <= s.y {
      CircleNextDecision(r, s);
      CircleStatesDecision(r, CircleNext(s));
      assert CircleStates(s) == [s] + CircleStates(CircleNext(s));
    }
  }

  lemma DrawCircleDecision(r: int)
    ensures forall k :: 0 <= k < |CircleStates(CircleStart(r))| ==>
              CircleDecision(r, CircleStates(CircleStart(r))[k])
  {
    CircleStatesDecision(r, CircleStart(r));
  }

  /** `y` never grows along a run. */
  lemma {:induction false} CircleStatesYBound(s: CState)
    ensures forall k :: 0 <= k < |CircleStates(s)| ==> CircleStates(s)[k].y <= s.y
    decreases s.y - s.x + 1
  {
    if s.x <= s.y {
      CircleStatesYBound(CircleNext(s));
      assert CircleStates(s) == [s] + CircleStates(CircleNext(s));
    }
  }

  /** A point of the emitted sequence comes from the reflections of some state. */
  lemma {:induction false} EmitOctantsSource(c: Pt, ss: seq<CState>, p: Pt)
    requires p in EmitOctants(c, ss)
    ensures exists k :: 0 <= k < |ss| && p in Octants(c, ss[k].x, ss[k].y)
  {
    if p !in Octants(c, ss[0].x, ss[0].y) {
      EmitOctantsSource(c, ss[1..], p);
      var k :| 0 <= k < |ss[1..]| && p in Octants(c, ss[1..][k].x, ss[1..][k].y);
      assert ss[1..][k] == ss[k + 1];
    }
  }

  /** For a non-negative radius every offset lies in the first octant
      `0 <= x <= y <= r`, so every drawn point is within `r` of the center on
      both axes. */
  lemma DrawCircleBounded(c: Pt, r: int)
    requires r >= 0
    ensures forall k :: 0 <= k < |CircleStates(CircleStart(r))| ==>
              0 <= CircleStates(CircleStart(r))[k].x <= CircleStates(CircleStart(r))[k].y <= r
    ensures forall p :: p in DrawCircle(c, r) ==> Abs(p.x - c.x) <= r && Abs(p.y - c.y) <= r
  {
    var ss := CircleStates(CircleStart(r));
    CircleStatesYBound(CircleStart(r));
    forall p | p in DrawCircle(c, r)
      ensures Abs(p.x - c.x) <= r && Abs(p.y - c.y) <= r
    {
      EmitOctantsSource(c, ss, p);
      var k :| 0 <= k < |ss| && p in Octants(c, ss[k].x, ss[k].y);
      OctantsBounded(c, ss[k].x, ss[k].y, r, p);
    }
  }

  lemma OctantsBounded(c: Pt, x: int, y: int, r: int, p: Pt)
    requires 0 <= x <= y <= r && p in Octants(c, x, y)
    ensures Abs(p.x - c.x) <= r && Abs(p.y - c.y) <= r
  {
    var o := Octants(c, x, y);
    assert p == o[0] || p == o[1] || p == o[2] || p == o[3] || p == o[4] || p == o[5] || p == o[6] || p == o[7];
  }

  // ------------------------------------------------- ellipse and hyperbola

  /** The loop state of the two-region rasterizers: the offset `(x, y)` and the
      decision variable, which carries `0.25` and `0.5` terms. */
  datatype RState = RState(x: int, y: int, d: real)

  /** The states a loop runs its body at and the state it leaves with. */
  datatype Run = Run(visited: seq<RState>, exit: RState)

  /** The four reflections `(±x, ±y)` around the center, in the order drawn. */
  function Quadrants(c: Pt, x: int, y: int): (r: seq<Pt>)
    ensures |r| == 4
  {
    [Pt(c.x + x, c.y + y), Pt(c.x - x, c.y + y), Pt(c.x + x, c.y - y), Pt(c.x - x, c.y - y)]
  }

  function EmitQuadrants(c: Pt, ss: seq<RState>): (r: seq<Pt>)
    ensures |r| == 4 * |ss|
    ensures forall k, j :: 0 <= k < |ss| && 0 <= j < 4 ==> r[4 * k + j] == Quadrants(c, ss[k].x, ss[k].y)[j]
  {
    if ss == [] then [] else Quadrants(c, ss[0].x, ss[0].y) + EmitQuadrants(c, ss[1..])
  }

  /** Two emitted runs drawn one after the other: the second run's points follow the
      first run's, four per state. */
  lemma QuadrantsJoin(c: Pt, s1: seq<RState>, s2: seq<RState>, e1: seq<Pt>, e2: seq<Pt>)
    requires |e1| == 4 * |s1| && |e2| == 4 * |s2|
    requires forall k, j :: 0 <= k < |s1| && 0 <= j < 4 ==> e1[4 * k + j] == Quadrants(c, s1[k].x, s1[k].y)[j]
    requires forall k, j :: 0 <= k < |s2| && 0 <= j < 4 ==> e2[4 * k + j] == Quadrants(c, s2[k].x, s2[k].y)[j]
    ensures forall k, j :: 0 <= k < |s1| && 0 <= j < 4 ==> (e1 + e2)[4 * k + j] == Quadrants(c, s1[k].x, s1[k].y)[j]
    ensures forall k, j :: 0 <= k < |s2| && 0 <= j < 4 ==>
              (e1 + e2)[4 * (|s1| + k) + j] == Quadrants(c, s2[k].x, s2[k].y)[j]
  {
    forall k, j | 0 <= k < |s2| && 0 <= j < 4
      ensures (e1 + e2)[4 * (|s1| + k) + j] == Quadrants(c, s2[k].x, s2[k].y)[j]
    {
      assert (e1 + e2)[4 * (|s1| + k) + j] == e2[4 * k + j];
    }
  }

  function Sq(n: int): real
  {
    (n * n) as real
  }

  /** The implicit ellipse `b^2 X^2 + a^2 Y^2 - a^2 b^2`: negative inside. */
  function EllipseF(a: int, b: int, x: real, y: real): real
  {
    Sq(b) * x * x + Sq(a) * y * y - Sq(a) * Sq(b)
  }

  lemma EllipseShiftX(a: int, b: int, x: real, y: real)
    ensures EllipseF(a, b, x + 1.0, y) == EllipseF(a, b, x, y) + Sq(b) * (2.0 * x + 1.0)
  {
    assert (x + 1.0) * (x + 1.0) == x * x + 2.0 * x + 1.0;
    assert Sq(b) * (x + 1.0) * (x + 1.0) == Sq(b) * (x * x) + Sq(b) * (2.0 * x + 1.0);
  }

  lemma EllipseShiftY(a: int, b: int, x: real, y: real)
    ensures EllipseF(a, b, x, y - 1.0) == EllipseF(a, b, x, y) + Sq(a) * (1.0 - 2.0 * y)
  {
    assert (y - 1.0) * (y - 1.0) == y * y + (1.0 - 2.0 * y);
    assert Sq(a) * (y - 1.0) * (y - 1.0) == Sq(a) * (y * y) + Sq(a) * (1.0 - 2.0 * y);
  }

  /** Region 1 of `draw_ellipse` runs while `a^2 (y - 0.5) > b^2 (x + 1)`. */
  predicate EllipseGuard1(a: int, b: int, s: RState)
  {
    Sq(a) * (s.y as real - 0.5) > Sq(b) * (s.x + 1) as real
  }

  function EllipseNext1(a: int, b: int, s: RState): (n: RState)
    ensures n.x == s.x + 1
    ensures n.y == (if s.d < 0.0 then s.y else s.y - 1)
  {
    var x := s.x + 1;
    if s.d < 0.0 then RState(x, s.y, s.d + 2.0 * Sq(b) * x as real + Sq(b))
    else RState(x, s.y - 1, s.d + 2.0 * Sq(b) * x as real - 2.0 * Sq(a) * (s.y - 1) as real + Sq(b))
  }

  /** Twice the slack of the region 1 guard, an integer. */
  function EllipseSlack1(a: int, b: int, s: RState): int
  {
    2 * (a * a) * s.y - a * a - 2 * (b * b) * (s.x + 1)
  }

  lemma EllipseSlack1Guard(a: int, b: int, s: RState)
    ensures EllipseGuard1(a, b, s) <==> EllipseSlack1(a, b, s) > 0
  {
    var A, B := a * a, b * b;
    assert Sq(a) * (s.y as real - 0.5) * 2.0 == (2 * A * s.y - A) as real;
    assert Sq(b) * (s.x + 1) as real * 2.0 == (2 * B * (s.x + 1)) as real;
  }

  /** Each region 1 step lowers the slack by at least `2 b^2`. */
  lemma EllipseSlack1Step(a: int, b: int, s: RState)
    ensures EllipseSlack1(a, b, EllipseNext1(a, b, s)) <= EllipseSlack1(a, b, s) - 2 * (b * b)
  {
    var A, B := a * a, b * b;
    var n := EllipseNext1(a, b, s);
    assert B * (n.x + 1) == B * (s.x + 1) + B;
    assert A * n.y <= A * s.y by {
      SquareNonNeg(a);
      MulMonotone(A, n.y, s.y);
    }
  }

  /** With `b == 0` the loop cannot start from `y <= 0`; otherwise the slack drops by at
      least two per step. Either way region 1 ends. */
  function EllipseRegion1(a: int, b: int, s: RState): (r: Run)
    requires b != 0 || s.y <= 0
    decreases EllipseSlack1(a, b, s)
    ensures |r.visited| > 0 ==> r.visited[0] == s
    ensures r.visited == [] ==> r.exit == s
    ensures forall k :: 0 <= k < |r.visited| ==> EllipseGuard1(a, b, r.visited[k])
    ensures forall k :: 0 <= k < |r.visited| - 1 ==> r.visited[k + 1] == EllipseNext1(a, b, r.visited[k])
    ensures |r.visited| > 0 ==> r.exit == EllipseNext1(a, b, r.visited[|r.visited| - 1])
    ensures !EllipseGuard1(a, b, r.exit)
  {
    EllipseSlack1Guard(a, b, s);
    if !EllipseGuard1(a, b, s) then Run([], s)
    else
      EllipseSlack1Step(a, b, s);
      assert b != 0 by {
        if b == 0 {
          assert s.y <= 0;
          MulMonotone(a * a, s.y, 0);
          SquareNonNeg(a);
        }
      }
      SquarePositive(b);
      var rest := EllipseRegion1(a, b, EllipseNext1(a, b, s));
      Run([s] + rest.visited, rest.exit)
  }

  /** Region 1's decision variable is the ellipse function at the midpoint
      `(x + 1, y - 0.5)` between the two candidate pixels of the next column. */
  predicate EllipseDecision1(a: int, b: int, s: RState)
  {
    s.d == EllipseF(a, b, (s.x + 1) as real, s.y as real - 0.5)
  }

  lemma EllipseNext1Decision(a: int, b: int, s: RState)
    requires EllipseDecision1(a, b, s)
    ensures EllipseDecision1(a, b, EllipseNext1(a, b, s))
  {
    var X, Y := (s.x + 1) as real, s.y as real - 0.5;
    EllipseShiftX(a, b, X, Y);
    EllipseShiftY(a, b, X + 1.0, Y);
  }

  lemma {:induction false} EllipseRegion1Decision(a: int, b: int, s: RState)
    requires b != 0 || s.y <= 0
    requires EllipseDecision1(a, b, s)
    ensures forall k :: 0 <= k < |EllipseRegion1(a, b, s).visited| ==>
              EllipseDecision1(a, b, EllipseRegion1(a, b, s).visited[k])
    ensures EllipseDecision1(a, b, EllipseRegion1(a, b, s).exit)
    decreases EllipseSlack1(a, b, s)
  {
    EllipseSlack1Guard(a, b, s);
    if EllipseGuard1(a, b, s) {
      EllipseSlack1Step(a, b, s);
      EllipseNext1Decision(a, b, s);
      var n := EllipseNext1(a, b, s);
      assert b != 0 by {
        if b == 0 {
          MulMonotone(a * a, s.y, 0);
          SquareNonNeg(a);
        }
      }
      EllipseRegion1Decision(a, b, n);
      var rest := EllipseRegion1(a, b, n);
      assert EllipseRegion1(a, b, s).visited == [s] + rest.visited;
    }
  }

  /** In a right half-plane the region 1 guard forces `y >= 1`: region 1 never draws
      below the center row. */
  lemma EllipseGuard1Above(a: int, b: int, s: RState)
    requires s.x >= -1 && EllipseGuard1(a, b, s)
    ensures s.y >= 1
  {
    assert Sq(b) * (s.x + 1) as real >= 0.0;
  }

  /** Region 2 of `draw_ellipse` runs while `y >= 0`, one row per step. */
  function EllipseNext2(a: int, b: int, s: RState): (n: RState)
    ensures n.y == s.y - 1
    ensures n.x == (if s.d > 0.0 then s.x else s.x + 1)
  {
    var y := s.y - 1;
    if s.d > 0.0 then RState(s.x, y, s.d + Sq(a) - 2.0 * Sq(a) * y as real)
    else RState(s.x + 1, y, s.d + 2.0 * Sq(b) * (s.x + 1) as real - 2.0 * Sq(a) * y as real + Sq(a))
  }

  function EllipseRegion2(a: int, b: int, s: RState): (r: Run)
    decreases s.y + 1
    ensures |r.visited| == (if s.y >= 0 then s.y + 1 else 0)
    ensures |r.visited| > 0 ==> r.visited[0] == s
    ensures r.visited == [] ==> r.exit == s
    ensures forall k :: 0 <= k < |r.visited| ==> r.visited[k].y == s.y - k
    ensures forall k :: 0 <= k < |r.visited| - 1 ==> r.visited[k + 1] == EllipseNext2(a, b, r.visited[k])
    ensures |r.visited| > 0 ==> r.exit == EllipseNext2(a, b, r.visited[|r.visited| - 1])
    ensures r.exit.y == (if s.y >= 0 then -1 else s.y)
  {
    if s.y < 0 then Run([], s)
    else
      var rest := EllipseRegion2(a, b, EllipseNext2(a, b, s));
      Run([s] + rest.visited, rest.exit)
  }

  /** Region 2's decision variable is the ellipse function at the midpoint
      `(x + 0.5, y - 1)` between the two candidate pixels of the next row. */
  predicate EllipseDecision2(a: int, b: int, s: RState)
  {
    s.d == EllipseF(a, b, s.x as real + 0.5, (s.y - 1) as real)
  }

  lemma EllipseNext2Decision(a: int, b: int, s: RState)
    requires EllipseDecision2(a, b, s)
    ensures EllipseDecision2(a, b, EllipseNext2(a, b, s))
  {
    var X, Y := s.x as real + 0.5, (s.y - 1) as real;
    EllipseShiftY(a, b, X, Y);
    EllipseShiftX(a, b, X, Y - 1.0);
  }

  lemma {:induction false} EllipseRegion2Decision(a: int, b: int, s: RState)
    requires EllipseDecision2(a, b, s)
    ensures forall k :: 0 <= k < |EllipseRegion2(a, b, s).visited| ==>
              EllipseDecision2(a, b, EllipseRegion2(a, b, s).visited[k])
    decreases s.y + 1
  {
    if s.y >= 0 {
      var n := EllipseNext2(a, b, s);
      EllipseNext2Decision(a, b, s);
      EllipseRegion2Decision(a, b, n);
      assert EllipseRegion2(a, b, s).visited == [s] + EllipseRegion2(a, b, n).visited;
    }
  }

  /** The starting state of region 1: `(0, b)` with `d1 = b^2 - a^2 b + 0.25 a^2`. */
  function EllipseStart1(a: int, b: int): RState
  {
    RState(0, b, Sq(b) - Sq(a) * b as real + 0.25 * Sq(a))
  }

  /** Region 2 continues from where region 1 stopped with a freshly computed `d2`. */
  function EllipseStart2(a: int, b: int, s: RState): (n: RState)
    ensures EllipseDecision2(a, b, n) && n.x == s.x && n.y == s.y
  {
    RState(s.x, s.y, Sq(b) * (s.x as real + 0.5) * (s.x as real + 0.5)
                     + Sq(a) * (s.y - 1) as real * (s.y - 1) as real - Sq(a) * Sq(b))
  }

  /** The two runs of `draw_ellipse(x0, y0, a, b)`. */
  function EllipseRuns(a: int, b: int): (Run, Run)
  {
    var r1 := EllipseRegion1(a, b, EllipseStart1(a, b));
    (r1, EllipseRegion2(a, b, EllipseStart2(a, b, r1.exit)))
  }

  /** `draw_ellipse(x0, y0, a, b)`: the points drawn, four per iteration of either
      loop. */
  function DrawEllipse(c: Pt, a: int, b: int): (r: seq<Pt>)
    ensures var (r1, r2) := EllipseRuns(a, b);
            && |r| == 4 * (|r1.visited| + |r2.visited|)
            && (forall k, j :: 0 <= k < |r1.visited| && 0 <= j < 4 ==>
                  r[4 * k + j] == Quadrants(c, r1.visited[k].x, r1.visited[k].y)[j])
            && (forall k, j :: 0 <= k < |r2.visited| && 0 <= j < 4 ==>
                  r[4 * (|r1.visited| + k) + j] == Quadrants(c, r2.visited[k].x, r2.visited[k].y)[j])
  {
    var (r1, r2) := EllipseRuns(a, b);
    var e1, e2 := EmitQuadrants(c, r1.visited), EmitQuadrants(c, r2.visited);
    QuadrantsJoin(c, r1.visited, r2.visited, e1, e2);
    e1 + e2
  }

  /** Both decision variables are the ellipse function at the midpoint between the
      next two candidate pixels, in every state the loops visit. */
  lemma EllipseDecisions(a: int, b: int)
    ensures var (r1, r2) := EllipseRuns(a, b);
            && (forall k :: 0 <= k < |r1.visited| ==> EllipseDecision1(a, b, r1.visited[k]))
            && (forall k :: 0 <= k < |r2.visited| ==> EllipseDecision2(a, b, r2.visited[k]))
  {
    var s := EllipseStart1(a, b);
    assert EllipseDecision1(a, b, s) by {
      assert (s.y as real - 0.5) * (s.y as real - 0.5) == s.y as real * s.y as real - s.y as real + 0.25;
      assert Sq(b) == b as real * b as real;
      assert Sq(a) * ((s.y as real - 0.5) * (s.y as real - 0.5))
          == Sq(a) * (s.y as real * s.y as real) - Sq(a) * s.y as real + 0.25 * Sq(a);
    }
    EllipseRegion1Decision(a, b, s);
    var r1 := EllipseRegion1(a, b, s);
    EllipseRegion2Decision(a, b, EllipseStart2(a, b, r1.exit));
  }

  /** Each region 1 step advances `x` by one and lowers `y` by at most one. */
  lemma EllipseRegion1Steps(a: int, b: int)
    ensures forall k :: 0 <= k < |EllipseRuns(a, b).0.visited| ==> EllipseRuns(a, b).0.visited[k].x == k
    ensures forall k :: 0 <= k < |EllipseRuns(a, b).0.visited| - 1 ==>
              EllipseStepDown(EllipseRuns(a, b).0.visited[k].y, EllipseRuns(a, b).0.visited[k + 1].y)
  {
    var r1 := EllipseRuns(a, b).0;
    EllipseRegion1Columns(a, b, EllipseStart1(a, b));
    assert r1 == EllipseRegion1(a, b, EllipseStart1(a, b));
    forall k | 0 <= k < |r1.visited| - 1
      ensures EllipseStepDown(r1.visited[k].y, r1.visited[k + 1].y)
    {
      assert r1.visited[k + 1] == EllipseNext1(a, b, r1.visited[k]);
    }
  }

  /** Each region 2 step lowers `y` by one and advances `x` by at most one. */
  lemma EllipseRegion2Steps(a: int, b: int)
    ensures forall k :: 0 <= k < |EllipseRuns(a, b).1.visited| - 1 ==>
              EllipseRuns(a, b).1.visited[k + 1].y == EllipseRuns(a, b).1.visited[k].y - 1
    ensures forall k :: 0 <= k < |EllipseRuns(a, b).1.visited| - 1 ==>
              EllipseStepDown(EllipseRuns(a, b).1.visited[k + 1].x, EllipseRuns(a, b).1.visited[k].x)
  {
    var r1 := EllipseRuns(a, b).0;
    var r2 := EllipseRuns(a, b).1;
    assert r2 == EllipseRegion2(a, b, EllipseStart2(a, b, r1.exit));
    forall k | 0 <= k < |r2.visited| - 1
      ensures r2.visited[k + 1].y == r2.visited[k].y - 1
      ensures EllipseStepDown(r2.visited[k + 1].x, r2.visited[k].x)
    {
      assert r2.visited[k + 1] == EllipseNext2(a, b, r2.visited[k]);
    }
  }

  /** `v` equals `u` or is one below it. */
  predicate EllipseStepDown(u: int, v: int)
  {
    v == u || v == u - 1
  }

  /** For `b >= 0` region 1 stays on or above the center row and region 2 ends at
      `y == -1`, below it. */
  lemma EllipseAboveCenter(a: int, b: int)
    requires b >= 0
    ensures forall k :: 0 <= k < |EllipseRuns(a, b).0.visited| ==> EllipseRuns(a, b).0.visited[k].y >= 1
    ensures EllipseRuns(a, b).1.exit.y == -1
  {
    var r1 := EllipseRuns(a, b).0;
    var r2 := EllipseRuns(a, b).1;
    assert r1 == EllipseRegion1(a, b, EllipseStart1(a, b));
    EllipseRegion1Columns(a, b, EllipseStart1(a, b));
    forall k | 0 <= k < |r1.visited|
      ensures r1.visited[k].y >= 1
    {
      EllipseGuard1Above(a, b, r1.visited[k]);
    }
    if r1.visited != [] {
      assert r1.exit.y >= r1.visited[|r1.visited| - 1].y - 1;
    }
    assert r2 == EllipseRegion2(a, b, EllipseStart2(a, b, r1.exit));
  }

  /** Region 1 advances `x` by one per step from its start. */
  lemma {:induction false} EllipseRegion1Columns(a: int, b: int, s: RState)
    requires b != 0 || s.y <= 0
    ensures forall k :: 0 <= k < |EllipseRegion1(a, b, s).visited| ==>
              EllipseRegion1(a, b, s).visited[k].x == s.x + k
    decreases EllipseSlack1(a, b, s)
  {
    EllipseSlack1Guard(a, b, s);
    if EllipseGuard1(a, b, s) {
      EllipseSlack1Step(a, b, s);
      assert b != 0 by {
        if b == 0 {
          MulMonotone(a * a, s.y, 0);
          SquareNonNeg(a);
        }
      }
      var n := EllipseNext1(a, b, s);
      EllipseRegion1Columns(a, b, n);
      assert EllipseRegion1(a, b, s).visited == [s] + EllipseRegion1(a, b, n).visited;
    }
  }

  /** The implicit hyperbola `b^2 X^2 - a^2 Y^2 - a^2 b^2`: negative between the
      branches, zero on the curve. */
  function HyperbolaF(a: int, b: int, x: real, y: real): real
  {
    Sq(b) * x * x - Sq(a) * y * y - Sq(a) * Sq(b)
  }

  lemma HyperbolaShiftX(a: int, b: int, x: real, y: real)
    ensures HyperbolaF(a, b, x + 1.0, y) == HyperbolaF(a, b, x, y) + Sq(b) * (2.0 * x + 1.0)
  {
    assert (x + 1.0) * (x + 1.0) == x * x + 2.0 * x + 1.0;
    assert Sq(b) * (x + 1.0) * (x + 1.0) == Sq(b) * (x * x) + Sq(b) * (2.0 * x + 1.0);
  }

  lemma HyperbolaShiftY(a: int, b: int, x: real, y: real)
    ensures HyperbolaF(a, b, x, y + 1.0) == HyperbolaF(a, b, x, y) - Sq(a) * (2.0 * y + 1.0)
  {
    assert (y + 1.0) * (y + 1.0) == y * y + 2.0 * y + 1.0;
    assert Sq(a) * (y + 1.0) * (y + 1.0) == Sq(a) * (y * y) + Sq(a) * (2.0 * y + 1.0);
  }

  /** Region 1 of `draw_hyperbola` runs while `b^2 (x - 0.5) > a^2 (y + 1)`. */
  predicate HyperbolaGuard1(a: int, b: int, s: RState)
  {
    Sq(b) * (s.x as real - 0.5) > Sq(a) * (s.y + 1) as real
  }

  /** Region 1's step as written: `y` grows; `x` grows unless `d1 < 0`. */
  function HyperbolaNext1(a: int, b: int, s: RState): (n: RState)
    ensures n.y == s.y + 1
    ensures n.x == (if s.d < 0.0 then s.x else s.x + 1)
  {
    var y := s.y + 1;
    if s.d < 0.0 then RState(s.x, y, s.d + 2.0 * Sq(a) * y as real + Sq(a))
    else RState(s.x + 1, y, s.d + 2.0 * Sq(a) * y as real - 2.0 * Sq(b) * (s.x + 1) as real + Sq(a))
  }

  /** Region 1 has no bound in the code (for `b > a` it need not end), so the model
      runs it for at most `fuel` steps; it stops early exactly when the guard fails. */
  function HyperbolaRegion1(a: int, b: int, s: RState, fuel: nat): (r: Run)
    decreases fuel
    ensures |r.visited| <= fuel
    ensures |r.visited| > 0 ==> r.visited[0] == s
    ensures r.visited == [] ==> r.exit == s
    ensures forall k :: 0 <= k < |r.visited| ==> HyperbolaGuard1(a, b, r.visited[k])
    ensures forall k :: 0 <= k < |r.visited| ==> r.visited[k].y == s.y + k
    ensures forall k :: 0 <= k < |r.visited| - 1 ==> r.visited[k + 1] == HyperbolaNext1(a, b, r.visited[k])
    ensures |r.visited| > 0 ==> r.exit == HyperbolaNext1(a, b, r.visited[|r.visited| - 1])
    ensures !HyperbolaGuard1(a, b, r.exit) || |r.visited| == fuel
  {
    if !HyperbolaGuard1(a, b, s) || fuel == 0 then Run([], s)
    else
      var rest := HyperbolaRegion1(a, b, HyperbolaNext1(a, b, s), fuel - 1);
      Run([s] + rest.visited, rest.exit)
  }

  /** What region 1's decision variable keeps as written: its sum with the
      hyperbola function at the midpoint `(x + 0.5, y + 1)` stays at the value `k`
      it had at the start. Every update is the negation of the change of the
      midpoint function. */
  predicate HyperbolaDecision1(a: int, b: int, k: real, s: RState)
  {
    s.d + HyperbolaF(a, b, s.x as real + 0.5, (s.y + 1) as real) == k
  }

  lemma HyperbolaNext1Decision(a: int, b: int, k: real, s: RState)
    requires HyperbolaDecision1(a, b, k, s)
    ensures HyperbolaDecision1(a, b, k, HyperbolaNext1(a, b, s))
  {
    var X, Y := s.x as real + 0.5, (s.y + 1) as real;
    HyperbolaShiftY(a, b, X, Y);
    HyperbolaShiftX(a, b, X, Y + 1.0);
  }

  /** States linked by region 1's step keep the sum of the first one. */
  lemma {:induction false} HyperbolaSteps1Decision(a: int, b: int, k: real, vs: seq<RState>)
    requires |vs| > 0 ==> HyperbolaDecision1(a, b, k, vs[0])
    requires forall j :: 0 <= j < |vs| - 1 ==> vs[j + 1] == HyperbolaNext1(a, b, vs[j])
    ensures forall j :: 0 <= j < |vs| ==> HyperbolaDecision1(a, b, k, vs[j])
  {
    if |vs| > 1 {
      HyperbolaNext1Decision(a, b, k, vs[0]);
      HyperbolaSteps1Decision(a, b, k, vs[1..]);
      forall j | 1 <= j < |vs|
        ensures HyperbolaDecision1(a, b, k, vs[j])
      {
        assert vs[j] == vs[1..][j - 1];
      }
    }
  }

  lemma HyperbolaRegion1Decision(a: int, b: int, k: real, s: RState, fuel: nat)
    requires HyperbolaDecision1(a, b, k, s)
    ensures forall j :: 0 <= j < |HyperbolaRegion1(a, b, s, fuel).visited| ==>
              HyperbolaDecision1(a, b, k, HyperbolaRegion1(a, b, s, fuel).visited[j])
    ensures HyperbolaDecision1(a, b, k, HyperbolaRegion1(a, b, s, fuel).exit)
  {
    var r := HyperbolaRegion1(a, b, s, fuel);
    HyperbolaSteps1Decision(a, b, k, r.visited);
    if r.visited != [] {
      HyperbolaNext1Decision(a, b, k, r.visited[|r.visited| - 1]);
    }
  }

  /** Region 2's step as written: `x` grows; `y` grows unless `d2 > 0`. */
  function HyperbolaNext2(a: int, b: int, s: RState): (n: RState)
    ensures n.x == s.x + 1
    ensures n.y == (if s.d > 0.0 then s.y else s.y + 1)
  {
    var x := s.x + 1;
    if s.d > 0.0 then RState(x, s.y, s.d + Sq(b) - 2.0 * Sq(b) * x as real)
    else RState(x, s.y + 1, s.d + 2.0 * Sq(a) * (s.y + 1) as real - 2.0 * Sq(b) * x as real + Sq(b))
  }

  /** The hard-coded bound of region 2: `while x < 200`. */
  const HyperbolaLimit := 200

  function HyperbolaRegion2(a: int, b: int, s: RState): (r: Run)
    decreases HyperbolaLimit - s.x
    ensures |r.visited| == (if s.x < HyperbolaLimit then HyperbolaLimit - s.x else 0)
    ensures |r.visited| > 0 ==> r.visited[0] == s
    ensures r.visited == [] ==> r.exit == s
    ensures forall k :: 0 <= k < |r.visited| ==> r.visited[k].x == s.x + k
    ensures forall k :: 0 <= k < |r.visited| - 1 ==> r.visited[k + 1] == HyperbolaNext2(a, b, r.visited[k])
    ensures |r.visited| > 0 ==> r.exit == HyperbolaNext2(a, b, r.visited[|r.visited| - 1])
    ensures r.exit.x == Max(s.x, HyperbolaLimit)
  {
    if s.x >= HyperbolaLimit then Run([], s)
    else
      var rest := HyperbolaRegion2(a, b, HyperbolaNext2(a, b, s));
      Run([s] + rest.visited, rest.exit)
  }

  /** What region 2's decision variable keeps as written: its sum with the
      hyperbola function at the midpoint `(x + 1, y + 0.5)` grows by `2 b^2` per
      step from the value `k` it had in column `x0`. */
  predicate HyperbolaDecision2(a: int, b: int, k: real, x0: int, s: RState)
  {
    s.d + HyperbolaF(a, b, (s.x + 1) as real, s.y as real + 0.5) == k + 2.0 * Sq(b) * (s.x - x0) as real
  }

  lemma HyperbolaNext2Decision(a: int, b: int, k: real, x0: int, s: RState)
    requires HyperbolaDecision2(a, b, k, x0, s)
    ensures HyperbolaDecision2(a, b, k, x0, HyperbolaNext2(a, b, s))
  {
    var X, Y := (s.x + 1) as real, s.y as real + 0.5;
    HyperbolaShiftX(a, b, X, Y);
    HyperbolaShiftY(a, b, X + 1.0, Y);
    assert 2.0 * Sq(b) * (s.x + 1 - x0) as real == 2.0 * Sq(b) * (s.x - x0) as real + 2.0 * Sq(b);
  }

  lemma {:induction false} HyperbolaRegion2Decision(a: int, b: int, k: real, x0: int, s: RState)
    requires HyperbolaDecision2(a, b, k, x0, s)
    ensures forall j :: 0 <= j < |HyperbolaRegion2(a, b, s).visited| ==>
              HyperbolaDecision2(a, b, k, x0, HyperbolaRegion2(a, b, s).visited[j])
    decreases HyperbolaLimit - s.x
  {
    if s.x < HyperbolaLimit {
      var n := HyperbolaNext2(a, b, s);
      HyperbolaNext2Decision(a, b, k, x0, s);
      HyperbolaRegion2Decision(a, b, k, x0, n);
      assert HyperbolaRegion2(a, b, s).visited == [s] + HyperbolaRegion2(a, b, n).visited;
    }
  }

  /** The start of region 1: the vertex `(a, 0)` with `d1` the function at the first
      midpoint `(a + 0.5, 1)`. */
  function HyperbolaStart1(a: int, b: int): (s: RState)
    ensures s.x == a && s.y == 0
    ensures s.d == HyperbolaF(a, b, a as real + 0.5, 1.0)
  {
    RState(a, 0, Sq(b) * (a as real + 0.5) * (a as real + 0.5) - Sq(a) * 1.0 * 1.0 - Sq(a) * Sq(b))
  }

  /** Region 2 continues from where region 1 stopped with a freshly computed `d2`. */
  function HyperbolaStart2(a: int, b: int, s: RState): (n: RState)
    ensures n.x == s.x && n.y == s.y
    ensures n.d == HyperbolaF(a, b, (s.x + 1) as real, s.y as real + 0.5)
  {
    RState(s.x, s.y, Sq(b) * (s.x + 1) as real * (s.x + 1) as real
                     - Sq(a) * (s.y as real + 0.5) * (s.y as real + 0.5) - Sq(a) * Sq(b))
  }

  function HyperbolaRuns(a: int, b: int, fuel: nat): (Run, Run)
  {
    var r1 := HyperbolaRegion1(a, b, HyperbolaStart1(a, b), fuel);
    (r1, HyperbolaRegion2(a, b, HyperbolaStart2(a, b, r1.exit)))
  }

  /** `draw_hyperbola(x0, y0, a, b)` with region 1 cut off after `fuel` steps. */
  function DrawHyperbola(c: Pt, a: int, b: int, fuel: nat): (r: seq<Pt>)
    ensures var (r1, r2) := HyperbolaRuns(a, b, fuel);
            && |r| == 4 * (|r1.visited| + |r2.visited|)
            && (forall k, j :: 0 <= k < |r1.visited| && 0 <= j < 4 ==>
                  r[4 * k + j] == Quadrants(c, r1.visited[k].x, r1.visited[k].y)[j])
            && (forall k, j :: 0 <= k < |r2.visited| && 0 <= j < 4 ==>
                  r[4 * (|r1.visited| + k) + j] == Quadrants(c, r2.visited[k].x, r2.visited[k].y)[j])
  {
    var (r1, r2) := HyperbolaRuns(a, b, fuel);
    var e1, e2 := EmitQuadrants(c, r1.visited), EmitQuadrants(c, r2.visited);
    QuadrantsJoin(c, r1.visited, r2.visited, e1, e2);
    e1 + e2
  }

  /** Region 1 starts at the vertex `(a, 0)` and climbs one row per step, and its
      decision relation holds throughout with the constant fixed at the vertex. */
  lemma HyperbolaRegion1Shape(a: int, b: int, fuel: nat)
    ensures var r1 := HyperbolaRuns(a, b, fuel).0;
            && (|r1.visited| > 0 ==> r1.visited[0].x == a && r1.visited[0].y == 0)
            && (forall k :: 0 <= k < |r1.visited| ==> r1.visited[k].y == k)
            && (forall k :: 0 <= k < |r1.visited| ==>
                  HyperbolaDecision1(a, b, 2.0 * HyperbolaF(a, b, a as real + 0.5, 1.0), r1.visited[k]))
  {
    HyperbolaRegion1Decision(a, b, 2.0 * HyperbolaF(a, b, a as real + 0.5, 1.0), HyperbolaStart1(a, b), fuel);
  }

  /** Region 2 advances one column per step from where region 1 stopped and ends at
      column 200, and its decision relation holds throughout. */
  lemma HyperbolaRegion2Shape(a: int, b: int, fuel: nat)
    ensures var (r1, r2) := HyperbolaRuns(a, b, fuel);
            && (forall k :: 0 <= k < |r2.visited| ==> r2.visited[k].x == r1.exit.x + k)
            && (forall k :: 0 <= k < |r2.visited| ==>
                  HyperbolaDecision2(a, b, 2.0 * HyperbolaF(a, b, (r1.exit.x + 1) as real, r1.exit.y as real + 0.5),
                                     r1.exit.x, r2.visited[k]))
            && r2.exit.x == Max(r1.exit.x, HyperbolaLimit)
  {
    var r1 := HyperbolaRuns(a, b, fuel).0;
    HyperbolaRegion2Decision(a, b, 2.0 * HyperbolaF(a, b, (r1.exit.x + 1) as real, r1.exit.y as real + 0.5),
                             r1.exit.x, HyperbolaStart2(a, b, r1.exit));
  }

  /** As written, region 1 moves to the next column exactly when the midpoint
      function is at most the constant kept by the decision relation, not when it is
      negative. */
  lemma HyperbolaNext1Choice(a: int, b: int, k: real, s: RState)
    requires HyperbolaDecision1(a, b, k, s)
    ensures HyperbolaNext1(a, b, s).x == s.x + 1 <==> HyperbolaF(a, b, s.x as real + 0.5, (s.y + 1) as real) <= k
  {
  }

  /** With the default sizes `a = 100`, `b = 50` the first midpoint `(100.5, 1)` lies
      outside the branch, so the pixel `(100, 1)` is the nearer one (its residual is
      -10000 against 492500 for `(101, 1)`), yet the code steps to `(101, 1)`. */
  lemma HyperbolaDefaultsSecondPixel()
    ensures HyperbolaStart1(100, 50).d == 240625.0
    ensures HyperbolaF(100, 50, 100.0, 1.0) == -10000.0 && HyperbolaF(100, 50, 101.0, 1.0) == 492500.0
    ensures HyperbolaGuard1(100, 50, HyperbolaStart1(100, 50))
    ensures HyperbolaNext1(100, 50, HyperbolaStart1(100, 50)).x == 101
    ensures HyperbolaNext1Corrected(100, 50, HyperbolaStart1(100, 50)).x == 100
  {
    assert Sq(100) == 10000.0 && Sq(50) == 2500.0;
  }

  /** Region 1's step with the midpoint test the updates are meant for: the
      variable tracks the midpoint function and a negative value (the curve lies right
      of the midpoint) selects the next column. */
  function HyperbolaNext1Corrected(a: int, b: int, s: RState): (n: RState)
    ensures n.y == s.y + 1
  {
    var y := s.y + 1;
    if s.d < 0.0 then RState(s.x + 1, y, s.d + 2.0 * Sq(b) * (s.x + 1) as real - 2.0 * Sq(a) * y as real - Sq(a))
    else RState(s.x, y, s.d - 2.0 * Sq(a) * y as real - Sq(a))
  }

  /** The corrected step keeps `d` equal to the midpoint function and moves to the
      next column exactly when the midpoint lies inside the branch. */
  lemma HyperbolaNext1CorrectedMidpoint(a: int, b: int, s: RState)
    requires s.d == HyperbolaF(a, b, s.x as real + 0.5, (s.y + 1) as real)
    ensures var n := HyperbolaNext1Corrected(a, b, s);
            && n.d == HyperbolaF(a, b, n.x as real + 0.5, (n.y + 1) as real)
            && (n.x == s.x + 1 <==> HyperbolaF(a, b, s.x as real + 0.5, (s.y + 1) as real) < 0.0)
            && (n.x == s.x || n.x == s.x + 1)
  {
    var X, Y := s.x as real + 0.5, (s.y + 1) as real;
    HyperbolaShiftY(a, b, X, Y);
    HyperbolaShiftX(a, b, X, Y + 1.0);
  }

  /** Region 1 with the corrected step, under the same guard and the same fuel. */
  function HyperbolaRegion1Corrected(a: int, b: int, s: RState, fuel: nat): (r: Run)
    decreases fuel
    ensures |r.visited| <= fuel
    ensures |r.visited| > 0 ==> r.visited[0] == s
    ensures r.visited == [] ==> r.exit == s
    ensures forall k :: 0 <= k < |r.visited| ==> HyperbolaGuard1(a, b, r.visited[k])
    ensures forall k :: 0 <= k < |r.visited| - 1 ==> r.visited[k + 1] == HyperbolaNext1Corrected(a, b, r.visited[k])
    ensures |r.visited| > 0 ==> r.exit == HyperbolaNext1Corrected(a, b, r.visited[|r.visited| - 1])
    ensures !HyperbolaGuard1(a, b, r.exit) || |r.visited| == fuel
  {
    if !HyperbolaGuard1(a, b, s) || fuel == 0 then Run([], s)
    else
      var rest := HyperbolaRegion1Corrected(a, b, HyperbolaNext1Corrected(a, b, s), fuel - 1);
      Run([s] + rest.visited, rest.exit)
  }

  /** `d` is the hyperbola function at the midpoint `(x + 0.5, y + 1)`. */
  predicate HyperbolaMidpoint(a: int, b: int, s: RState)
  {
    s.d == HyperbolaF(a, b, s.x as real + 0.5, (s.y + 1) as real)
  }

  /** Started on the midpoint function, the corrected region 1 tracks it in every
      state, and each step moves to the next column exactly when the midpoint lies
      between the branches. */
  lemma HyperbolaRegion1CorrectedTracks(a: int, b: int, s: RState, fuel: nat)
    requires HyperbolaMidpoint(a, b, s)
    ensures var r := HyperbolaRegion1Corrected(a, b, s, fuel);
            && (forall k :: 0 <= k < |r.visited| ==> HyperbolaMidpoint(a, b, r.visited[k]))
            && HyperbolaMidpoint(a, b, r.exit)
            && (forall k :: 0 <= k < |r.visited| - 1 ==>
                  (r.visited[k + 1].x == r.visited[k].x + 1 <==>
                   HyperbolaF(a, b, r.visited[k].x as real + 0.5, (r.visited[k].y + 1) as real) < 0.0))
  {
    var r := HyperbolaRegion1Corrected(a, b, s, fuel);
    HyperbolaCorrectedStepsTrack(a, b, r.visited);
    if r.visited != [] {
      HyperbolaNext1CorrectedMidpoint(a, b, r.visited[|r.visited| - 1]);
    }
  }

  /** States linked by the corrected step stay on the midpoint function once the
      first one is. */
  lemma {:induction false} HyperbolaCorrectedStepsTrack(a: int, b: int, vs: seq<RState>)
    requires |vs| > 0 ==> HyperbolaMidpoint(a, b, vs[0])
    requires forall j :: 0 <= j < |vs| - 1 ==> vs[j + 1] == HyperbolaNext1Corrected(a, b, vs[j])
    ensures forall j :: 0 <= j < |vs| ==> HyperbolaMidpoint(a, b, vs[j])
    ensures forall j :: 0 <= j < |vs| - 1 ==>
              (vs[j + 1].x == vs[j].x + 1 <==> HyperbolaF(a, b, vs[j].x as real + 0.5, (vs[j].y + 1) as real) < 0.0)
  {
    if |vs| > 1 {
      HyperbolaNext1CorrectedMidpoint(a, b, vs[0]);
      HyperbolaCorrectedStepsTrack(a, b, vs[1..]);
      forall j | 1 <= j < |vs|
        ensures HyperbolaMidpoint(a, b, vs[j])
      {
        assert vs[j] == vs[1..][j - 1];
      }
      forall j | 1 <= j < |vs| - 1
        ensures vs[j + 1].x == vs[j].x + 1 <==> HyperbolaF(a, b, vs[j].x as real + 0.5, (vs[j].y + 1) as real) < 0.0
      {
        assert vs[j] == vs[1..][j - 1] && vs[j + 1] == vs[1..][j];
      }
    }
  }

  /** The two runs of the corrected drawing. */
  function HyperbolaRunsCorrected(a: int, b: int, fuel: nat): (Run, Run)
  {
    var r1 := HyperbolaRegion1Corrected(a, b, HyperbolaStart1(a, b), fuel);
    (r1, HyperbolaRegion2(a, b, HyperbolaStart2(a, b, r1.exit)))
  }

  /** `draw_hyperbola` with the corrected region 1 step; region 2 is unchanged. */
  function DrawHyperbolaCorrected(c: Pt, a: int, b: int, fuel: nat): (r: seq<Pt>)
    ensures var (r1, r2) := HyperbolaRunsCorrected(a, b, fuel);
            && |r| == 4 * (|r1.visited| + |r2.visited|)
            && (forall k, j :: 0 <= k < |r1.visited| && 0 <= j < 4 ==>
                  r[4 * k + j] == Quadrants(c, r1.visited[k].x, r1.visited[k].y)[j])
            && (forall k, j :: 0 <= k < |r2.visited| && 0 <= j < 4 ==>
                  r[4 * (|r1.visited| + k) + j] == Quadrants(c, r2.visited[k].x, r2.visited[k].y)[j])
  {
    var (r1, r2) := HyperbolaRunsCorrected(a, b, fuel);
    var e1, e2 := EmitQuadrants(c, r1.visited), EmitQuadrants(c, r2.visited);
    QuadrantsJoin(c, r1.visited, r2.visited, e1, e2);
    e1 + e2
  }

  /** Every region 1 state of the corrected drawing keeps `d` on the midpoint
      function, from the vertex on. */
  lemma DrawHyperbolaCorrectedTracks(a: int, b: int, fuel: nat)
    ensures var r1 := HyperbolaRegion1Corrected(a, b, HyperbolaStart1(a, b), fuel);
            forall k :: 0 <= k < |r1.visited| ==> HyperbolaMidpoint(a, b, r1.visited[k])
  {
    HyperbolaRegion1CorrectedTracks(a, b, HyperbolaStart1(a, b), fuel);
  }

  // -------------------------------------------------------------- parabola

  /** The columns `x = 0 .. 200` of `draw_parabola`. */
  const ParabolaLimit := 200

  /** The height `x^2 / (4p)` of column `x`. */
  function ParabolaHeight(p: int, x: int): real
    requires p != 0
  {
    (x * x) as real / (4 * p) as real
  }

  /** The two points of column `x`: `(x0 + x, y0 - y)` and `(x0 - x, y0 - y)`. */
  function ParabolaPair(c: Pt, p: int, x: int): (r: seq<RPt>)
    requires p != 0
    ensures |r| == 2
  {
    var y := ParabolaHeight(p, x);
    [RPt((c.x + x) as real, c.y as real - y), RPt((c.x - x) as real, c.y as real - y)]
  }

  /** The mirrored pairs of the columns from `x` on. */
  function ParabolaFrom(c: Pt, p: int, x: nat): (r: seq<RPt>)
    requires p != 0
    decreases ParabolaLimit + 1 - x
    ensures |r| == if x <= ParabolaLimit then 2 * (ParabolaLimit + 1 - x) else 0
    ensures forall k, j :: x <= k <= ParabolaLimit && 0 <= j < 2 ==> r[2 * (k - x) + j] == ParabolaPair(c, p, k)[j]
  {
    if x > ParabolaLimit then [] else
      var rest := ParabolaFrom(c, p, x + 1);
      ParabolaPair(c, p, x) + rest
  }

  /** `draw_parabola(x0, y0, p)`: `p == 0` divides by zero, so it is excluded. */
  function DrawParabola(c: Pt, p: int): (r: seq<RPt>)
    requires p != 0
    ensures |r| == 2 * (ParabolaLimit + 1)
    ensures forall k, j :: 0 <= k <= ParabolaLimit && 0 <= j < 2 ==> r[2 * k + j] == ParabolaPair(c, p, k)[j]
  {
    ParabolaFrom(c, p, 0)
  }

  /** `q` lies on the parabola `4p (y0 - Y) == (X - x0)^2` with vertex at the center. */
  predicate OnParabola(c: Pt, p: int, q: RPt)
  {
    (4 * p) as real * (c.y as real - q.y) == (q.x - c.x as real) * (q.x - c.x as real)
  }

  /** Both points of column `x` lie on the parabola, mirrored in the vertical axis
      through its vertex. */
  lemma ParabolaPairOnCurve(c: Pt, p: int, x: int)
    requires p != 0
    ensures forall q :: q in ParabolaPair(c, p, x) ==> OnParabola(c, p, q)
    ensures ParabolaPair(c, p, x)[0].y == ParabolaPair(c, p, x)[1].y
    ensures ParabolaPair(c, p, x)[0].x - c.x as real == c.x as real - ParabolaPair(c, p, x)[1].x
  {
    var h := ParabolaHeight(p, x);
    assert (4 * p) as real * h == (x * x) as real;
    assert (x * x) as real == x as real * x as real;
    assert (-x) as real * (-x) as real == x as real * x as real;
  }

  /** A sequence laid out as the pairs of columns `0 .. n - 1` lies on the parabola. */
  lemma PairsOnCurve(c: Pt, p: int, n: nat, r: seq<RPt>)
    requires p != 0
    requires |r| == 2 * n
    requires forall k, j :: 0 <= k < n && 0 <= j < 2 ==> r[2 * k + j] == ParabolaPair(c, p, k)[j]
    ensures forall q :: q in r ==> OnParabola(c, p, q)
  {
    forall q | q in r
      ensures OnParabola(c, p, q)
    {
      var i :| 0 <= i < |r| && r[i] == q;
      var k, j := i / 2, i % 2;
      assert i == 2 * k + j;
      assert r[2 * k + j] == ParabolaPair(c, p, k)[j];
      ParabolaPairOnCurve(c, p, k);
    }
  }

  /** 201 iterations of two points each, every one on the parabola. */
  lemma DrawParabolaOnCurve(c: Pt, p: int)
    requires p != 0
    ensures |DrawParabola(c, p)| == 2 * (ParabolaLimit + 1)
    ensures forall q :: q in DrawParabola(c, p) ==> OnParabola(c, p, q)
  {
    PairsOnCurve(c, p, ParabolaLimit + 1, DrawParabola(c, p));
  }
}
