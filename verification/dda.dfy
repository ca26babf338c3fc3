/** The digital differential analyzer of `dda_line` (lab 1, real-valued samples,
    both endpoints) and `draw_dda` (lab 5, rounded samples, end point left out).
    Floating-point accumulation `x += x_inc` is modelled in exact arithmetic. */
module Dda {
  import opened Geometry

  /** `max(abs(dx), abs(dy))`, the number of increments. */
  function Steps(p1: Pt, p2: Pt): (n: nat)
    ensures n >= Abs(p2.x - p1.x) && n >= Abs(p2.y - p1.y)
    ensures n == Abs(p2.x - p1.x) || n == Abs(p2.y - p1.y)
    ensures n == 0 <==> p1 == p2
  {
    Max(Abs(p2.x - p1.x), Abs(p2.y - p1.y))
  }

  /** `dx / steps`, the per-step increment along x. */
  function IncX(p1: Pt, p2: Pt): real
    requires p1 != p2
  {
    (p2.x - p1.x) as real / Steps(p1, p2) as real
  }

  function IncY(p1: Pt, p2: Pt): real
    requires p1 != p2
  {
    (p2.y - p1.y) as real / Steps(p1, p2) as real
  }

  /** The accumulated position after `k` increments: `p1 + k * (dx, dy) / steps`. */
  function Sample(p1: Pt, p2: Pt, k: nat): RPt
    requires p1 != p2
  {
    RPt(p1.x as real + k as real * IncX(p1, p2), p1.y as real + k as real * IncY(p1, p2))
  }

  /** The samples start at `p1` and, in exact arithmetic, the `steps`-th is `p2`. */
  lemma SampleEnds(p1: Pt, p2: Pt)
    requires p1 != p2
    ensures Sample(p1, p2, 0) == ToReal(p1)
    ensures Sample(p1, p2, Steps(p1, p2)) == ToReal(p2)
  {
    var s := Steps(p1, p2) as real;
    assert s * ((p2.x - p1.x) as real / s) == (p2.x - p1.x) as real;
    assert s * ((p2.y - p1.y) as real / s) == (p2.y - p1.y) as real;
  }

  /** Along the dominant axis the increment is exactly one unit toward `p2`, along
      the other it is at most one unit. */
  lemma DominantAxisUnit(p1: Pt, p2: Pt)
    requires p1 != p2
    ensures Abs(p2.x - p1.x) >= Abs(p2.y - p1.y) ==>
              IncX(p1, p2) == (if p1.x < p2.x then 1.0 else -1.0) && -1.0 <= IncY(p1, p2) <= 1.0
    ensures Abs(p2.y - p1.y) >= Abs(p2.x - p1.x) ==>
              IncY(p1, p2) == (if p1.y < p2.y then 1.0 else -1.0) && -1.0 <= IncX(p1, p2) <= 1.0
  {
    var s := Steps(p1, p2) as real;
    var dx := (p2.x - p1.x) as real;
    var dy := (p2.y - p1.y) as real;
    assert s > 0.0;
    assert -s <= dx <= s && -s <= dy <= s;
    UnitQuotient(dx, s);
    UnitQuotient(dy, s);
    if Abs(p2.x - p1.x) >= Abs(p2.y - p1.y) {
      assert s == AbsR(dx);
    }
    if Abs(p2.y - p1.y) >= Abs(p2.x - p1.x) {
      assert s == AbsR(dy);
    }
  }

  /** `a / s` lies in [-1, 1] when `|a| <= s`, and is the sign of `a` when `|a| == s`. */
  lemma UnitQuotient(a: real, s: real)
    requires s > 0.0 && -s <= a <= s
    ensures -1.0 <= a / s <= 1.0
    ensures a == s ==> a / s == 1.0
    ensures a == -s ==> a / s == -1.0
  {
  }

  /** Consecutive samples move exactly one unit along the dominant axis. */
  lemma SampleStep(p1: Pt, p2: Pt, k: nat)
    requires p1 != p2
    ensures Abs(p2.x - p1.x) >= Abs(p2.y - p1.y) ==>
              Sample(p1, p2, k + 1).x - Sample(p1, p2, k).x == (if p1.x < p2.x then 1.0 else -1.0)
    ensures Abs(p2.y - p1.y) >= Abs(p2.x - p1.x) ==>
              Sample(p1, p2, k + 1).y - Sample(p1, p2, k).y == (if p1.y < p2.y then 1.0 else -1.0)
  {
    DominantAxisUnit(p1, p2);
    assert (k + 1) as real * IncX(p1, p2) == k as real * IncX(p1, p2) + IncX(p1, p2);
    assert (k + 1) as real * IncY(p1, p2) == k as real * IncY(p1, p2) + IncY(p1, p2);
  }

  /** `dda_line` of lab 1: the points handed to the canvas. */
  method DdaLine(p1: Pt, p2: Pt) returns (pts: seq<RPt>)
    ensures p1 == p2 ==> pts == [ToReal(p1)]
    ensures p1 != p2 ==> |pts| == Steps(p1, p2) + 1
    ensures p1 != p2 ==> forall k :: 0 <= k < |pts| ==> pts[k] == Sample(p1, p2, k)
    ensures |pts| >= 1 && pts[0] == ToReal(p1) && pts[|pts| - 1] == ToReal(p2)
  {
    if p1 == p2 {
      return [ToReal(p1)];
    }
    var steps := Steps(p1, p2);
    var xInc := IncX(p1, p2);
    var yInc := IncY(p1, p2);
    var x, y := p1.x as real, p1.y as real;
    pts := [];
    var k := 0;
    while k < steps + 1
      invariant 0 <= k <= steps + 1
      invariant |pts| == k
      invariant RPt(x, y) == Sample(p1, p2, k)
      invariant forall j :: 0 <= j < k ==> pts[j] == Sample(p1, p2, j)
    {
      pts := pts + [RPt(x, y)];
      SampleNext(p1, p2, k);
      x := x + xInc;
      y := y + yInc;
      k := k + 1;
    }
    SampleEnds(p1, p2);
  }

  /** Python's `round` on an exact value: nearest integer, ties to even. */
  function RoundHalfEven(r: real): (n: int)
    ensures AbsR(r - n as real) <= 0.5
    ensures AbsR(r - n as real) == 0.5 ==> n % 2 == 0
  {
    var f := r.Floor;
    var frac := r - f as real;
    if frac < 0.5 then f
    else if frac > 0.5 then f + 1
    else if f % 2 == 0 then f else f + 1
  }

  /** Rounding an integer gives it back. */
  lemma RoundInteger(n: int)
    ensures RoundHalfEven(n as real) == n
  {
  }

  function RoundPt(p: RPt): Pt
  {
    Pt(RoundHalfEven(p.x), RoundHalfEven(p.y))
  }

  /** `draw_dda` of lab 5. It has no equal-endpoint guard: for `p1 == p2` it divides
      by zero, so distinct endpoints are required. */
  method DrawDda(p1: Pt, p2: Pt) returns (pts: seq<Pt>)
    requires p1 != p2
    ensures |pts| == Steps(p1, p2)
    ensures forall k :: 0 <= k < |pts| ==> pts[k] == RoundPt(Sample(p1, p2, k))
    ensures |pts| >= 1 && pts[0] == p1
    ensures p2 !in pts
  {
    var steps := Steps(p1, p2);
    var xInc := IncX(p1, p2);
    var yInc := IncY(p1, p2);
    var x, y := p1.x as real, p1.y as real;
    pts := [];
    var k := 0;
    while k < steps
      invariant 0 <= k <= steps
      invariant |pts| == k
      invariant RPt(x, y) == Sample(p1, p2, k)
      invariant forall j :: 0 <= j < k ==> pts[j] == RoundPt(Sample(p1, p2, j))
    {
      pts := pts + [RoundPt(RPt(x, y))];
      SampleNext(p1, p2, k);
      x := x + xInc;
      y := y + yInc;
      k := k + 1;
    }
    RoundedSamplesMissEnd(p1, p2, pts);
  }

  /** One more increment moves the sample by `(x_inc, y_inc)`. */
  lemma SampleNext(p1: Pt, p2: Pt, k: nat)
    requires p1 != p2
    ensures Sample(p1, p2, k + 1) == RPt(Sample(p1, p2, k).x + IncX(p1, p2), Sample(p1, p2, k).y + IncY(p1, p2))
  {
    assert (k + 1) as real * IncX(p1, p2) == k as real * IncX(p1, p2) + IncX(p1, p2);
    assert (k + 1) as real * IncY(p1, p2) == k as real * IncY(p1, p2) + IncY(p1, p2);
  }

  /** The first `steps` rounded samples start at `p1` and never reach `p2`. */
  lemma RoundedSamplesMissEnd(p1: Pt, p2: Pt, pts: seq<Pt>)
    requires p1 != p2 && |pts| == Steps(p1, p2)
    requires forall k :: 0 <= k < |pts| ==> pts[k] == RoundPt(Sample(p1, p2, k))
    ensures |pts| >= 1 && pts[0] == p1
    ensures p2 !in pts
  {
    DominantCoordinate(p1, p2, 0);
    forall j | 0 <= j < |pts|
      ensures pts[j] != p2
    {
      DominantCoordinate(p1, p2, j);
    }
  }

  /** Along the dominant axis the `k`-th rounded sample is exactly `k` units from
      `p1`: the first point drawn by `draw_dda` is `p1` and no point drawn is `p2`. */
  lemma DominantCoordinate(p1: Pt, p2: Pt, k: nat)
    requires p1 != p2
    ensures Abs(p2.x - p1.x) >= Abs(p2.y - p1.y) ==>
              RoundPt(Sample(p1, p2, k)).x == p1.x + (if p1.x < p2.x then k as int else -(k as int))
    ensures Abs(p2.y - p1.y) >= Abs(p2.x - p1.x) ==>
              RoundPt(Sample(p1, p2, k)).y == p1.y + (if p1.y < p2.y then k as int else -(k as int))
    ensures RoundPt(Sample(p1, p2, 0)) == p1
    ensures k < Steps(p1, p2) ==> RoundPt(Sample(p1, p2, k)) != p2
  {
    if Abs(p2.x - p1.x) >= Abs(p2.y - p1.y) {
      DominantX(p1, p2, k);
    }
    if Abs(p2.y - p1.y) >= Abs(p2.x - p1.x) {
      DominantY(p1, p2, k);
    }
    SampleStart(p1, p2);
  }

  lemma DominantX(p1: Pt, p2: Pt, k: nat)
    requires p1 != p2 && Abs(p2.x - p1.x) >= Abs(p2.y - p1.y)
    ensures RoundPt(Sample(p1, p2, k)).x == p1.x + (if p1.x < p2.x then k as int else -(k as int))
  {
    DominantAxisUnit(p1, p2);
    UnitWalkRounds(p1.x, p2.x, IncX(p1, p2), k);
  }

  lemma DominantY(p1: Pt, p2: Pt, k: nat)
    requires p1 != p2 && Abs(p2.y - p1.y) >= Abs(p2.x - p1.x)
    ensures RoundPt(Sample(p1, p2, k)).y == p1.y + (if p1.y < p2.y then k as int else -(k as int))
  {
    DominantAxisUnit(p1, p2);
    UnitWalkRounds(p1.y, p2.y, IncY(p1, p2), k);
  }

  /** Along one axis, `k` unit increments toward `c2` from `c1` round to the
      integer `k` units away. */
  lemma UnitWalkRounds(c1: int, c2: int, inc: real, k: nat)
    requires inc == (if c1 < c2 then 1.0 else -1.0)
    ensures RoundHalfEven(c1 as real + k as real * inc) == c1 + (if c1 < c2 then k as int else -(k as int))
  {
    var c := c1 + (if c1 < c2 then k as int else -(k as int));
    assert c1 as real + k as real * inc == c as real;
    RoundInteger(c);
  }

  /** The first rounded sample is `p1` itself. */
  lemma SampleStart(p1: Pt, p2: Pt)
    requires p1 != p2
    ensures RoundPt(Sample(p1, p2, 0)) == p1
  {
    assert Sample(p1, p2, 0) == RPt(p1.x as real, p1.y as real);
    RoundInteger(p1.x);
    RoundInteger(p1.y);
  }
}
