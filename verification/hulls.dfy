/** The convex-hull builders of lab 5: the Graham scan over a pivot and an angular
    order, and the Jarvis march. */
module Hulls {
  import opened Geometry
  import opened Polygons

  /** `a` sorts no later than `b` under the key `(y, x)`. */
  predicate LowerFirst(a: Pt, b: Pt)
  {
    a.y < b.y || (a.y == b.y && a.x <= b.x)
  }

  /** `sorted(points, key=lambda p: (p[1], p[0]))[0]`: the lowest point, the leftmost
      among the lowest. */
  function Lowest(ps: seq<Pt>): (r: Pt)
    requires |ps| > 0
    ensures r in ps
    ensures forall i :: 0 <= i < |ps| ==> LowerFirst(r, ps[i])
  {
    if |ps| == 1 then ps[0]
    else
      var m := Lowest(ps[1..]);
      assert forall i :: 1 <= i < |ps| ==> ps[i] == ps[1..][i - 1];
      if LowerFirst(ps[0], m) then ps[0] else m
  }

  /** `graham_scan(points)`. The polar-angle sort of the remaining points is an input
      here: `byAngle` is any ordering of the points other than the pivot. The scan
      pops while the last two stack points and the next one do not make a `-1` turn. */
  method GrahamScan(points: seq<Pt>, byAngle: seq<Pt>) returns (hull: seq<Pt>)
    requires |points| >= 2
    requires multiset(byAngle) + multiset{Lowest(points)} == multiset(points)
    ensures |hull| >= 2 && hull[0] == Lowest(points)
    ensures |byAngle| > 0 && hull[|hull| - 1] == byAngle[|byAngle| - 1]
    ensures forall i :: 0 <= i < |hull| ==> hull[i] in points
    ensures forall i :: 0 <= i < |hull| - 2 ==> Orientation(hull[i], hull[i + 1], hull[i + 2]) == -1
  {
    var p0 := Lowest(points);
    assert |byAngle| >= 1 by {
      assert |multiset(byAngle)| + 1 == |multiset(points)|;
    }
    assert forall k :: 0 <= k < |byAngle| ==> byAngle[k] in points by {
      forall k | 0 <= k < |byAngle|
        ensures byAngle[k] in points
      {
        assert byAngle[k] in multiset(byAngle);
        assert byAngle[k] in multiset(points);
      }
    }
    var stack := [p0, byAngle[0]];
    for k := 1 to |byAngle|
      invariant |stack| >= 2 && stack[0] == p0 && stack[|stack| - 1] == byAngle[k - 1]
      invariant forall i :: 0 <= i < |stack| ==> stack[i] in points
      invariant forall i :: 0 <= i < |stack| - 2 ==> Orientation(stack[i], stack[i + 1], stack[i + 2]) == -1
    {
      var p := byAngle[k];
      while |stack| > 1 && Orientation(stack[|stack| - 2], stack[|stack| - 1], p) != -1
        invariant |stack| >= 1 && stack[0] == p0
        invariant forall i :: 0 <= i < |stack| ==> stack[i] in points
        invariant forall i :: 0 <= i < |stack| - 2 ==> Orientation(stack[i], stack[i + 1], stack[i + 2]) == -1
        decreases |stack|
      {
        stack := stack[..|stack| - 1];
      }
      stack := stack + [p];
    }
    return stack;
  }

  /** The turns of a square traversed from its pivot are all `-1`, the ones the
      scan keeps; a collinear middle point gives `0` and is popped. */
  lemma GrahamSquareTurns()
    ensures Orientation(Pt(0, 0), Pt(10, 0), Pt(10, 10)) == -1
    ensures Orientation(Pt(10, 0), Pt(10, 10), Pt(0, 10)) == -1
    ensures Orientation(Pt(0, 0), Pt(10, 10), Pt(0, 10)) == -1
    ensures Orientation(Pt(0, 0), Pt(5, 5), Pt(10, 10)) == 0
  {
  }

  // ------------------------------------------------------------ Jarvis march

  /** The index `min(points, key=lambda p: p[0])` picks: the first of least `x`. */
  function LeftmostIndex(ps: seq<Pt>): (k: nat)
    requires |ps| > 0
    ensures k < |ps|
    ensures forall i :: 0 <= i < |ps| ==> ps[k].x <= ps[i].x
    ensures forall i :: 0 <= i < k ==> ps[k].x < ps[i].x
  {
    if |ps| == 1 then 0
    else
      var m := LeftmostIndex(ps[1..]);
      assert forall i :: 1 <= i < |ps| ==> ps[i] == ps[1..][i - 1];
      if ps[0].x <= ps[m + 1].x then 0 else m + 1
  }

  function Leftmost(ps: seq<Pt>): (r: Pt)
    requires |ps| > 0
    ensures r in ps
  {
    ps[LeftmostIndex(ps)]
  }

  /** One candidate of the inner loop: the candidate replaces `next` when it lies on
      the `-1` side of `point -> next`, or on that line strictly farther from
      `point`. `np.linalg.norm` is compared through squared distances, which order
      the same way. */
  function Consider(point: Pt, next: Pt, cand: Pt): (r: Pt)
    ensures r == next || r == cand
    ensures cand != point && cand != next && Orientation(point, next, cand) == 0 ==>
              (r == cand <==> SqDist(cand, point) > SqDist(next, point))
    ensures r == point ==> next == point && cand == point
  {
    if cand == point then next
    else
      OrientationSameStart(point, cand);
      var o := Orientation(point, next, cand);
      if o == -1 || (o == 0 && SqDist(cand, point) > SqDist(next, point)) then cand else next
  }

  /** The inner loop over `points[i:]`, starting from the current `next`. */
  function ScanFrom(ps: seq<Pt>, point: Pt, next: Pt, i: nat): (r: Pt)
    requires i <= |ps|
    decreases |ps| - i
    ensures r == next || exists j :: i <= j < |ps| && r == ps[j]
    ensures r == point ==> next == point && forall j :: i <= j < |ps| ==> ps[j] == point
  {
    if i == |ps| then next
    else
      var n := Consider(point, next, ps[i]);
      ScanFrom(ps, point, n, i + 1)
  }

  /** From `point`, a distinct candidate always beats `point` itself. */
  lemma OrientationSameStart(p: Pt, c: Pt)
    requires c != p
    ensures Orientation(p, p, c) == 0 && SqDist(c, p) > SqDist(p, p)
  {
  }

  /** The vertex after `point`: always an input point, and never `point` itself
      when some input point differs from it. */
  function NextVertex(ps: seq<Pt>, point: Pt): (r: Pt)
    requires |ps| > 0
    ensures r in ps
    ensures r == point ==> forall j :: 0 <= j < |ps| ==> ps[j] == point
  {
    ScanFrom(ps, point, ps[0], 1)
  }

  /** The outer loop from `point`, with at most `fuel` more steps: the code has no
      bound of its own. It stops after returning to `leftmost`. */
  function March(ps: seq<Pt>, leftmost: Pt, point: Pt, fuel: nat): (hull: seq<Pt>)
    requires |ps| > 0 && point in ps && leftmost in ps
    ensures |hull| >= 1 && hull[0] == point && |hull| <= fuel + 1
    ensures forall k :: 0 <= k < |hull| ==> hull[k] in ps
    ensures forall k :: 1 <= k < |hull| ==> hull[k] != leftmost && hull[k] == NextVertex(ps, hull[k - 1])
    ensures forall k :: 1 <= k < |hull| ==> hull[k] != hull[k - 1]
    decreases fuel
  {
    var next := NextVertex(ps, point);
    if next == leftmost || fuel == 0 then [point]
    else
      assert next != point;
      [point] + March(ps, leftmost, next, fuel - 1)
  }

  /** `jarvis_march(points)`: fewer than three points come back unchanged; otherwise
      the hull starts at a point of least `x`, visits only input points, never stays
      in place, and closes when it would return to that start. */
  function JarvisMarch(ps: seq<Pt>, fuel: nat): (hull: seq<Pt>)
    ensures |ps| < 3 ==> hull == ps
    ensures |ps| >= 3 ==> (&& |hull| >= 1 && hull[0] == Leftmost(ps)
                           && (forall i :: 0 <= i < |ps| ==> hull[0].x <= ps[i].x)
                           && (forall k :: 0 <= k < |hull| ==> hull[k] in ps)
                           && (forall k :: 1 <= k < |hull| ==> hull[k] != hull[0] && hull[k] != hull[k - 1]))
  {
    if |ps| < 3 then ps else March(ps, Leftmost(ps), Leftmost(ps), fuel)
  }

  /** The turns and distances the candidate steps below compare. */
  lemma SquareTurns()
    ensures Orientation(Pt(0, 0), Pt(0, 0), Pt(0, 5)) == 0
    ensures Orientation(Pt(0, 0), Pt(0, 5), Pt(0, 10)) == 0
    ensures Orientation(Pt(0, 0), Pt(0, 10), Pt(10, 10)) == 1
    ensures Orientation(Pt(0, 0), Pt(0, 10), Pt(10, 0)) == 1
  {
  }

  lemma SquareDistances()
    ensures SqDist(Pt(0, 0), Pt(0, 0)) == 0
    ensures SqDist(Pt(0, 5), Pt(0, 0)) == 25
    ensures SqDist(Pt(0, 10), Pt(0, 0)) == 100
  {
  }

  /** The candidate steps from `(0,0)` over the square with an extra point on its
      left edge: the farther collinear `(0,10)` replaces `(0,5)`, and the other two
      corners lie on the `+1` side and are passed over. */
  lemma SquareCandidates()
    ensures Consider(Pt(0, 0), Pt(0, 0), Pt(0, 5)) == Pt(0, 5)
    ensures Consider(Pt(0, 0), Pt(0, 5), Pt(0, 10)) == Pt(0, 10)
    ensures Consider(Pt(0, 0), Pt(0, 10), Pt(10, 10)) == Pt(0, 10)
    ensures Consider(Pt(0, 0), Pt(0, 10), Pt(10, 0)) == Pt(0, 10)
  {
    SquareTurns();
    SquareDistances();
  }

  /** The march from `(0,0)` over that square takes `(0,10)`, not `(0,5)`. */
  lemma JarvisPrefersFarther()
    ensures NextVertex([Pt(0, 0), Pt(0, 5), Pt(0, 10), Pt(10, 10), Pt(10, 0)], Pt(0, 0)) == Pt(0, 10)
  {
    var ps := [Pt(0, 0), Pt(0, 5), Pt(0, 10), Pt(10, 10), Pt(10, 0)];
    var o := Pt(0, 0);
    SquareCandidates();
    assert ScanFrom(ps, o, o, 1) == ScanFrom(ps, o, Pt(0, 5), 2);
    assert ScanFrom(ps, o, Pt(0, 5), 2) == ScanFrom(ps, o, Pt(0, 10), 3);
    assert ScanFrom(ps, o, Pt(0, 10), 3) == ScanFrom(ps, o, Pt(0, 10), 4);
    assert ScanFrom(ps, o, Pt(0, 10), 4) == ScanFrom(ps, o, Pt(0, 10), 5);
  }
}
