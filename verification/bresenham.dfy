/** Bresenham's integer line walk, shared by `bresenham_line` (lab 1, which also
    logs a normalized error) and `draw_bresenham` (lab 5, which returns the points).
    All eight octants use one loop driven by the signs `sx` and `sy`. */
module Bresenham {
  import opened Geometry

  /** One loop iteration as the source sees it: the pixel emitted and the error
      term `err` at that moment. */
  datatype Step = Step(at: Pt, err: int)

  /** `1 if a < b else -1`, the direction of travel along one axis. */
  function Dir(a: int, b: int): (s: int)
    ensures s == 1 || s == -1
    ensures a < b <==> s == 1
  {
    if a < b then 1 else -1
  }

  /** `c` lies on the closed interval between `a` and `b`. */
  predicate Between(a: int, c: int, b: int)
  {
    (a <= c <= b) || (b <= c <= a)
  }

  predicate InBox(p1: Pt, p2: Pt, q: Pt)
  {
    Between(p1.x, q.x, p2.x) && Between(p1.y, q.y, p2.y)
  }

  /** The loop invariant: the current pixel stays in the endpoints' box and the
      error term is `dx*(1+j) - dy*(1+i)` after `i` steps in x and `j` in y. */
  predicate WalkInv(p1: Pt, p2: Pt, cur: Pt, err: int)
  {
    var dx := Abs(p2.x - p1.x);
    var dy := Abs(p2.y - p1.y);
    var i := Abs(cur.x - p1.x);
    var j := Abs(cur.y - p1.y);
    InBox(p1, p2, cur) && err == ErrAt(dx, dy, i, j)
  }

  /** The error term after `i` moves in x and `j` in y. */
  function ErrAt(dx: int, dy: int, i: int, j: int): int
  {
    dx - dy + dx * j - dy * i
  }

  /** One move of the walk: x moves by 0 or `sx`, y by 0 or `sy`, never neither. */
  predicate UnitStep(p1: Pt, p2: Pt, a: Pt, b: Pt)
  {
    (b.x == a.x || b.x == a.x + Dir(p1.x, p2.x)) &&
    (b.y == a.y || b.y == a.y + Dir(p1.y, p2.y)) &&
    a != b
  }

  /** The loop body on a state that is not yet the end point. */
  function Next(p1: Pt, p2: Pt, cur: Pt, err: int): Step
  {
    var dx: int := Abs(p2.x - p1.x);
    var dy: int := Abs(p2.y - p1.y);
    var e2 := err * 2;
    var x': int := if e2 > -dy then cur.x + Dir(p1.x, p2.x) else cur.x;
    var err': int := if e2 > -dy then err - dy else err;
    var y': int := if e2 < dx then cur.y + Dir(p1.y, p2.y) else cur.y;
    var err'': int := if e2 < dx then err' + dx else err';
    Step(Pt(x', y'), err'')
  }

  /** Distance left to travel, in unit moves per axis. */
  function Remaining(p2: Pt, cur: Pt): nat
  {
    Abs(p2.x - cur.x) + Abs(p2.y - cur.y)
  }

  /** Along one axis, a coordinate between `a` and `b` splits the distance. */
  lemma AxisSplit(a: int, c: int, b: int)
    requires Between(a, c, b)
    ensures Abs(c - a) + Abs(b - c) == Abs(b - a)
  {
  }

  /** Along one axis, the coordinate after a move by `Dir(a, b)` (when `moves`) or
      after staying put: it stays between the endpoints, is one unit further from
      `a` and one closer to `b` exactly when it moved. */
  lemma AxisNext(a: int, c: int, b: int, moves: bool, c': int)
    requires Between(a, c, b)
    requires moves ==> Abs(c - a) < Abs(b - a)
    requires c' == if moves then c + Dir(a, b) else c
    ensures Between(a, c', b)
    ensures Abs(c' - a) == (if moves then Abs(c - a) + 1 else Abs(c - a))
    ensures Abs(b - c') + (if moves then 1 else 0) == Abs(b - c)
    ensures c' == c || c' == c + Dir(a, b)
    ensures moves <==> c' != c
  {
  }

  /** The error-term arithmetic of one iteration, in terms of the step counts
      `i` (x moves so far) and `j` (y moves so far): a branch fires only on an axis
      that has not arrived, at least one fires, and the invariant is kept. */
  lemma ErrorStep(dx: int, dy: int, i: int, j: int, err: int)
    requires 0 <= i <= dx && 0 <= j <= dy && j <= dy && !(i == dx && j == dy)
    requires err == ErrAt(dx, dy, i, j)
    ensures 2 * err > -dy ==> i < dx
    ensures 2 * err < dx ==> j < dy
    ensures 2 * err > -dy || 2 * err < dx
    ensures err - dy == ErrAt(dx, dy, i + 1, j)
    ensures err + dx == ErrAt(dx, dy, i, j + 1)
    ensures err - dy + dx == ErrAt(dx, dy, i + 1, j + 1)
  {
    if i == dx {
      MulMonotone(dx, j + 1, dy);
      assert dx * (j + 1) == dx * j + dx;
      assert 2 * err <= -dy;
    }
    if j == dy {
      MulMonotone(dy, i + 1, dx);
      assert dy * (i + 1) == dy * i + dy;
      assert 2 * err >= dx;
    }
    assert dx * (j + 1) == dx * j + dx;
    assert dy * (i + 1) == dy * i + dy;
  }

  /** Which axes the body moves along: only ones not yet arrived, and at least
      one; and the error term each combination of moves leads to. */
  lemma NextMoves(p1: Pt, p2: Pt, cur: Pt, err: int, dx: int, dy: int)
    requires WalkInv(p1, p2, cur, err) && cur != p2
    requires dx == Abs(p2.x - p1.x) && dy == Abs(p2.y - p1.y)
    ensures err * 2 > -dy ==> Abs(cur.x - p1.x) < dx
    ensures err * 2 < dx ==> Abs(cur.y - p1.y) < dy
    ensures err * 2 > -dy || err * 2 < dx
    ensures err - dy == ErrAt(dx, dy, Abs(cur.x - p1.x) + 1, Abs(cur.y - p1.y))
    ensures err + dx == ErrAt(dx, dy, Abs(cur.x - p1.x), Abs(cur.y - p1.y) + 1)
    ensures err - dy + dx == ErrAt(dx, dy, Abs(cur.x - p1.x) + 1, Abs(cur.y - p1.y) + 1)
  {
    AxisSplit(p1.x, cur.x, p2.x);
    AxisSplit(p1.y, cur.y, p2.y);
    ErrorStep(dx, dy, Abs(cur.x - p1.x), Abs(cur.y - p1.y), err);
  }

  /** The body keeps the pixel in the box and the error term in step with the
      moves made. */
  lemma NextKeepsInvariant(p1: Pt, p2: Pt, cur: Pt, err: int)
    requires WalkInv(p1, p2, cur, err) && cur != p2
    ensures WalkInv(p1, p2, Next(p1, p2, cur, err).at, Next(p1, p2, cur, err).err)
  {
    NextInBox(p1, p2, cur, err);
    NextError(p1, p2, cur, err);
  }

  /** The pixel after one iteration stays between the endpoints on both axes. */
  lemma NextInBox(p1: Pt, p2: Pt, cur: Pt, err: int)
    requires WalkInv(p1, p2, cur, err) && cur != p2
    ensures InBox(p1, p2, Next(p1, p2, cur, err).at)
  {
    var dx: int := Abs(p2.x - p1.x);
    var dy: int := Abs(p2.y - p1.y);
    var n := Next(p1, p2, cur, err);
    NextMoves(p1, p2, cur, err, dx, dy);
    AxisNext(p1.x, cur.x, p2.x, err * 2 > -dy, n.at.x);
    AxisNext(p1.y, cur.y, p2.y, err * 2 < dx, n.at.y);
  }

  /** After one iteration the error term matches the moves made so far. */
  lemma NextError(p1: Pt, p2: Pt, cur: Pt, err: int)
    requires WalkInv(p1, p2, cur, err) && cur != p2
    ensures Next(p1, p2, cur, err).err
         == ErrAt(Abs(p2.x - p1.x), Abs(p2.y - p1.y),
                  Abs(Next(p1, p2, cur, err).at.x - p1.x), Abs(Next(p1, p2, cur, err).at.y - p1.y))
  {
    var dx: int := Abs(p2.x - p1.x);
    var dy: int := Abs(p2.y - p1.y);
    var n := Next(p1, p2, cur, err);
    NextMoves(p1, p2, cur, err, dx, dy);
    AxisNext(p1.x, cur.x, p2.x, err * 2 > -dy, n.at.x);
    AxisNext(p1.y, cur.y, p2.y, err * 2 < dx, n.at.y);
  }

  /** The body makes a unit move, at most one unit closer to `p2` along each axis
      and at least one unit closer in total. */
  lemma NextMovesCloser(p1: Pt, p2: Pt, cur: Pt, err: int)
    requires WalkInv(p1, p2, cur, err) && cur != p2
    ensures UnitStep(p1, p2, cur, Next(p1, p2, cur, err).at)
    ensures Remaining(p2, Next(p1, p2, cur, err).at) < Remaining(p2, cur)
    ensures Abs(p2.x - cur.x) <= Abs(p2.x - Next(p1, p2, cur, err).at.x) + 1
    ensures Abs(p2.y - cur.y) <= Abs(p2.y - Next(p1, p2, cur, err).at.y) + 1
  {
    var dx: int := Abs(p2.x - p1.x);
    var dy: int := Abs(p2.y - p1.y);
    var n := Next(p1, p2, cur, err);
    NextMoves(p1, p2, cur, err, dx, dy);
    AxisNext(p1.x, cur.x, p2.x, err * 2 > -dy, n.at.x);
    AxisNext(p1.y, cur.y, p2.y, err * 2 < dx, n.at.y);
  }

  /** The iterations of the `while True` loop from state `(cur, err)`: one `Step`
      per emitted pixel, the last one being the end point where the loop breaks. */
  function Walk(p1: Pt, p2: Pt, cur: Pt, err: int): (r: seq<Step>)
    requires WalkInv(p1, p2, cur, err)
    ensures |r| >= 1 && r[0] == Step(cur, err) && r[|r| - 1].at == p2
    ensures forall k :: 0 <= k < |r| - 1 ==> UnitStep(p1, p2, r[k].at, r[k + 1].at)
    ensures forall k :: 0 <= k < |r| ==> InBox(p1, p2, r[k].at)
    ensures forall k :: 0 <= k < |r| - 1 ==> r[k].at != p2
    ensures Abs(p2.x - cur.x) < |r| && Abs(p2.y - cur.y) < |r| && |r| <= Remaining(p2, cur) + 1
    decreases Remaining(p2, cur)
  {
    if cur == p2 then
      [Step(cur, err)]
    else
      var s := Next(p1, p2, cur, err);
      NextKeepsInvariant(p1, p2, cur, err);
      NextMovesCloser(p1, p2, cur, err);
      [Step(cur, err)] + Walk(p1, p2, s.at, s.err)
  }

  /** The whole loop from `p1` with the initial error `dx - dy`. */
  function Trace(p1: Pt, p2: Pt): (r: seq<Step>)
    ensures |r| >= 1 && r[0].at == p1 && r[|r| - 1].at == p2
    ensures forall k :: 0 <= k < |r| - 1 ==> UnitStep(p1, p2, r[k].at, r[k + 1].at)
    ensures forall k :: 0 <= k < |r| ==> InBox(p1, p2, r[k].at)
    ensures forall k :: 0 <= k < |r| - 1 ==> r[k].at != p2
    ensures Abs(p2.x - p1.x) < |r| && Abs(p2.y - p1.y) < |r| && |r| <= Remaining(p2, p1) + 1
  {
    var dx := Abs(p2.x - p1.x);
    var dy := Abs(p2.y - p1.y);
    Walk(p1, p2, p1, dx - dy)
  }

  function Pixels(steps: seq<Step>): (r: seq<Pt>)
    ensures |r| == |steps| && forall k :: 0 <= k < |r| ==> r[k] == steps[k].at
  {
    if steps == [] then [] else [steps[0].at] + Pixels(steps[1..])
  }

  /** A walk from `p1` to `p2` as the pixels it visits. */
  predicate PixelPath(p1: Pt, p2: Pt, r: seq<Pt>)
  {
    && |r| >= 1 && r[0] == p1 && r[|r| - 1] == p2
    && (forall k :: 0 <= k < |r| - 1 ==> UnitStep(p1, p2, r[k], r[k + 1]))
    && (forall k :: 0 <= k < |r| ==> InBox(p1, p2, r[k]))
    && (forall k :: 0 <= k < |r| - 1 ==> r[k] != p2)
    && Abs(p2.x - p1.x) < |r| && Abs(p2.y - p1.y) < |r| && |r| <= Remaining(p2, p1) + 1
  }

  /** The pixels of a walk from `p1` to `p2` form a pixel path. */
  lemma PixelsOfWalk(p1: Pt, p2: Pt, t: seq<Step>)
    requires |t| >= 1 && t[0].at == p1 && t[|t| - 1].at == p2
    requires forall k :: 0 <= k < |t| - 1 ==> UnitStep(p1, p2, t[k].at, t[k + 1].at)
    requires forall k :: 0 <= k < |t| ==> InBox(p1, p2, t[k].at)
    requires forall k :: 0 <= k < |t| - 1 ==> t[k].at != p2
    requires Abs(p2.x - p1.x) < |t| && Abs(p2.y - p1.y) < |t| && |t| <= Remaining(p2, p1) + 1
    ensures var r := Pixels(t); |r| == |t| && r[0] == p1 && r[|r| - 1] == p2
    ensures var r := Pixels(t); forall k :: 0 <= k < |r| - 1 ==> UnitStep(p1, p2, r[k], r[k + 1])
    ensures var r := Pixels(t); forall k :: 0 <= k < |r| ==> InBox(p1, p2, r[k])
    ensures var r := Pixels(t); forall k :: 0 <= k < |r| - 1 ==> r[k] != p2
  {
    var r := Pixels(t);
    forall k | 0 <= k < |r| - 1
      ensures UnitStep(p1, p2, r[k], r[k + 1])
    {
      assert r[k] == t[k].at && r[k + 1] == t[k + 1].at;
    }
  }

  /** `draw_bresenham(x1, y1, x2, y2)` of lab 5: a pixel path from `p1` to `p2`.
      Unit moves need at least max(dx, dy) and at most dx + dy of them, so the
      point count lies between `max(dx, dy) + 1` and `dx + dy + 1`. */
  function DrawBresenham(p1: Pt, p2: Pt): (r: seq<Pt>)
    ensures PixelPath(p1, p2, r)
  {
    var t := Trace(p1, p2);
    PixelsOfWalk(p1, p2, t);
    Pixels(t)
  }

  /** `bresenham_line` of lab 1 after its equal-endpoint guard: the pixels drawn. */
  function BresenhamLine(p1: Pt, p2: Pt): (r: seq<Pt>)
    ensures p1 == p2 ==> r == [p1]
    ensures |r| >= 1 && r[0] == p1 && r[|r| - 1] == p2
  {
    if p1 == p2 then [p1] else DrawBresenham(p1, p2)
  }

  /** The lab 1 guard is redundant: lab 5's unguarded loop already emits the single
      pixel and breaks, so both labs draw the same pixels for every pair. */
  lemma BresenhamLabsAgree(p1: Pt, p2: Pt)
    ensures BresenhamLine(p1, p2) == DrawBresenham(p1, p2)
  {
    if p1 == p2 {
      assert Trace(p1, p2) == [Step(p1, 0)];
    }
  }

  /** The normalized error lab 1 logs: `min(max(err / max(dx, dy), -1), 1)`. */
  function NormalizedError(err: int, dx: nat, dy: nat): (e: real)
    requires dx + dy > 0
    ensures -1.0 <= e <= 1.0
    ensures Abs(err) <= Max(dx, dy) ==> e == err as real / Max(dx, dy) as real
  {
    var q := err as real / Max(dx, dy) as real;
    var lo := if q < -1.0 then -1.0 else q;
    if lo > 1.0 then 1.0 else lo
  }

  function ErrorLog(steps: seq<Step>, dx: nat, dy: nat): (r: seq<real>)
    requires dx + dy > 0
    ensures |r| == |steps|
    ensures forall k :: 0 <= k < |r| ==> -1.0 <= r[k] <= 1.0 && r[k] == NormalizedError(steps[k].err, dx, dy)
  {
    if steps == [] then [] else [NormalizedError(steps[0].err, dx, dy)] + ErrorLog(steps[1..], dx, dy)
  }

  /** The error values lab 1 prints, one per drawn pixel (nothing is printed for
      equal endpoints). */
  function BresenhamErrorLog(p1: Pt, p2: Pt): (r: seq<real>)
    ensures p1 == p2 ==> r == []
    ensures p1 != p2 ==> |r| == |Trace(p1, p2)|
    ensures forall k :: 0 <= k < |r| ==> -1.0 <= r[k] <= 1.0
  {
    if p1 == p2 then []
    else
      var dx := Abs(p2.x - p1.x);
      var dy := Abs(p2.y - p1.y);
      assert dx + dy > 0;
      ErrorLog(Trace(p1, p2), dx, dy)
  }

  /** The loop body's five moves on the worked example below. */
  lemma ExampleMoves()
    ensures Next(Pt(0, 0), Pt(5, 2), Pt(0, 0), 3) == Step(Pt(1, 0), 1)
    ensures Next(Pt(0, 0), Pt(5, 2), Pt(1, 0), 1) == Step(Pt(2, 1), 4)
    ensures Next(Pt(0, 0), Pt(5, 2), Pt(2, 1), 4) == Step(Pt(3, 1), 2)
    ensures Next(Pt(0, 0), Pt(5, 2), Pt(3, 1), 2) == Step(Pt(4, 2), 5)
    ensures Next(Pt(0, 0), Pt(5, 2), Pt(4, 2), 5) == Step(Pt(5, 2), 3)
  {
  }

  /** The tail of the worked example from its `k`-th pixel on, one unfolding at a time. */
  lemma ExampleTail4()
    ensures Walk(Pt(0, 0), Pt(5, 2), Pt(4, 2), 5) == [Step(Pt(4, 2), 5), Step(Pt(5, 2), 3)]
  {
    ExampleMoves();
  }

  lemma ExampleTail3()
    ensures Walk(Pt(0, 0), Pt(5, 2), Pt(3, 1), 2)
         == [Step(Pt(3, 1), 2), Step(Pt(4, 2), 5), Step(Pt(5, 2), 3)]
  {
    ExampleMoves();
    ExampleTail4();
  }

  lemma ExampleTail2()
    ensures Walk(Pt(0, 0), Pt(5, 2), Pt(2, 1), 4)
         == [Step(Pt(2, 1), 4), Step(Pt(3, 1), 2), Step(Pt(4, 2), 5), Step(Pt(5, 2), 3)]
  {
    ExampleMoves();
    ExampleTail3();
  }

  lemma ExampleTail1()
    ensures Walk(Pt(0, 0), Pt(5, 2), Pt(1, 0), 1)
         == [Step(Pt(1, 0), 1), Step(Pt(2, 1), 4), Step(Pt(3, 1), 2), Step(Pt(4, 2), 5), Step(Pt(5, 2), 3)]
  {
    ExampleMoves();
    ExampleTail2();
  }

  lemma ExampleTrace()
    ensures Trace(Pt(0, 0), Pt(5, 2))
         == [Step(Pt(0, 0), 3), Step(Pt(1, 0), 1), Step(Pt(2, 1), 4),
             Step(Pt(3, 1), 2), Step(Pt(4, 2), 5), Step(Pt(5, 2), 3)]
  {
    ExampleMoves();
    ExampleTail1();
  }

  /** The pixels of the worked example's trace. */
  lemma ExamplePixels()
    ensures Pixels([Step(Pt(0, 0), 3), Step(Pt(1, 0), 1), Step(Pt(2, 1), 4),
                    Step(Pt(3, 1), 2), Step(Pt(4, 2), 5), Step(Pt(5, 2), 3)])
         == [Pt(0, 0), Pt(1, 0), Pt(2, 1), Pt(3, 1), Pt(4, 2), Pt(5, 2)]
  {
    var w := [Step(Pt(0, 0), 3), Step(Pt(1, 0), 1), Step(Pt(2, 1), 4),
              Step(Pt(3, 1), 2), Step(Pt(4, 2), 5), Step(Pt(5, 2), 3)];
    var r := Pixels(w);
    assert r[0] == Pt(0, 0) && r[1] == Pt(1, 0) && r[2] == Pt(2, 1);
    assert r[3] == Pt(3, 1) && r[4] == Pt(4, 2) && r[5] == Pt(5, 2);
  }

  /** The worked example: (0,0) to (5,2). */
  lemma ExampleZeroToFiveTwo()
    ensures DrawBresenham(Pt(0, 0), Pt(5, 2))
         == [Pt(0, 0), Pt(1, 0), Pt(2, 1), Pt(3, 1), Pt(4, 2), Pt(5, 2)]
  {
    ExampleTrace();
    ExamplePixels();
  }
}
