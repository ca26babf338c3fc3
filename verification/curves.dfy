/** The parametric curves of lab 3: Bezier, Hermite and uniform B-spline segments
    evaluated as `T @ M @ P` over windows of four control points, and the editor's
    click and drag handling of the control-point list. */
module Curves {
  import opened Geometry
  import opened LinAlg

  /** The power basis `T = [t^3, t^2, t, 1]`. */
  function PowerBasis(t: real): Vec4
  {
    Vec4(t * t * t, t * t, t, 1.0)
  }

  /** The Bezier basis matrix of `bezier_point`. */
  const BezierMatrix: Mat4 := Mat4(Vec4(-1.0, 3.0, -3.0, 1.0), Vec4(3.0, -6.0, 3.0, 0.0),
                                   Vec4(-3.0, 3.0, 0.0, 0.0), Vec4(1.0, 0.0, 0.0, 0.0))

  /** The uniform B-spline basis matrix of `bspline_point`, divided by six. */
  const BSplineMatrix: Mat4 := Mat4(Vec4(-1.0 / 6.0, 3.0 / 6.0, -3.0 / 6.0, 1.0 / 6.0),
                                    Vec4(3.0 / 6.0, -6.0 / 6.0, 3.0 / 6.0, 0.0),
                                    Vec4(-3.0 / 6.0, 0.0, 3.0 / 6.0, 0.0),
                                    Vec4(1.0 / 6.0, 4.0 / 6.0, 1.0 / 6.0, 0.0))

  function WeightSum(w: Vec4): real
  {
    w.x + w.y + w.z + w.w
  }

  /** Four control points. */
  datatype Window = Window(p0: Pt, p1: Pt, p2: Pt, p3: Pt)

  /** The point `w @ P`: the control points combined with the weights `w`. */
  function Combine(w: Vec4, q: Window): RPt
  {
    RPt(w.x * q.p0.x as real + w.y * q.p1.x as real + w.z * q.p2.x as real + w.w * q.p3.x as real,
        w.x * q.p0.y as real + w.y * q.p1.y as real + w.z * q.p2.y as real + w.w * q.p3.y as real)
  }

  /** The Bezier weights `T @ M`, collected per control point. */
  function BezierWeights(t: real): Vec4
  {
    var t3, t2 := t * t * t, t * t;
    Vec4(-t3 + 3.0 * t2 - 3.0 * t + 1.0, 3.0 * t3 - 6.0 * t2 + 3.0 * t, -3.0 * t3 + 3.0 * t2, t3)
  }

  /** `bezier_point(p0, p1, p2, p3, t)`. */
  function BezierPoint(q: Window, t: real): RPt
  {
    Combine(BezierWeights(t), q)
  }

  /** The uniform B-spline weights `T @ B`, collected per control point. */
  function BSplineWeights(t: real): Vec4
  {
    var t3, t2 := t * t * t, t * t;
    Vec4((-t3 + 3.0 * t2 - 3.0 * t + 1.0) / 6.0, (3.0 * t3 - 6.0 * t2 + 4.0) / 6.0,
         (-3.0 * t3 + 3.0 * t2 + 3.0 * t + 1.0) / 6.0, t3 / 6.0)
  }

  function BSplinePoint(q: Window, t: real): RPt
  {
    Combine(BSplineWeights(t), q)
  }

  /** The weights are the row vector `T` times the basis matrix of the source. */
  lemma WeightsAreMatrixProducts(t: real)
    ensures BezierWeights(t) == RowTimes(PowerBasis(t), BezierMatrix)
    ensures BSplineWeights(t) == RowTimes(PowerBasis(t), BSplineMatrix)
  {
    assert PowerBasis(t) == Vec4(t * t * t, t * t, t, 1.0);
  }

  /** Both bases are partitions of unity, and the Bezier weights are the cubic
      Bernstein polynomials, so a Bezier point is a convex combination for `t` in
      `[0, 1]`. */
  lemma WeightsSumToOne(t: real)
    ensures WeightSum(BezierWeights(t)) == 1.0
    ensures WeightSum(BSplineWeights(t)) == 1.0
    ensures BezierWeights(t) == Vec4((1.0 - t) * (1.0 - t) * (1.0 - t), 3.0 * t * (1.0 - t) * (1.0 - t),
                                     3.0 * t * t * (1.0 - t), t * t * t)
  {
  }

  /** The Hermite basis `h1 .. h4` of `hermite_point`. */
  function HermiteWeights(t: real): (h: Vec4)
    ensures h.x + h.y == 1.0
  {
    Vec4(2.0 * t * t * t - 3.0 * t * t + 1.0, -2.0 * t * t * t + 3.0 * t * t,
         t * t * t - 2.0 * t * t + t, t * t * t - t * t)
  }

  /** `hermite_point`: the ends are `p0` and `p3`, the tangents `p1 - p0` and
      `p2 - p3`. */
  function HermitePoint(q: Window, t: real): RPt
  {
    var h := HermiteWeights(t);
    RPt(h.x * q.p0.x as real + h.y * q.p3.x as real + h.z * (q.p1.x - q.p0.x) as real + h.w * (q.p2.x - q.p3.x) as real,
        h.x * q.p0.y as real + h.y * q.p3.y as real + h.z * (q.p1.y - q.p0.y) as real + h.w * (q.p2.y - q.p3.y) as real)
  }

  /** The weights `[1, 0, 0, 0]` pick `p0`, and `[0, 0, 0, 1]` pick `p3`. */
  lemma CombineCorners(q: Window)
    ensures Combine(Vec4(1.0, 0.0, 0.0, 0.0), q) == ToReal(q.p0)
    ensures Combine(Vec4(0.0, 0.0, 0.0, 1.0), q) == ToReal(q.p3)
  {
  }

  /** Bezier and Hermite segments run from `p0` at `t = 0` to `p3` at `t = 1`. */
  lemma SegmentEnds(q: Window)
    ensures BezierPoint(q, 0.0) == ToReal(q.p0) && BezierPoint(q, 1.0) == ToReal(q.p3)
    ensures HermitePoint(q, 0.0) == ToReal(q.p0) && HermitePoint(q, 1.0) == ToReal(q.p3)
  {
    assert BezierWeights(0.0) == Vec4(1.0, 0.0, 0.0, 0.0);
    assert BezierWeights(1.0) == Vec4(0.0, 0.0, 0.0, 1.0);
    CombineCorners(q);
    assert HermiteWeights(0.0) == Vec4(1.0, 0.0, 0.0, 0.0);
    assert HermiteWeights(1.0) == Vec4(0.0, 1.0, 0.0, 0.0);
  }

  /** A B-spline segment starts at `(p0 + 4 p1 + p2) / 6` and ends at
      `(p1 + 4 p2 + p3) / 6`. */
  lemma BSplineEnds(q: Window)
    ensures BSplinePoint(q, 0.0) == RPt((q.p0.x + 4 * q.p1.x + q.p2.x) as real / 6.0,
                                        (q.p0.y + 4 * q.p1.y + q.p2.y) as real / 6.0)
    ensures BSplinePoint(q, 1.0) == RPt((q.p1.x + 4 * q.p2.x + q.p3.x) as real / 6.0,
                                        (q.p1.y + 4 * q.p2.y + q.p3.y) as real / 6.0)
  {
    var w0 := BSplineWeights(0.0);
    assert w0 == Vec4(1.0 / 6.0, 4.0 / 6.0, 1.0 / 6.0, 0.0);
    var w1 := BSplineWeights(1.0);
    assert w1 == Vec4(0.0, 1.0 / 6.0, 4.0 / 6.0, 1.0 / 6.0);
  }

  /** The curve kinds the editor can draw. */
  datatype Kind = Bezier | Hermite | BSpline

  /** The window `points[i:i+4]`. */
  function WindowAt(ps: seq<Pt>, i: nat): Window
    requires i + 4 <= |ps|
  {
    Window(ps[i], ps[i + 1], ps[i + 2], ps[i + 3])
  }

  /** Window starts: every index for Bezier and B-spline (`range(n - 3)`), every
      third for Hermite (`range(0, n - 3, 3)`). */
  function Stride(k: Kind): nat
  {
    if k == Hermite then 3 else 1
  }

  function StartsFrom(i: nat, n: nat, stride: nat): (r: seq<nat>)
    requires stride > 0
    decreases n - i
    ensures forall j :: 0 <= j < |r| ==> r[j] == i + stride * j && r[j] + 3 < n
    ensures i + 3 < n ==> |r| > 0
    ensures |r| > 0 ==> r[|r| - 1] + stride + 3 >= n
  {
    if i + 3 >= n then [] else
      var rest := StartsFrom(i + stride, n, stride);
      var r := [i] + rest;
      assert forall j :: 0 <= j < |r| ==> r[j] == i + stride * j by {
        forall j | 1 <= j < |r|
          ensures r[j] == i + stride * j
        {
          assert r[j] == rest[j - 1];
          assert stride * j == stride + stride * (j - 1);
        }
      }
      r
  }

  function Starts(k: Kind, n: nat): seq<nat>
  {
    StartsFrom(0, n, Stride(k))
  }

  /** `np.linspace(0, 1, 100)`: the 100 parameters `j / 99`. */
  const Samples := 100

  function SampleT(j: nat): real
  {
    j as real / (Samples - 1) as real
  }

  function CurvePoint(k: Kind, q: Window, t: real): RPt
  {
    match k
    case Bezier => BezierPoint(q, t)
    case Hermite => HermitePoint(q, t)
    case BSpline => BSplinePoint(q, t)
  }

  /** The 100 points drawn for one window, at the parameters `0, 1/99, ..., 1` in
      order: the first is the curve at `t = 0`, the last at `t = 1`. */
  function Segment(k: Kind, q: Window): (r: seq<RPt>)
    ensures |r| == Samples
    ensures forall m :: 0 <= m < Samples ==> r[m] == CurvePoint(k, q, SampleT(m))
    ensures r[0] == CurvePoint(k, q, 0.0) && r[Samples - 1] == CurvePoint(k, q, 1.0)
  {
    seq(Samples, m requires 0 <= m => CurvePoint(k, q, SampleT(m)))
  }

  /** The windows `points[s:s+4]` for the starts `s`. */
  function Windows(ps: seq<Pt>, starts: seq<nat>): (r: seq<Window>)
    requires forall j :: 0 <= j < |starts| ==> starts[j] + 4 <= |ps|
    ensures |r| == |starts|
    ensures forall w :: 0 <= w < |starts| ==> r[w] == WindowAt(ps, starts[w])
  {
    if starts == [] then [] else [WindowAt(ps, starts[0])] + Windows(ps, starts[1..])
  }

  /** The segment of each window, one block per window. */
  function Blocks(k: Kind, ws: seq<Window>): (r: seq<seq<RPt>>)
    ensures |r| == |ws|
    ensures forall w :: 0 <= w < |ws| ==> r[w] == Segment(k, ws[w])
  {
    if ws == [] then [] else
      var rest := Blocks(k, ws[1..]);
      var r := [Segment(k, ws[0])] + rest;
      assert forall w :: 1 <= w < |ws| ==> r[w] == rest[w - 1] && ws[w] == ws[1..][w - 1];
      r
  }

  /** The blocks laid end to end. */
  function Flatten<T>(bs: seq<seq<T>>): seq<T>
  {
    if bs == [] then [] else bs[0] + Flatten(bs[1..])
  }

  /** When every block holds `n` items, item `m` of block `w` sits at `n * w + m`. */
  lemma {:induction false} FlattenAt<T>(bs: seq<seq<T>>, n: nat, w: nat, m: nat)
    requires forall j :: 0 <= j < |bs| ==> |bs[j]| == n
    requires w < |bs| && m < n
    ensures |Flatten(bs)| == n * |bs|
    ensures n * w + m < |Flatten(bs)| && Flatten(bs)[n * w + m] == bs[w][m]
  {
    FlattenLength(bs, n);
    if w > 0 {
      FlattenAt(bs[1..], n, w - 1, m);
      assert n * w + m == n + (n * (w - 1) + m);
    }
  }

  lemma {:induction false} FlattenLength<T>(bs: seq<seq<T>>, n: nat)
    requires forall j :: 0 <= j < |bs| ==> |bs[j]| == n
    ensures |Flatten(bs)| == n * |bs|
  {
    if bs != [] {
      FlattenLength(bs[1..], n);
      assert n * |bs| == n + n * (|bs| - 1);
    }
  }

  /** The points drawn for the windows starting at `starts`, 100 per window. */
  function Segments(k: Kind, ps: seq<Pt>, starts: seq<nat>): (r: seq<RPt>)
    requires forall j :: 0 <= j < |starts| ==> starts[j] + 4 <= |ps|
    ensures |r| == Samples * |starts|
  {
    var bs := Blocks(k, Windows(ps, starts));
    FlattenLength(bs, Samples);
    Flatten(bs)
  }

  /** `draw_bezier`, `draw_hermite`, `draw_bspline`: nothing for fewer than four
      points, otherwise 100 samples per window. */
  function DrawCurve(k: Kind, ps: seq<Pt>): (r: seq<RPt>)
    ensures |ps| < 4 ==> r == []
    ensures |ps| >= 4 ==> |r| == Samples * |Starts(k, |ps|)| && |r| >= Samples
  {
    if |ps| < 4 then [] else Segments(k, ps, Starts(k, |ps|))
  }

  /** Point `m` of block `w` of a drawn curve is sample `m` of the window
      `points[s*w : s*w + 4]`, where the stride `s` is 3 for Hermite and 1 otherwise. */
  lemma DrawCurveBlock(k: Kind, ps: seq<Pt>, w: nat, m: nat)
    requires w < |Starts(k, |ps|)| && m < Samples
    ensures Starts(k, |ps|)[w] == Stride(k) * w && Starts(k, |ps|)[w] + 4 <= |ps|
    ensures Samples * w + m < |DrawCurve(k, ps)|
    ensures DrawCurve(k, ps)[Samples * w + m] == CurvePoint(k, WindowAt(ps, Starts(k, |ps|)[w]), SampleT(m))
  {
    var starts := Starts(k, |ps|);
    var bs := Blocks(k, Windows(ps, starts));
    assert |ps| >= 4 && DrawCurve(k, ps) == Flatten(bs);
    FlattenAt(bs, Samples, w, m);
    assert bs[w] == Segment(k, WindowAt(ps, starts[w]));
  }

  /** Consecutive windows of a curve: Bezier and B-spline windows overlap in three
      points, Hermite windows share exactly their end point `points[i + 3]`. */
  lemma StartsStride(k: Kind, n: nat)
    ensures forall j :: 0 <= j < |Starts(k, n)| ==> Starts(k, n)[j] == Stride(k) * j && Starts(k, n)[j] + 4 <= n
    ensures n >= 4 ==> |Starts(k, n)| > 0
    ensures k != Hermite ==> |Starts(k, n)| == (if n >= 4 then n - 3 else 0)
  {
  }

  /** Consecutive B-spline segments join: the end of window `i` is the start of
      window `i + 1`, so the drawn spline is continuous. */
  lemma BSplineJoins(ps: seq<Pt>, i: nat)
    requires i + 5 <= |ps|
    ensures BSplinePoint(WindowAt(ps, i), 1.0) == BSplinePoint(WindowAt(ps, i + 1), 0.0)
  {
    BSplineEnds(WindowAt(ps, i));
    BSplineEnds(WindowAt(ps, i + 1));
  }

  /** Consecutive Hermite segments join at the shared control point `points[i + 3]`. */
  lemma HermiteJoins(ps: seq<Pt>, i: nat)
    requires i + 7 <= |ps|
    ensures HermitePoint(WindowAt(ps, i), 1.0) == ToReal(ps[i + 3]) == HermitePoint(WindowAt(ps, i + 3), 0.0)
  {
    SegmentEnds(WindowAt(ps, i));
    SegmentEnds(WindowAt(ps, i + 3));
  }

  // ---------------------------------------------------------------- editor

  /** The control points and the index picked by the last click. */
  datatype Editor = Editor(points: seq<Pt>, selected: Option<nat>)

  /** The pick radius: squared distance below 100. */
  const PickRadius2 := 100

  /** `on_click`: select the nearest point within the pick radius (the earliest on a
      tie), or append the click when there is none. */
  method OnClick(e: Editor, click: Pt) returns (r: Editor)
    ensures r.selected.Some? ==>
              var i := r.selected.value;
              && r.points == e.points && i < |e.points| && SqDist(e.points[i], click) < PickRadius2
              && (forall j :: 0 <= j < |e.points| && SqDist(e.points[j], click) < PickRadius2 ==>
                    SqDist(e.points[i], click) <= SqDist(e.points[j], click))
              && (forall j :: 0 <= j < i ==> SqDist(e.points[i], click) < SqDist(e.points[j], click))
    ensures r.selected.None? ==>
              && r.points == e.points + [click]
              && forall j :: 0 <= j < |e.points| ==> SqDist(e.points[j], click) >= PickRadius2
  {
    var selected: Option<nat> := None;
    var i := 0;
    while i < |e.points|
      invariant 0 <= i <= |e.points|
      invariant selected.None? ==> forall j :: 0 <= j < i ==> SqDist(e.points[j], click) >= PickRadius2
      invariant selected.Some? ==>
                  var s := selected.value;
                  && s < i && SqDist(e.points[s], click) < PickRadius2
                  && (forall j :: 0 <= j < i && SqDist(e.points[j], click) < PickRadius2 ==>
                        SqDist(e.points[s], click) <= SqDist(e.points[j], click))
                  && (forall j :: 0 <= j < s ==> SqDist(e.points[s], click) < SqDist(e.points[j], click))
    {
      var dist := SqDist(e.points[i], click);
      if dist < PickRadius2 && (selected.None? || dist < SqDist(e.points[selected.value], click)) {
        selected := Some(i);
      }
      i := i + 1;
    }
    if selected.None? {
      return Editor(e.points + [click], None);
    }
    return Editor(e.points, selected);
  }

  /** `on_drag`: move the selected point to the mouse position; nothing else changes. */
  function OnDrag(e: Editor, to: Pt): (r: Editor)
    ensures |r.points| == |e.points| && r.selected == e.selected
    ensures forall j :: 0 <= j < |e.points| ==>
              r.points[j] == (if e.selected == Some(j) then to else e.points[j])
  {
    if e.selected.Some? && e.selected.value < |e.points| then
      Editor(e.points[e.selected.value := to], e.selected)
    else e
  }

  /** `on_release`: forget the selection. */
  function OnRelease(e: Editor): (r: Editor)
    ensures r.points == e.points && r.selected.None?
  {
    Editor(e.points, None)
  }
}
