/** Xiaolin Wu's line: `wu_line` of lab 1 (two shaded pixels per column) and
    `draw_wu` of lab 5 (one pixel per column, rounded by `int(y + 0.5)`). Both first
    swap the axes of a steep line and then order the endpoints by the major axis. */
module Wu {
  import opened Geometry

  /** The endpoints after the steep swap and the endpoint swap: the walk runs along
      `x` from `x1` to `x2`. */
  datatype Frame = Frame(steep: bool, x1: int, y1: int, x2: int, y2: int)

  /** Undoes the steep swap. */
  function Unswap(steep: bool, p: Pt): Pt
  {
    if steep then Pt(p.y, p.x) else p
  }

  /** The walk runs forward along `x` and its slope is at most one. */
  predicate Shallow(f: Frame)
  {
    f.x1 <= f.x2 && f.x1 - f.x2 <= f.y2 - f.y1 <= f.x2 - f.x1
  }

  /** The two swaps of both functions: the frame is shallow, it spans the major
      axis of the line, and undoing the steep swap gives back the two endpoints. */
  function MakeFrame(p1: Pt, p2: Pt): (f: Frame)
    ensures Shallow(f)
    ensures f.steep <==> Abs(p2.y - p1.y) > Abs(p2.x - p1.x)
    ensures f.x2 - f.x1 == Max(Abs(p2.x - p1.x), Abs(p2.y - p1.y))
    ensures (Unswap(f.steep, Pt(f.x1, f.y1)) == p1 && Unswap(f.steep, Pt(f.x2, f.y2)) == p2)
         || (Unswap(f.steep, Pt(f.x1, f.y1)) == p2 && Unswap(f.steep, Pt(f.x2, f.y2)) == p1)
  {
    var steep := Abs(p2.y - p1.y) > Abs(p2.x - p1.x);
    var a1, b1, a2, b2 := if steep then p1.y else p1.x, if steep then p1.x else p1.y,
                          if steep then p2.y else p2.x, if steep then p2.x else p2.y;
    if a1 > a2 then Frame(steep, a2, b2, a1, b1) else Frame(steep, a1, b1, a2, b2)
  }

  /** `dy / dx if dx != 0 else 0` in the frame: lab 1's gradient. */
  function Gradient(f: Frame): (g: real)
    requires Shallow(f)
    ensures -1.0 <= g <= 1.0
    ensures f.x1 < f.x2 ==> g * (f.x2 - f.x1) as real == (f.y2 - f.y1) as real
  {
    if f.x2 - f.x1 != 0 then
      RatioBounds((f.y2 - f.y1) as real, (f.x2 - f.x1) as real);
      (f.y2 - f.y1) as real / (f.x2 - f.x1) as real
    else 0.0
  }

  /** A quotient whose numerator is no larger in size than its positive
      denominator lies in `[-1, 1]`. */
  lemma RatioBounds(n: real, d: real)
    requires d > 0.0 && -d <= n <= d
    ensures -1.0 <= n / d <= 1.0 && (n / d) * d == n
  {
  }

  /** A pixel drawn by lab 1 and its coverage `intensity`; `get_color` turns the
      coverage into the fill color. The equal-endpoint guard draws a black pixel,
      which is the color of coverage 1. */
  datatype Plot = Plot(at: RPt, intensity: real)

  /** The fractional part `y - int(y)` lab 1 uses as the intensity. */
  function Frac(y: real): (f: real)
    ensures -1.0 < f < 1.0
    ensures y >= 0.0 ==> 0.0 <= f
  {
    y - Trunc(y) as real
  }

  /** The two plots of one column `x` at height `y`, mapped back through the steep swap. */
  function ColumnPlots(steep: bool, x: int, y: real): (r: seq<Plot>)
    ensures |r| == 2 && r[0].intensity + r[1].intensity == 1.0
  {
    var t := Trunc(y);
    if steep then
      [Plot(RPt(t as real, x as real), Frac(y)), Plot(RPt((t + 1) as real, x as real), 1.0 - Frac(y))]
    else
      [Plot(RPt(x as real, y), Frac(y)), Plot(RPt(x as real, (t + 1) as real), 1.0 - Frac(y))]
  }

  /** The height after `k` columns: `y1 + k * gradient`. */
  function Height(f: Frame, k: nat): real
    requires Shallow(f)
  {
    f.y1 as real + k as real * Gradient(f)
  }

  /** One more column adds one gradient to the height. */
  lemma HeightStep(f: Frame, k: nat)
    requires Shallow(f)
    ensures Height(f, k + 1) == Height(f, k) + Gradient(f)
    ensures Height5(f, k + 1) == Height5(f, k) + Gradient5(f)
  {
    assert (k + 1) as real * Gradient(f) == k as real * Gradient(f) + Gradient(f);
    assert (k + 1) as real * Gradient5(f) == k as real * Gradient5(f) + Gradient5(f);
  }

  /** `wu_line` of lab 1: the plots handed to the canvas, two per column. */
  method WuLine(p1: Pt, p2: Pt) returns (plots: seq<Plot>)
    ensures p1 == p2 ==> plots == [Plot(ToReal(p1), 1.0)]
    ensures p1 != p2 ==> |plots| == 2 * (Max(Abs(p2.x - p1.x), Abs(p2.y - p1.y)) + 1)
    ensures p1 != p2 ==> forall k :: 0 <= k < |plots| / 2 ==>
              plots[2 * k].intensity + plots[2 * k + 1].intensity == 1.0
    ensures p1 != p2 ==> var f := MakeFrame(p1, p2);
              forall k: nat :: k < |plots| / 2 ==>
                [plots[2 * k], plots[2 * k + 1]] == ColumnPlots(f.steep, f.x1 + k, Height(f, k))
  {
    if p1 == p2 {
      return [Plot(ToReal(p1), 1.0)];
    }
    var f := MakeFrame(p1, p2);
    var n := f.x2 - f.x1 + 1;
    var gradient := Gradient(f);
    var y := f.y1 as real;
    plots := [];
    var k := 0;
    while k < n
      invariant 0 <= k <= n
      invariant |plots| == 2 * k
      invariant y == Height(f, k)
      invariant forall j: nat :: j < k ==>
                  [plots[2 * j], plots[2 * j + 1]] == ColumnPlots(f.steep, f.x1 + j, Height(f, j))
    {
      var column := ColumnPlots(f.steep, f.x1 + k, y);
      plots := plots + column;
      HeightStep(f, k);
      y := y + gradient;
      k := k + 1;
    }
    forall j: nat | j < |plots| / 2
      ensures plots[2 * j].intensity + plots[2 * j + 1].intensity == 1.0
    {
      assert [plots[2 * j], plots[2 * j + 1]] == ColumnPlots(f.steep, f.x1 + j, Height(f, j));
    }
  }

  /** `dy / dx if dx != 0 else 1`: lab 5's gradient (the `1` only arises for
      equal endpoints, where no second column exists). */
  function Gradient5(f: Frame): (g: real)
    requires Shallow(f)
    ensures -1.0 <= g <= 1.0
    ensures f.x1 < f.x2 ==> g == Gradient(f)
  {
    if f.x2 - f.x1 != 0 then (f.y2 - f.y1) as real / (f.x2 - f.x1) as real else 1.0
  }

  /** Lab 5's height after `k` columns: `y1 + 0.5 + k * gradient`. */
  function Height5(f: Frame, k: nat): real
    requires Shallow(f)
  {
    f.y1 as real + 0.5 + k as real * Gradient5(f)
  }

  /** The pixel of column `x` at height `y`, mapped back through the steep swap. */
  function ColumnPixel(steep: bool, x: int, y: real): Pt
  {
    Unswap(steep, Pt(x, Trunc(y)))
  }

  /** `draw_wu` of lab 5: one pixel per column of the major axis. */
  method DrawWu(p1: Pt, p2: Pt) returns (pts: seq<Pt>)
    ensures |pts| == Max(Abs(p2.x - p1.x), Abs(p2.y - p1.y)) + 1
    ensures var f := MakeFrame(p1, p2);
              forall k :: 0 <= k < |pts| ==> pts[k] == ColumnPixel(f.steep, f.x1 + k, Height5(f, k))
  {
    var f := MakeFrame(p1, p2);
    var n := f.x2 - f.x1 + 1;
    var gradient := Gradient5(f);
    var y := f.y1 as real + 0.5;
    pts := [];
    var k := 0;
    while k < n
      invariant 0 <= k <= n
      invariant |pts| == k
      invariant y == Height5(f, k)
      invariant forall j :: 0 <= j < k ==> pts[j] == ColumnPixel(f.steep, f.x1 + j, Height5(f, j))
    {
      pts := pts + [ColumnPixel(f.steep, f.x1 + k, y)];
      HeightStep(f, k);
      y := y + gradient;
      k := k + 1;
    }
  }

  /** The heights run exactly from one endpoint to the other: lab 1's from `y1` to
      `y2`, lab 5's from `y1 + 0.5` to `y2 + 0.5`. */
  lemma HeightEnds(f: Frame)
    requires Shallow(f)
    ensures Height(f, 0) == f.y1 as real && Height(f, f.x2 - f.x1) == f.y2 as real
    ensures Height5(f, 0) == f.y1 as real + 0.5 && Height5(f, f.x2 - f.x1) == f.y2 as real + 0.5
  {
    if f.x1 < f.x2 {
      var n := (f.x2 - f.x1) as real;
      assert n * Gradient(f) == (f.y2 - f.y1) as real;
      assert n * Gradient5(f) == (f.y2 - f.y1) as real;
    }
  }

  /** On the canvas (non-negative coordinates) the first and the last column of
      `draw_wu` are exactly the two endpoints, in major-axis order. */
  lemma DrawWuEndpoints(p1: Pt, p2: Pt)
    requires p1.x >= 0 && p1.y >= 0 && p2.x >= 0 && p2.y >= 0
    ensures var f := MakeFrame(p1, p2);
            && ColumnPixel(f.steep, f.x1, Height5(f, 0)) == Unswap(f.steep, Pt(f.x1, f.y1))
            && ColumnPixel(f.steep, f.x2, Height5(f, f.x2 - f.x1)) == Unswap(f.steep, Pt(f.x2, f.y2))
  {
    var f := MakeFrame(p1, p2);
    HeightEnds(f);
    assert f.y1 >= 0 && f.y2 >= 0;
    assert Trunc(f.y1 as real + 0.5) == f.y1;
    assert Trunc(f.y2 as real + 0.5) == f.y2;
  }
}
