# GIIS geometry kernels in Dafny

This project models the computational cores of the GIIS graphics labs (labs 1 to 6).
Each lab is a small tkinter or pygame application wrapped around a geometry or
rasterization kernel. The model keeps each kernel and replaces every canvas call
(`create_oval`, `create_line`, `image.put`, `draw_point`) with an element appended
to a returned sequence.

- **Lab 1 and lab 5 line rasterizers** (`bresenham.dfy`, `dda.dfy`, `wu.dfy`,
  `color.dfy`): Bresenham's integer walk, the DDA, Wu's shaded line and the
  coverage-to-gray color string.
- **Lab 2 conics** (`conics.dfy`): the midpoint circle with eight-way symmetry, the
  two-region ellipse and hyperbola with their decision variables, and the sampled
  parabola.
- **Lab 3 curves** (`curves.dfy`): Bezier, Hermite and uniform B-spline points, the
  window policies of the three drawing loops, and the click, drag and release
  handling of the control-point list.
- **Lab 4 transforms** (`linalg.dfy`, `transforms.dfy`, `scene.dfy`): 4x4
  homogeneous matrices, the matrix constructors, `apply_transformation`, the
  projection, the edge lists and the per-frame accumulation of key deltas.
- **Lab 5 polygons and hulls** (`polygons.dfy`, `hulls.dfy`): orientation,
  ray-casting containment, convexity, segment/polygon intersection, the Graham scan
  and the Jarvis march.
- **Lab 6 fills** (`scanline.dfy`, `seedfill.dfy`): the edge table, the
  active-edge scanline sweep, lab 6's containment test, the pixel flood fill and
  the span flood fill.

Modelling conventions:

- Click and pixel coordinates are `int`.
- Python floats are exact `real`s.
- Python's `int()` on a float is `Geometry.Trunc` (toward zero), and `round` is
  `Dda.RoundHalfEven`.
- `np.linalg.norm` comparisons become comparisons of squared distances, which order
  the same way.
- Loops with no bound in the code take a `fuel` parameter.

## Model

| member | source | states |
|---|---|---|
| Geometry.Trunc | lab1/lab1.py:85-86 | `int(y)` truncates toward zero: `n <= y < n + 1` for non-negative `y`, `n - 1 < y <= n` for negative `y` |
| Geometry.TruncMonotone | lab6/main.py:137 | truncating two ordered edge positions keeps them ordered |
| Geometry.SqDist | lab3/main.py:42 | the squared distance of two pixels is zero exactly when they coincide |
| Bresenham.Dir | lab1/lab1.py:35-36 | `sx`/`sy` are `+1` or `-1`, and `+1` exactly when the coordinate must grow |
| Bresenham.ErrorStep | lab1/lab1.py:45-51 | after `i` x-moves and `j` y-moves, a branch fires only for an axis that has not arrived, at least one fires, and the error relation is kept |
| Bresenham.NextKeepsInvariant | lab1/lab1.py:45-51 | one iteration keeps the pixel in the endpoints' box and the error term equal to `dx*(1+j) - dy*(1+i)` after `i` x-moves and `j` y-moves |
| Bresenham.Next | lab1/lab1.py:45-51 | one iteration of the loop body, shared by lab 5 (lab5/main.py:130-136); it has no contract of its own: Bresenham.NextKeepsInvariant, Bresenham.NextInBox, Bresenham.NextError and Bresenham.NextMovesCloser state what it does |
| Bresenham.NextInBox | lab1/lab1.py:45-51 | one iteration keeps the pixel in the box spanned by the endpoints |
| Bresenham.NextError | lab1/lab1.py:45-51 | after one iteration the error term is again `dx*(1+j) - dy*(1+i)` for the new pixel's `i` x-moves and `j` y-moves from `p1` |
| Bresenham.NextMovesCloser | lab1/lab1.py:45-51 | one iteration moves x by 0 or `sx` and y by 0 or `sy` (never neither), so it gets strictly closer to the end point, by at most one unit per axis |
| Bresenham.Walk | lab1/lab1.py:39-51 | the `while True` loop terminates; it starts at the current pixel, ends at `p2`, makes unit moves, stays in the box, reaches `p2` only at its last iteration, and runs at least as many iterations as the larger remaining axis distance and at most their sum |
| Bresenham.Trace | lab1/lab1.py:33-51 | the loop from `p1` with `err = dx - dy` starts at `p1`, ends at `p2`, makes unit moves inside the box, and runs between `max(dx, dy) + 1` and `dx + dy + 1` iterations |
| Bresenham.DrawBresenham | lab5/main.py:119-137 | lab 5's point list starts at `p1`, ends at `p2`, moves one unit per axis per step, stays between the endpoints, holds `p2` only at the end, and has between `max(dx, dy) + 1` and `dx + dy + 1` points |
| Bresenham.BresenhamLine | lab1/lab1.py:28-51 | lab 1 draws the single pixel for equal endpoints, and otherwise a line from `p1` to `p2` |
| Bresenham.BresenhamLabsAgree | lab1/lab1.py:29-31 | lab 1's equal-endpoint guard is redundant: lab 1 and lab 5 draw the same pixels for every pair of endpoints |
| Bresenham.NormalizedError | lab1/lab1.py:40 | the logged error is in `[-1, 1]`, and equals `err / max(dx, dy)` whenever that is already in range |
| Bresenham.ErrorLog | lab1/lab1.py:40-41 | one logged value per iteration, each the clamped error of that iteration |
| Bresenham.BresenhamErrorLog | lab1/lab1.py:39-41 | nothing is logged for equal endpoints; otherwise one value per drawn pixel, all in `[-1, 1]` |
| Bresenham.ExampleTrace | lab1/lab1.py:37-51 | from (0,0) to (5,2) the loop visits (0,0),(1,0),(2,1),(3,1),(4,2),(5,2) with errors 3,1,4,2,5,3 |
| Bresenham.ExampleZeroToFiveTwo | lab5/main.py:119-137 | `draw_bresenham(0, 0, 5, 2)` returns (0,0),(1,0),(2,1),(3,1),(4,2),(5,2): the second pixel is (1,0), not the diagonal (1,1): the error starts at `dx - dy = 3`, so `e2 = 6` exceeds `-dy` and `x` moves, but `6 < dx = 5` fails and `y` stays |
| Dda.Steps | lab1/lab1.py:12 | `steps` is the larger axis distance and is zero exactly for equal endpoints |
| Dda.SampleEnds | lab1/lab1.py:13-21 | in exact arithmetic the samples start at `p1`, and the `steps`-th sample is exactly `p2` |
| Dda.DominantAxisUnit | lab1/lab1.py:13-14 | the increment along the dominant axis is exactly one unit toward `p2`; the other increment is in `[-1, 1]` |
| Dda.SampleStep | lab1/lab1.py:20-21 | consecutive samples differ by exactly one unit along the dominant axis |
| Dda.DdaLine | lab1/lab1.py:5-24 | equal endpoints draw only `p1`; otherwise `steps + 1` points, the `k`-th being `p1 + k (dx, dy) / steps`, from `p1` to `p2` |
| Dda.RoundHalfEven | lab5/main.py:113 | Python's `round`: the nearest integer, ties to the even one |
| Dda.RoundInteger | lab5/main.py:113 | rounding an integral value gives it back |
| Dda.DrawDda | lab5/main.py:104-116 | for distinct endpoints, exactly `steps` rounded samples; the first is `p1`, and `p2` is never drawn |
| Dda.RoundedSamplesMissEnd | lab5/main.py:108-116 | a list of the first `steps` rounded samples starts at `p1` and never holds `p2` |
| Dda.DominantCoordinate | lab5/main.py:108-115 | along the dominant axis the `k`-th rounded point lies exactly `k` units from `p1`, so no point before step `steps` is `p2` |
| GrayColor.Clamp01 | lab1/lab1.py:101 | the intensity is clamped to `[0, 1]`, and values already in range are kept |
| GrayColor.GrayLevel | lab1/lab1.py:102 | the gray level is in `0..255` and is the floor of `(1 - intensity) * 255` |
| GrayColor.GrayLevelAntitone | lab1/lab1.py:101-102 | more coverage never gives a lighter gray |
| GrayColor.ParseHex2RoundTrip | lab1/lab1.py:103 | formatting a byte with `02x` and reading it back gives the byte |
| GrayColor.GetColor | lab1/lab1.py:100-103 | the color is `#` followed by three equal two-digit components that read back as the gray level |
| GrayColor.ColorExtremes | lab1/lab1.py:100-103 | full coverage gives `#000000` and none gives `#ffffff` |
| Wu.MakeFrame | lab1/lab1.py:67-77 | after the steep swap and the endpoint swap the walk runs forward with slope at most one; it is steep exactly when `abs(dy) > abs(dx)`, spans the major-axis distance, and unswapping gives back the two endpoints |
| Wu.Gradient | lab1/lab1.py:79-81 | lab 1's gradient is in `[-1, 1]`, and times `dx` gives `dy` |
| Wu.Frac | lab1/lab1.py:86 | `y - int(y)` lies in `(-1, 1)` and is non-negative for non-negative `y` |
| Wu.ColumnPlots | lab1/lab1.py:86-93 | each column plots two pixels whose intensities sum to 1 |
| Wu.HeightStep | lab1/lab1.py:94 | each column adds one gradient to the height, in both labs |
| Wu.WuLine | lab1/lab1.py:58-97 | equal endpoints draw one black pixel; otherwise two plots for each column of the major axis, with intensities summing to 1, at height `y1 + k * gradient` and swapped back when steep |
| Wu.Gradient5 | lab5/main.py:155 | lab 5's gradient is in `[-1, 1]` and agrees with lab 1's whenever the line has more than one column |
| Wu.DrawWu | lab5/main.py:140-162 | one pixel per column of the major axis, `int(y1 + 0.5 + k * gradient)`, swapped back when steep |
| Wu.HeightEnds | lab1/lab1.py:83-94 | the heights run exactly from `y1` to `y2` (lab 5: from `y1 + 0.5` to `y2 + 0.5`) |
| Wu.DrawWuEndpoints | lab5/main.py:156-161 | for non-negative coordinates lab 5's first and last pixels are exactly the two endpoints |
| Conics.Octants | lab2/main.py:100-101 | each iteration draws eight points |
| Conics.OctantsSymmetric | lab2/main.py:100-101 | the eight points of an iteration are closed under reflection in both axes and in the diagonal through the center |
| Conics.CircleNext | lab2/main.py:102-107 | `x` grows by one, and `y` drops by one exactly when `d > 0` |
| Conics.CircleStates | lab2/main.py:98-107 | the loop runs exactly while `x <= y`, with `x` counting iterations, and stops at the first `x > y` |
| Conics.EmitOctants | lab2/main.py:99-101 | the output is the eight reflections of each visited state, in order |
| Conics.DrawCircleShape | lab2/main.py:96-107 | eight points per iteration; a negative radius draws nothing; the run starts at `(0, r)` with `d = 3 - 2r` and `y` drops exactly when `d > 0` |
| Conics.DrawCircle | lab2/main.py:96-107 | eight points per iteration, and the `k`-th iteration draws the eight reflections of the `k`-th visited state about the center |
| Conics.CircleNextDecision | lab2/main.py:102-107 | one update keeps `d` equal to the midpoint residual plus the drift `4(x + r - y)` |
| Conics.CircleStatesDecision | lab2/main.py:98-107 | that decision relation holds in every visited state |
| Conics.DrawCircleDecision | lab2/main.py:98-107 | the relation holds along the whole run from `(0, r)` |
| Conics.CircleStatesYBound | lab2/main.py:102-105 | `y` never grows along a run |
| Conics.EmitOctantsSource | lab2/main.py:99-101 | every drawn point is a reflection of some visited state |
| Conics.DrawCircleBounded | lab2/main.py:96-107 | for `r >= 0` every offset satisfies `0 <= x <= y <= r`, so every point is within `r` of the center on both axes |
| Conics.OctantsBounded | lab2/main.py:100-101 | reflections of a first-octant offset stay within `r` of the center |
| Conics.Quadrants | lab2/main.py:115-116 | each ellipse or hyperbola iteration draws four points |
| Conics.EmitQuadrants | lab2/main.py:115-116 | the output is the four reflections of each visited state, in order |
| Conics.EllipseShiftX | lab2/main.py:119-122 | moving the ellipse function one column changes it by `b^2 (2X + 1)` |
| Conics.EllipseShiftY | lab2/main.py:121-122 | moving it one row down changes it by `a^2 (1 - 2Y)` |
| Conics.EllipseNext1 | lab2/main.py:117-122 | region 1 moves one column, and drops a row exactly when `d1 >= 0` |
| Conics.EllipseSlack1Guard | lab2/main.py:114 | the region 1 guard holds exactly when an integer slack is positive |
| Conics.EllipseSlack1Step | lab2/main.py:114-122 | each region 1 step lowers that slack by at least `2 b^2` |
| Conics.EllipseRegion1 | lab2/main.py:111-122 | region 1 terminates; every visited state satisfies the guard, consecutive states are loop steps, and the exit state fails the guard |
| Conics.EllipseNext1Decision | lab2/main.py:117-122 | one region 1 update keeps `d1` equal to the ellipse function at the midpoint `(x + 1, y - 0.5)` |
| Conics.EllipseRegion1Decision | lab2/main.py:112-122 | that midpoint relation holds in every region 1 state and at its exit |
| Conics.EllipseGuard1Above | lab2/main.py:114 | the region 1 guard forces `y >= 1` |
| Conics.EllipseNext2 | lab2/main.py:128-133 | region 2 drops one row, and moves a column exactly when `d2 <= 0` |
| Conics.EllipseRegion2 | lab2/main.py:125-133 | region 2 runs `y + 1` times, one row per step, and leaves with `y == -1` |
| Conics.EllipseNext2Decision | lab2/main.py:128-133 | one region 2 update keeps `d2` equal to the ellipse function at the midpoint `(x + 0.5, y - 1)` |
| Conics.EllipseRegion2Decision | lab2/main.py:124-133 | that relation holds in every region 2 state |
| Conics.EllipseStart2 | lab2/main.py:124 | the fresh `d2` is the ellipse function at the region 2 midpoint |
| Conics.EllipseDecisions | lab2/main.py:109-133 | in both regions of a whole run the decision variable is the ellipse function at the midpoint between the next two candidate pixels |
| Conics.DrawEllipse | lab2/main.py:109-133 | four points per iteration of either loop: the four reflections of each region 1 state, in order, then those of each region 2 state |
| Conics.EllipseRuns | lab2/main.py:109-133 | the two loops, region 2 started from region 1's exit; it has no contract of its own: Conics.EllipseRegion1Steps, Conics.EllipseRegion2Steps, Conics.EllipseAboveCenter and Conics.EllipseDecisions state what the runs visit |
| Conics.EllipseRegion1Steps | lab2/main.py:111-122 | region 1 visits columns `0, 1, 2, ...` in order and lowers `y` by at most one per step |
| Conics.EllipseRegion2Steps | lab2/main.py:124-133 | region 2 lowers `y` by exactly one per step and advances `x` by at most one |
| Conics.EllipseAboveCenter | lab2/main.py:111-133 | for `b >= 0` region 1 stays on or above the center row and region 2 ends at `y == -1` |
| Conics.EllipseRegion1Columns | lab2/main.py:114-117 | region 1 advances `x` by one per step from its start |
| Conics.HyperbolaShiftX | lab2/main.py:147-149 | moving the hyperbola function one column changes it by `b^2 (2X + 1)` |
| Conics.HyperbolaShiftY | lab2/main.py:144-146 | moving it one row up changes it by `-a^2 (2Y + 1)` |
| Conics.HyperbolaNext1 | lab2/main.py:144-149 | region 1 climbs one row, and moves a column exactly when `d1 >= 0` |
| Conics.HyperbolaRegion1 | lab2/main.py:140-149 | region 1, cut off after `fuel` steps, visits consecutive rows; every visited state satisfies the guard, and it stops early only when the guard fails |
| Conics.HyperbolaNext1Decision | lab2/main.py:144-149 | as written, `d1` plus the hyperbola function at the midpoint `(x + 0.5, y + 1)` is kept constant: each update is the negated midpoint change |
| Conics.HyperbolaRegion1Decision | lab2/main.py:139-149 | that sum stays constant through region 1 and at its exit |
| Conics.HyperbolaNext2 | lab2/main.py:156-161 | region 2 moves one column, and climbs a row exactly when `d2 <= 0` |
| Conics.HyperbolaRegion2 | lab2/main.py:152-161 | region 2 runs one column per step until the hard-coded `x == 200` |
| Conics.HyperbolaNext2Decision | lab2/main.py:156-161 | as written, `d2` plus the midpoint function at `(x + 1, y + 0.5)` grows by `2 b^2` per step |
| Conics.HyperbolaRegion2Decision | lab2/main.py:151-161 | that relation holds in every region 2 state |
| Conics.HyperbolaStart1 | lab2/main.py:137-139 | region 1 starts at the vertex `(a, 0)` with `d1` the function at the first midpoint `(a + 0.5, 1)` |
| Conics.HyperbolaStart2 | lab2/main.py:151 | region 2 keeps the exit pixel and sets `d2` to the function at `(x + 1, y + 0.5)` |
| Conics.HyperbolaRegion1Shape | lab2/main.py:137-149 | region 1 starts at `(a, 0)`, climbs one row per step, and keeps its decision relation |
| Conics.HyperbolaRegion2Shape | lab2/main.py:151-161 | region 2 advances one column per step from region 1's exit, keeps its decision relation, and ends at column 200 |
| Conics.DrawHyperbola | lab2/main.py:135-161 | four points per iteration of either loop: the four reflections of each region 1 state, in order, then those of each region 2 state |
| Conics.HyperbolaNext1Choice | lab2/main.py:145-149 | as written, region 1 moves a column exactly when the midpoint function is at most the kept constant, not when it is negative |
| Conics.HyperbolaDefaultsSecondPixel | lab2/main.py:137-149 | with the default sizes `a = 100`, `b = 50` the code steps to `(101, 1)` although `(100, 1)` is nearer the curve |
| Conics.HyperbolaNext1Corrected | lab2/main.py:144-149 | the corrected region 1 step climbs one row |
| Conics.HyperbolaNext1CorrectedMidpoint | lab2/main.py:144-149 | the corrected step keeps `d1` equal to the midpoint function and moves a column exactly when the midpoint is inside the branch |
| Conics.HyperbolaRegion1Corrected | lab2/main.py:140-149 | the corrected region 1 runs under the same guard and fuel, one corrected step at a time |
| Conics.HyperbolaRegion1CorrectedTracks | lab2/main.py:139-149 | started on the midpoint function, the corrected region 1 keeps `d1` on it in every state, and moves a column exactly when the midpoint lies between the branches |
| Conics.DrawHyperbolaCorrectedTracks | lab2/main.py:135-149 | in the corrected drawing every region 1 state from the vertex on has `d1` equal to the midpoint function |
| Conics.DrawHyperbolaCorrected | lab2/main.py:135-161 | the corrected drawing plots, in order, the four reflections of each corrected region 1 state, then those of each region 2 state |
| Conics.ParabolaPair | lab2/main.py:168-170 | each column draws two points |
| Conics.ParabolaFrom | lab2/main.py:166-171 | the columns `x .. 200` are drawn in order, two points each |
| Conics.DrawParabola | lab2/main.py:163-171 | exactly 402 points: point `2k + j` is point `j` of the mirrored pair of column `k`, for the columns `0 .. 200` in order |
| Conics.ParabolaPairOnCurve | lab2/main.py:168-170 | both points of a column lie on `4p (y0 - Y) == (X - x0)^2`, at the same height, mirrored about `x0` |
| Conics.DrawParabolaOnCurve | lab2/main.py:163-171 | exactly 402 points, every one on the parabola `4p (y0 - Y) == (X - x0)^2` |
| Curves.WeightsAreMatrixProducts | lab3/main.py:84-93 | the Bezier weights, and the B-spline weights of lines 124-133, are the power row times the source's basis matrix |
| Curves.WeightsSumToOne | lab3/main.py:84-93 | both bases sum to one for every `t`, and the Bezier weights are the cubic Bernstein polynomials |
| Curves.HermiteWeights | lab3/main.py:106-109 | `h1 + h2 == 1` for every `t` |
| Curves.BezierPoint | lab3/main.py:84-93 | `T @ M @ P`; it has no contract of its own: Curves.WeightsAreMatrixProducts, Curves.WeightsSumToOne and Curves.SegmentEnds state its weights and ends |
| Curves.HermitePoint | lab3/main.py:105-112 | the Hermite blend of the ends and tangents; it has no contract of its own: Curves.HermiteWeights and Curves.SegmentEnds state its weights and ends |
| Curves.BSplinePoint | lab3/main.py:124-133 | `T @ B @ P`; it has no contract of its own: Curves.WeightsAreMatrixProducts, Curves.WeightsSumToOne and Curves.BSplineEnds state its weights and ends |
| Curves.CombineCorners | lab3/main.py:92-93 | the weights `[1,0,0,0]` give `p0` and `[0,0,0,1]` give `p3` |
| Curves.SegmentEnds | lab3/main.py:84-112 | Bezier and Hermite points are `p0` at `t = 0` and `p3` at `t = 1` |
| Curves.BSplineEnds | lab3/main.py:124-133 | a B-spline segment runs from `(p0 + 4p1 + p2) / 6` to `(p1 + 4p2 + p3) / 6` |
| Curves.StartsFrom | lab3/main.py:99 | window starts step by the stride, each window fits in the list, and no further window would fit |
| Curves.Segment | lab3/main.py:80-82 | a window draws exactly 100 points, point `m` being the curve at parameter `m / 99`, so the first is the curve at 0 and the last at 1 |
| Curves.Segments | lab3/main.py:78-82 | 100 points per window start |
| Curves.DrawCurve | lab3/main.py:74-82 | fewer than four points draw nothing; otherwise 100 points per window and at least one window |
| Curves.DrawCurveBlock | lab3/main.py:74-82 | point `m` of block `w` of a drawn curve is sample `m` (parameter `m / 99`) of the window `points[s*w : s*w+4]`, with stride `s` 3 for Hermite and 1 otherwise |
| Curves.FlattenAt | lab3/main.py:78-82 | drawing equal-length blocks one after another puts point `m` of block `w` at position `n*w + m` |
| Curves.StartsStride | lab3/main.py:95-103 | Hermite windows start every third point, Bezier and B-spline windows at every point (`n - 3` of them) |
| Curves.BSplineJoins | lab3/main.py:114-133 | the end of one B-spline segment is the start of the next |
| Curves.HermiteJoins | lab3/main.py:95-112 | consecutive Hermite segments meet at the shared control point `points[i + 3]` |
| Curves.OnClick | lab3/main.py:36-50 | a click selects the nearest point with squared distance below 100, the earliest on ties, and leaves the list alone; with no such point it appends the click |
| Curves.OnDrag | lab3/main.py:52-56 | dragging replaces only the selected point; the length, the selection and every other point are unchanged |
| Curves.OnRelease | lab3/main.py:58-60 | release clears the selection and keeps the points |
| LinAlg.RowTimesApply | lab4/transformations.py:60-62 | one row of a product applied to a point is that row applied to the point moved by the right factor |
| LinAlg.ApplyMul | lab4/transformations.py:60-62 | applying `a @ b` applies `b` first, then `a` |
| LinAlg.IdentityNeutral | lab4/main.py:92 | `np.eye(4)` is neutral on both sides and fixes every point |
| LinAlg.AffineClosed | lab4/transformations.py:3-89 | products of matrices with bottom row `[0, 0, 0, 1]` keep it, and such a matrix keeps `w` |
| LinAlg.ApplyAll | lab4/transformations.py:60-62 | `points @ M.T` maps each row `p` to `M p`, keeping the count |
| LinAlg.ApplyAllMul | lab4/transformations.py:60-62 | transforming a point set by `b` and then `a` is transforming it once by `a @ b` |
| LinAlg.Apply | lab4/transformations.py:60-62 | `M p` for one point; it has no contract of its own: LinAlg.RowTimesApply, LinAlg.ApplyMul and LinAlg.IdentityNeutral state how it composes |
| LinAlg.Mul | lab4/main.py:115-147 | `a @ b`; it has no contract of its own: LinAlg.ApplyMul states that `a @ b` acts as `b` then `a`, and LinAlg.IdentityNeutral and LinAlg.AffineClosed state its identity and closure |
| Transforms.Translation | lab4/transformations.py:3-10 | the translation matrix has bottom row `[0, 0, 0, 1]` |
| Transforms.Scale | lab4/transformations.py:12-19 | the scale matrix has bottom row `[0, 0, 0, 1]` |
| Transforms.RotX | lab4/transformations.py:21-29 | the x rotation has bottom row `[0, 0, 0, 1]` |
| Transforms.RotY | lab4/transformations.py:31-39 | the y rotation has bottom row `[0, 0, 0, 1]` |
| Transforms.RotZ | lab4/transformations.py:41-49 | the z rotation has bottom row `[0, 0, 0, 1]` |
| Transforms.Perspective | lab4/transformations.py:51-58 | the perspective matrix has bottom row `[0, 0, 0, 1]` |
| Transforms.MirrorX | lab4/transformations.py:64-71 | the x mirror has bottom row `[0, 0, 0, 1]` |
| Transforms.MirrorY | lab4/transformations.py:73-80 | the y mirror has bottom row `[0, 0, 0, 1]` |
| Transforms.MirrorZ | lab4/transformations.py:82-89 | the z mirror has bottom row `[0, 0, 0, 1]` |
| Transforms.TranslationMoves | lab4/transformations.py:3-10 | a translation adds `w` times the offset and keeps `w` |
| Transforms.ScaleStretches | lab4/transformations.py:12-19 | a scale multiplies each coordinate by its factor and keeps `w` |
| Transforms.PerspectiveKeepsW | lab4/transformations.py:51-58 | the perspective matrix maps `(x, y, z, w)` to `(x, y, z + w/d, w)`; `w` is kept, not set to `z/d`, so `project` divides by the unchanged `w` |
| Transforms.MirrorXInvolution | lab4/transformations.py:64-71 | the x mirror negates only `x` and is its own inverse |
| Transforms.MirrorYInvolution | lab4/transformations.py:73-80 | the y mirror negates only `y` and is its own inverse |
| Transforms.MirrorZInvolution | lab4/transformations.py:82-89 | the z mirror negates only `z` and is its own inverse |
| Transforms.TranslationCompose | lab4/transformations.py:3-10 | two translations compose to the translation by the summed offsets |
| Transforms.ScaleCompose | lab4/transformations.py:12-19 | two scales compose to the scale by the componentwise products |
| Transforms.RotYQuarterTurn | lab4/transformations.py:31-39 | with `c = 0`, `s = 1` the y rotation maps `(1, 0, 0, 1)` to `(0, 0, -1, 1)` |
| Transforms.RotationsPreserveLength | lab4/transformations.py:21-49 | with `c^2 + s^2 = 1` each rotation keeps the squared length in its plane, the third coordinate and `w` |
| Transforms.PlaneRotation | lab4/transformations.py:21-49 | a 2D rotation by a unit `(c, s)` keeps squared length |
| Transforms.RotZCompose | lab4/transformations.py:41-49 | two z rotations compose by the angle-addition formulas |
| Scene.HomogeneousRow | lab4/main.py:37 | a parsed line becomes a row with `w == 1` |
| Scene.LoadRows | lab4/main.py:33-38 | one row `[x, y, z, 1]` per parsed line, in order |
| Scene.Project | lab4/main.py:41-45 | the projected `x` and `y` times the point's `w` give back the point's `x` and `y` |
| Scene.ProjectIgnoresDepth | lab4/main.py:41-45 | a row with `w == 1` projects to its own `(x, y)`: depth has no effect |
| Scene.Edges | lab4/main.py:23-28 | 12, 8, 6 and 12 edges; each joins two distinct vertex indices of its object, and no edge is listed twice in either direction |
| Scene.AccumulateActs | lab4/main.py:115-134 | the right-multiplied running transform applies the newest delta to a point first |
| Scene.Accumulate | lab4/main.py:115-147 | the running `transform = transform @ delta`; it has no contract of its own: Scene.AccumulateActs, Scene.AccumulateAppend and Scene.AccumulateAffine state what it computes |
| Scene.AccumulateAffine | lab4/main.py:92-134 | accumulating affine deltas keeps the bottom row `[0, 0, 0, 1]` and `w` |
| Scene.Then | lab4/main.py:115-134 | appending a held key's delta keeps the deltas affine |
| Scene.KeyDeltas | lab4/main.py:115-134 | every movement delta of a frame is affine |
| Scene.FrameStepDeltas | lab4/main.py:137-147 | a frame right-multiplies the movement deltas, then at most one mirror, and restarts the delay exactly when it mirrors |
| Scene.FrameStep | lab4/main.py:115-147 | one frame's key handling; it has no contract of its own: Scene.FrameStepDeltas and Scene.FrameStepAffine state what it does to the transform and the delay |
| Scene.AccumulateAppend | lab4/main.py:115-147 | accumulating two batches of deltas is accumulating their concatenation |
| Scene.FrameStepAffine | lab4/main.py:92-147 | from an affine transform every frame keeps it affine, so transformed rows keep `w` |
| Polygons.Orientation | lab5/main.py:207-210 | the orientation is `-1`, `0` or `1` |
| Polygons.OrientationIsAreaSign | lab5/main.py:207-210 | the orientation is minus the sign of the signed area, and is zero exactly for collinear points |
| Polygons.OrientationSymmetries | lab5/main.py:207-210 | reversing the three points negates the orientation; rotating them keeps it |
| Polygons.OrientationOnLine | lab5/main.py:207-210 | a point at an integer multiple along `p q` gives orientation 0 |
| Polygons.CrossingsParity | lab5/main.py:215-224 | the loop result is the starting flag flipped once per crossed edge |
| Polygons.PointInPolygon | lab5/main.py:212-224 | a point is inside exactly when its ray crosses an odd number of edges, the closing edge from the last vertex included |
| Polygons.ClearNoToggles | lab5/main.py:218-223 | when all vertices are at or above the point's row, all below it, or all left of it, no edge toggles |
| Polygons.PointOutsideBox | lab5/main.py:212-224 | a point whose `y` is at most every vertex `y`, or greater than every vertex `y`, or whose `x` is greater than every vertex `x` is outside |
| Polygons.FlatEdgeNeverToggles | lab5/main.py:219 | a horizontal or degenerate edge never toggles |
| Polygons.ToggleCountSnoc | lab5/main.py:218-223 | appending a vertex adds exactly the toggle of the new edge |
| Polygons.PointInPolygonClosed | lab5/main.py:212-224 | repeating the first vertex at the end does not change the result |
| Polygons.IsConvex | lab5/main.py:226-243 | true exactly when there are at least three vertices and no two wrap-around turns point in opposite directions |
| Polygons.CollinearIsConvex | lab5/main.py:233-243 | a polygon whose turns are all zero passes the test |
| Polygons.DartNotConvex | lab5/main.py:233-241 | the dart `(0,0), (4,0), (2,1), (2,4)` fails the test |
| Polygons.CramerIdentity | lab5/main.py:311-317 | scaled by `d`, the point at `t` on the line equals the point at `u` on the edge |
| Polygons.EdgeHitOnBoth | lab5/main.py:310-324 | every reported point is `p1 + t (p2 - p1)` and also `p3 + u (p4 - p3)`, with `t` and `u` in `[0, 1]` |
| Polygons.ParallelEdgeMisses | lab5/main.py:311-313 | an edge with determinant 0 contributes nothing |
| Polygons.HitsFrom | lab5/main.py:306-324 | at most one point per edge; each point is some edge's hit, and every hit is reported |
| Polygons.CalculateIntersection | lab5/main.py:301-326 | at most `len(poly)` points; each is the hit of some edge, and every edge's hit is reported; exactly the hits of the edges that are hit, one per edge, in edge order |
| Polygons.HitsFromPresent | lab5/main.py:306-324 | the loop from edge `i` on keeps the hits of the edges it meets, in edge order, and skips the misses |
| Polygons.SquareHorizontalHits | lab5/main.py:306-324 | a horizontal line through the square meets its right side at `(10, 5)` and misses its bottom side |
| Hulls.Lowest | lab5/main.py:166-167 | the pivot is an input point with the least `(y, x)` key |
| Hulls.GrahamScan | lab5/main.py:164-179 | the stack starts at the pivot and ends with the last point in angular order; every element is an input point; every consecutive triple turns `-1` |
| Hulls.GrahamSquareTurns | lab5/main.py:175-177 | a square's corners turn `-1` and are kept; a collinear middle point turns 0 and is popped |
| Hulls.LeftmostIndex | lab5/main.py:187 | `min` by `x` picks the first point of least `x` |
| Hulls.Leftmost | lab5/main.py:187 | the leftmost point is an input point |
| Hulls.Consider | lab5/main.py:194-198 | the result is the old or the new candidate; on a collinear tie a distinct candidate wins exactly when strictly farther; `point` is kept only when both are `point` |
| Hulls.ScanFrom | lab5/main.py:192-198 | the inner loop returns an input point, and returns `point` only if every point equals it |
| Hulls.OrientationSameStart | lab5/main.py:196-198 | a candidate distinct from `point` beats `point` itself as `next_point` |
| Hulls.NextVertex | lab5/main.py:192-200 | the next vertex is an input point, and is the current one only when all points coincide with it |
| Hulls.March | lab5/main.py:190-202 | the outer loop, cut off after `fuel` steps, visits input points, each the next vertex of the one before and distinct from it, and never revisits the start |
| Hulls.JarvisMarch | lab5/main.py:181-204 | fewer than three points come back unchanged; otherwise the hull starts at a point of least `x`, visits only input points and never stays in place |
| Hulls.SquareCandidates | lab5/main.py:193-198 | from `(0,0)` the farther collinear `(0,10)` replaces `(0,5)`, and the other corners are passed over |
| Hulls.JarvisPrefersFarther | lab5/main.py:192-200 | the march from `(0,0)` over the square with a point on its left side takes `(0,10)`, not `(0,5)` |
| Scanline.EdgeOf | lab6/main.py:97-109 | a horizontal side gives no record; otherwise `y_min < y_max` from the lower end, `x` of the lower end, and `inv_slope` is run over rise |
| Scanline.SidesFrom | lab6/main.py:96-110 | at most one record per side, each with `y_min < y_max` |
| Scanline.Insert | lab6/main.py:112 | inserting into a sorted list keeps it sorted and adds exactly the new edge |
| Scanline.SortBy | lab6/main.py:112 | the sort returns a sorted permutation |
| Scanline.GetEdges | lab6/main.py:93-113 | the edge table is sorted by `y_min`, holds exactly the side records, and has at most one per vertex |
| Scanline.GetEdgesProper | lab6/main.py:100-109 | every record in the table has `y_min < y_max` |
| Scanline.StartingAt | lab6/main.py:126-127 | the comprehension keeps exactly the edges whose `y_min == y` (or `!= y`) |
| Scanline.AliveAt | lab6/main.py:128 | pruning keeps exactly the edges with `y_max > y` |
| Scanline.Activate | lab6/main.py:126-128 | activation moves the edges starting at `y` from pending to active and drops the finished ones |
| Scanline.ActivateSpansRow | lab6/main.py:126-131 | after activation and pruning every active edge satisfies `y_min <= y < y_max` |
| Scanline.PairSpans | lab6/main.py:135-138 | spans pair edges `(0,1), (2,3), ...`, `len // 2` of them, from the truncated `x` values |
| Scanline.PairSpansOrdered | lab6/main.py:133-138 | on an x-sorted row every span runs left to right |
| Scanline.Advance | lab6/main.py:142-144 | every active `x` advances by its `inv_slope` and nothing else changes |
| Scanline.FillStep | lab6/main.py:123-149 | a step ends the fill exactly when the pruned active list is empty; otherwise it draws `len // 2` left-to-right spans on row `y` and moves to `y + 1` |
| Scanline.StepKeepsEdges | lab6/main.py:126-144 | after a step that draws a row, every pending edge was pending before, and every active edge ends at the `y_max` of an edge it was given |
| Scanline.StepDecreases | lab6/main.py:123-149 | each step that draws a row lowers the distance to the highest `y_max` still pending or active |
| Scanline.StepTopAbove | lab6/main.py:126-131 | when a step draws a row, some pending or active edge still reaches above it |
| Scanline.FillFrom | lab6/main.py:123-151 | the recursion terminates and draws nothing exactly when nothing is active at the first row |
| Scanline.FillFromRows | lab6/main.py:120-149 | the sweep visits consecutive rows |
| Scanline.FillFromSpans | lab6/main.py:133-138 | every span lies on its row and runs left to right |
| Scanline.ScanlineFill | lab6/main.py:115-151 | no edges draw nothing; otherwise rows run consecutively from the first `y_min` |
| Scanline.SweepStartsOrdered | lab6/main.py:112-121 | with the table sorted by `y_min`, no edge starts below the first row |
| Scanline.StepOrdered | lab6/main.py:126-144 | a step that draws a row keeps the active edges started and the pending ones not yet started |
| Scanline.SquareEdges | lab6/main.py:93-113 | the square's table is its right side and then its left side |
| Scanline.SquareStep | lab6/main.py:123-149 | once both square sides are active, rows below 10 draw `(y, 0, 10)` and row 10 ends the fill |
| Scanline.SquareFrom | lab6/main.py:123-149 | from row `y` on the square draws one span per row up to row 9 |
| Scanline.SquareFirstStep | lab6/main.py:123-149 | the first row activates both sides, sorts the left one first and draws `(0, 0, 10)` |
| Scanline.SquareFill | lab6/main.py:115-151 | the square fills rows 0 to 9 with the span `x = 0 .. 10` and then stops; the right end is 10, the end handed to `create_line`, not 9 |
| SeedFill.SideTogglesAgree | lab6/main.py:205-210 | lab 6's toggle rule equals lab 5's: the extra vertical-edge test changes nothing |
| SeedFill.InsideFromAgrees | lab6/main.py:204-212 | lab 6's loop computes lab 5's loop over the same chain of edges |
| SeedFill.PointInsidePolygon | lab6/main.py:198-214 | lab 6's `point_inside_polygon` equals lab 5's `point_in_polygon` on the same vertices |
| SeedFill.PointInsideBox | lab6/main.py:198-214 | outside the rows `(min y, max y]`, or right of every vertex, no point is inside |
| SeedFill.Neighbours | lab6/main.py:235-238 | the four pushes are the 4-neighbours of the pixel |
| SeedFill.ConnectedSnoc | lab6/main.py:231-238 | painting a neighbour of an already painted pixel keeps the painted list 4-connected |
| SeedFill.FloodFill | lab6/main.py:216-244 | a seed outside paints nothing; a seed inside is painted first; every painted pixel is inside; no pixel is painted twice; every painted pixel is 4-connected to the seed through earlier painted pixels |
| SeedFill.PaintAppend | lab6/main.py:231-238 | painting a fresh inside pixel next to a painted one keeps the painted pixels visited, inside, distinct and 4-connected |
| SeedFill.ExtendLeft | lab6/main.py:264-265 | the left end moves over open pixels only, stops at 0, and stops before a pixel that is not open |
| SeedFill.ExtendRight | lab6/main.py:266-267 | the right end moves over open pixels only, stops at 599, and stops before a pixel that is not open |
| SeedFill.FirstOpen | lab6/main.py:279-283 | the seed search finds the first open pixel of the row under the span, and finds one exactly when the row has an open pixel there |
| SeedFill.SpanSeeds | lab6/main.py:278-289 | a span pushes at most one seed per row, above before below, each the leftmost open pixel under the span; it pushes one in row `y - 1` exactly when `y > 0` and that row has an open pixel under the span, and likewise in row `y + 1` exactly when `y < 399` |
| SeedFill.ScanlineFloodFill | lab6/main.py:246-291 | a seed outside paints nothing; a seed inside, given at least one pop, paints first the span of its own row through it; every span holds only interior pixels, all marked visited; for a seed on the canvas every span lies on the canvas; no two spans share a pixel |
| SeedFill.SpanAppend | lab6/main.py:258-275 | a new span of inside pixels none of which were visited shares no pixel with earlier spans, and the spans stay filled and visited |

## Left out

- GUI and event plumbing are not modelled: window and widget setup, bindings,
  message boxes, `print` logging, `time.sleep`, `root.update`, `root.after` and
  `clock.tick`. Drawing calls become returned sequences.
- Lab 7 is not modelled. It only calls `scipy.spatial.Delaunay`/`Voronoi` and
  matplotlib.
- Floating point: every float is an exact `real`. Accumulated rounding in the DDA
  and Wu loops, and in the sweep's `x += inv_slope`, is not modelled.
- `np.cos`/`np.sin` are not modelled. Rotations take the pair `(c, s)`, and the
  length property needs `c^2 + s^2 = 1`.
- `np.linspace(0, 1, 100)` is the exact `j / 99`.
- `load_object`'s file reading and `choose_object` are not modelled: the model
  starts from parsed triples. `draw_edges` is not modelled either: it only paints
  lines between projected points.
- `get_sizes` entry parsing (lab 2), `find_intersection`'s dispatch (lab 5) and
  `fill_polygon`'s always-true `or` branch (lab 6) are GUI glue and are not modelled.
- Scene.Project: a point with `w == 0` is excluded. numpy would produce infinities
  there.
- Hulls.GrahamScan: the `np.arctan2` polar sort is not modelled. The angular order
  is an input: any arrangement of the non-pivot points. The contract states the
  stack invariants, not that the result is the convex hull.
- Hulls.JarvisMarch: the outer loop has no bound in the code. It runs for at most
  `fuel` steps. The contract does not state that the result is the convex hull.
- Conics.HyperbolaRegion1: region 1 has no bound in the code and need not end
  when `b > a`. It runs for at most `fuel` steps.
- SeedFill.FloodFill: the pixel fill does not clip to the canvas and has no bound.
  It runs for at most `fuel` stack pops. The contract does not state that every
  reachable interior pixel is painted.
- SeedFill.ScanlineFloodFill: it runs for at most `fuel` stack pops. The contract
  states that the first span runs through an interior seed. It does not state that
  the later spans are connected to the seed, or that every reachable interior
  pixel is painted.
- Scanline.GetEdges: the contract states a sorted permutation, not the stability
  of Python's sort. `Insert` is stable by construction.
- Scanline.ScanlineFill: `scanline_fill_ordered` and `scanline_fill_active` have
  the same body, so one function models both. Only their colors differ.
- Polygons.PointInPolygon, SeedFill.PointInsidePolygon, SeedFill.FloodFill and
  SeedFill.ScanlineFloodFill: an empty vertex list is excluded by `|vs| > 0`. The
  code raises `IndexError` there: `point_in_polygon` reads `polygon[-1]` and
  `point_inside_polygon` reads `self.vertices[0]`, and both fills call it on
  their seed.
- Dda.DrawDda: equal endpoints are excluded. The code divides by zero there.
- Conics.DrawParabola: `p == 0` is excluded. The code divides by zero there.
- The lab 1 Wu line draws a black pixel for equal endpoints. The model records it
  as coverage 1, which `get_color` maps to `#000000`.

## Findings

| source | as written | input that shows it | evidently intended | confidence | as-written member | corrected member |
|---|---|---|---|---|---|---|
| lab2/main.py:144-149 | Region 1 of `draw_hyperbola` adds the negated midpoint increments to `d1`, then moves a column when `d1 >= 0`. The variable no longer tracks the midpoint function, so the column choice does not follow the curve. | `a = 100`, `b = 50` (the default sizes). The first midpoint `(100.5, 1)` gives `d1 = 240625 > 0`, so the code steps to `(101, 1)`. Yet `(100, 1)` has residual -10000 against 492500 for `(101, 1)`. | `d1` tracks the hyperbola function at the midpoint `(x + 0.5, y + 1)`, and a negative value selects the next column. | not executed | Conics.HyperbolaDefaultsSecondPixel | Conics.HyperbolaRegion1CorrectedTracks |

`Conics.DrawHyperbola` draws what the code draws. `Conics.DrawHyperbolaCorrected`
draws with the corrected region 1 step and keeps region 2 as written.
