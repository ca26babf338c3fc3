/** The seed fills of lab 6: its own ray-casting test `point_inside_polygon`, the
    pixel flood fill and the span-based flood fill. Painting pixels becomes the
    returned pixel and span lists. */
module SeedFill {
  import opened Geometry
  import opened Polygons

  /** The toggle rule of `point_inside_polygon` for the edge `(a, b)`. */
  predicate SideToggles(pt: Pt, a: Pt, b: Pt)
  {
    Min(a.y, b.y) < pt.y <= Max(a.y, b.y) && pt.x <= Max(a.x, b.x)
    && (a.x == b.x || pt.x as real <= XIntersect(pt.y, a, b))
  }

  /** The loop of `point_inside_polygon` from the edge `(prev, rest[0])` on. */
  function InsideFrom(pt: Pt, prev: Pt, rest: seq<Pt>, inside: bool): bool
    decreases |rest|
  {
    if rest == [] then inside
    else InsideFrom(pt, rest[0], rest[1..], if SideToggles(pt, prev, rest[0]) then !inside else inside)
  }

  /** `point_inside_polygon(x, y)`: `range(n + 1)` walks the edges
      `(v0, v0), (v0, v1), ..., (v[n-1], v0)`. No vertices raises in the source.
      It gives the same answer as lab 5's `point_in_polygon` on the same vertices:
      its first edge `(v0, v0)` never toggles, and the rest are lab 5's edges in
      rotated order. */
  function PointInsidePolygon(pt: Pt, vs: seq<Pt>): (r: bool)
    requires |vs| > 0
    ensures r == PointInPolygon(pt, vs)
  {
    InsideFromAgrees(pt, vs[0], vs + [vs[0]], false);
    var closed := vs + [vs[0]];
    assert closed[|closed| - 1] == vs[0];
    PointInPolygonClosed(pt, vs);
    InsideFrom(pt, vs[0], closed, false)
  }

  /** The two toggle rules agree: on a vertical edge the intersection is the edge's
      own `x`, so the extra `p1x == p2x` test changes nothing. */
  lemma SideTogglesAgree(pt: Pt, a: Pt, b: Pt)
    ensures SideToggles(pt, a, b) == EdgeToggles(pt, a, b)
  {
    if a.x == b.x && a.y != b.y {
      assert ((pt.y - a.y) * (b.x - a.x)) == 0;
      assert XIntersect(pt.y, a, b) == a.x as real;
    }
  }

  lemma {:induction false} InsideFromAgrees(pt: Pt, prev: Pt, rest: seq<Pt>, inside: bool)
    ensures InsideFrom(pt, prev, rest, inside) == Crossings(pt, prev, rest, inside)
    decreases |rest|
  {
    if rest != [] {
      SideTogglesAgree(pt, prev, rest[0]);
      InsideFromAgrees(pt, rest[0], rest[1..], if SideToggles(pt, prev, rest[0]) then !inside else inside);
    }
  }

  /** Outside the polygon's rows `(min y, max y]`, or right of every vertex, no
      pixel is inside. */
  lemma PointInsideBox(pt: Pt, vs: seq<Pt>)
    requires |vs| > 0
    requires || (forall i :: 0 <= i < |vs| ==> pt.y <= vs[i].y)
             || (forall i :: 0 <= i < |vs| ==> vs[i].y < pt.y)
             || (forall i :: 0 <= i < |vs| ==> vs[i].x < pt.x)
    ensures !PointInsidePolygon(pt, vs)
  {
    PointOutsideBox(pt, vs);
  }

  // ------------------------------------------------------------ pixel flood fill

  /** 4-neighbours. */
  predicate Adjacent(a: Pt, b: Pt)
  {
    Abs(a.x - b.x) + Abs(a.y - b.y) == 1
  }

  /** The four pushes of `flood_fill`, in push order. */
  function Neighbours(p: Pt): (r: seq<Pt>)
    ensures |r| == 4 && forall i :: 0 <= i < 4 ==> Adjacent(p, r[i])
  {
    [Pt(p.x + 1, p.y), Pt(p.x - 1, p.y), Pt(p.x, p.y + 1), Pt(p.x, p.y - 1)]
  }

  /** Every pixel after the first is a 4-neighbour of an earlier one, so the whole
      list is 4-connected to its first pixel. */
  predicate Connected(ps: seq<Pt>)
  {
    forall k :: 1 <= k < |ps| ==> HasEarlierNeighbour(ps, k)
  }

  /** Pixel `k` of `ps` is a 4-neighbour of some pixel before it. */
  predicate HasEarlierNeighbour(ps: seq<Pt>, k: int)
    requires 0 <= k < |ps|
  {
    exists j :: 0 <= j < k && Adjacent(ps[j], ps[k])
  }

  lemma ConnectedSnoc(ps: seq<Pt>, p: Pt, f: int)
    requires Connected(ps)
    requires ps == [] || (0 <= f < |ps| && Adjacent(ps[f], p))
    ensures Connected(ps + [p])
  {
    var qs := ps + [p];
    forall k | 1 <= k < |qs|
      ensures HasEarlierNeighbour(qs, k)
    {
      if k < |ps| {
        assert HasEarlierNeighbour(ps, k);
        var j :| 0 <= j < k && Adjacent(ps[j], ps[k]);
        assert qs[j] == ps[j] && qs[k] == ps[k];
      } else {
        assert qs[f] == ps[f] && qs[k] == p;
      }
    }
  }

  /** `flood_fill(x, y)` for at most `fuel` pops of its stack: the code has no
      bound of its own, since it does not clip to the canvas. Returns the painted
      pixels in painting order. */
  method FloodFill(vs: seq<Pt>, seed: Pt, fuel: nat) returns (painted: seq<Pt>)
    requires |vs| > 0
    ensures !PointInsidePolygon(seed, vs) ==> painted == []
    ensures PointInsidePolygon(seed, vs) && fuel > 0 ==> |painted| > 0
    ensures |painted| > 0 ==> painted[0] == seed
    ensures forall k :: 0 <= k < |painted| ==> PointInsidePolygon(painted[k], vs)
    ensures forall i, j :: 0 <= i < j < |painted| ==> painted[i] != painted[j]
    ensures Connected(painted)
  {
    painted := [];
    if !PointInsidePolygon(seed, vs) {
      return;
    }
    var stack := [seed];
    ghost var from := [-1];  // the painted pixel that pushed each stack entry
    var visited: set<Pt> := {};
    var steps := 0;
    while stack != [] && steps < fuel
      invariant steps <= fuel
      invariant steps > 0 ==> |painted| > 0
      invariant steps == 0 ==> stack == [seed] && from == [-1] && visited == {}
      invariant Pushed(seed, painted, stack, from)
      invariant |painted| > 0 ==> painted[0] == seed
      invariant seed in visited ==> |painted| > 0
      invariant Painted(vs, visited, painted)
      decreases fuel - steps
    {
      var p := stack[|stack| - 1];
      ghost var f := from[|from| - 1];
      PushedPop(seed, painted, stack, from);
      stack, from := stack[..|stack| - 1], from[..|from| - 1];
      steps := steps + 1;
      if p !in visited {
        if PointInsidePolygon(p, vs) {
          if f == -1 {
            assert |painted| == 0;
          }
          PaintAppend(vs, visited, painted, p, f);
          PushedPaint(seed, painted, stack, from, p);
          ghost var n := |painted|;
          visited := visited + {p};
          painted, stack := painted + [p], stack + Neighbours(p);
          from := from + [n, n, n, n];
        } else {
          PaintedGrow(vs, visited, painted, p);
          visited := visited + {p};
        }
      }
    }
  }

  /** Each stack entry was pushed either as the seed (`from == -1`) or by the
      painted pixel `from` it is a 4-neighbour of. */
  ghost predicate Pushed(seed: Pt, painted: seq<Pt>, stack: seq<Pt>, from: seq<int>)
  {
    && |from| == |stack|
    && (forall i :: 0 <= i < |stack| ==> -1 <= from[i] < |painted|)
    && (forall i :: 0 <= i < |stack| && from[i] == -1 ==> stack[i] == seed)
    && (forall i :: 0 <= i < |stack| && 0 <= from[i] < |painted| ==> Adjacent(painted[from[i]], stack[i]))
  }

  lemma PushedPop(seed: Pt, painted: seq<Pt>, stack: seq<Pt>, from: seq<int>)
    requires Pushed(seed, painted, stack, from) && |stack| > 0
    ensures Pushed(seed, painted, stack[..|stack| - 1], from[..|from| - 1])
    ensures var p, f := stack[|stack| - 1], from[|from| - 1];
            && -1 <= f < |painted|
            && (f == -1 ==> p == seed)
            && (f >= 0 ==> Adjacent(painted[f], p))
  {
  }

  /** Painting `p` and pushing its neighbours keeps every entry's origin. */
  lemma PushedPaint(seed: Pt, painted: seq<Pt>, stack: seq<Pt>, from: seq<int>, p: Pt)
    requires Pushed(seed, painted, stack, from)
    ensures var n := |painted|;
            Pushed(seed, painted + [p], stack + Neighbours(p), from + [n, n, n, n])
  {
    var n := |painted|;
    var ps, st, fr := painted + [p], stack + Neighbours(p), from + [n, n, n, n];
    forall i | 0 <= i < |st| && 0 <= fr[i] < |ps|
      ensures Adjacent(ps[fr[i]], st[i])
    {
      if i < |stack| {
        assert ps[fr[i]] == painted[from[i]];
      } else {
        assert ps[fr[i]] == p && st[i] == Neighbours(p)[i - |stack|];
      }
    }
  }

  /** The painted pixels are visited, inside, pairwise distinct and 4-connected. */
  predicate Painted(vs: seq<Pt>, visited: set<Pt>, painted: seq<Pt>)
    requires |vs| > 0
  {
    && (forall k :: 0 <= k < |painted| ==> painted[k] in visited && PointInsidePolygon(painted[k], vs))
    && (forall i, j :: 0 <= i < j < |painted| ==> painted[i] != painted[j])
    && Connected(painted)
  }

  lemma PaintedGrow(vs: seq<Pt>, visited: set<Pt>, painted: seq<Pt>, p: Pt)
    requires |vs| > 0
    requires Painted(vs, visited, painted)
    ensures Painted(vs, visited + {p}, painted)
  {
  }

  /** Painting a fresh inside pixel next to a painted one (or as the first) keeps
      the painted pixels distinct and connected. */
  lemma PaintAppend(vs: seq<Pt>, visited: set<Pt>, painted: seq<Pt>, p: Pt, f: int)
    requires |vs| > 0
    requires Painted(vs, visited, painted)
    requires p !in visited && PointInsidePolygon(p, vs)
    requires painted == [] || (0 <= f < |painted| && Adjacent(painted[f], p))
    ensures Painted(vs, visited + {p}, painted + [p])
  {
    ConnectedSnoc(painted, p, f);
  }

  // ------------------------------------------------------ span flood fill

  /** The canvas bounds of `scanline_flood_fill`: `x` up to 599, `y` up to 399. */
  const MaxX := 599
  const MaxY := 399

  predicate OnCanvas(p: Pt)
  {
    0 <= p.x <= MaxX && 0 <= p.y <= MaxY
  }

  /** A pixel the span fill may take: inside and not yet visited. */
  predicate Open(vs: seq<Pt>, visited: set<Pt>, p: Pt)
    requires |vs| > 0
  {
    PointInsidePolygon(p, vs) && p !in visited
  }

  /** The first `while` of the span step: moves `left` down while the pixel to its
      left is open, stopping at 0. */
  function ExtendLeft(vs: seq<Pt>, visited: set<Pt>, y: int, left: int): (r: int)
    requires |vs| > 0
    decreases left
    ensures r <= left && (left >= 0 ==> r >= 0)
    ensures forall i :: r <= i < left ==> Open(vs, visited, Pt(i, y))
    ensures r <= 0 || !Open(vs, visited, Pt(r - 1, y))
  {
    if left > 0 && Open(vs, visited, Pt(left - 1, y)) then ExtendLeft(vs, visited, y, left - 1) else left
  }

  /** The second `while`: moves `right` up while the pixel to its right is open,
      stopping at 599. */
  function ExtendRight(vs: seq<Pt>, visited: set<Pt>, y: int, right: int): (r: int)
    requires |vs| > 0
    decreases MaxX - right
    ensures r >= right && (right <= MaxX ==> r <= MaxX)
    ensures forall i :: right < i <= r ==> Open(vs, visited, Pt(i, y))
    ensures r >= MaxX || !Open(vs, visited, Pt(r + 1, y))
  {
    if right < MaxX && Open(vs, visited, Pt(right + 1, y)) then ExtendRight(vs, visited, y, right + 1) else right
  }

  /** The seed search under or over a span: the first open pixel of row `row`
      between `left` and `right`, if any (the loop breaks after one push). */
  function FirstOpen(vs: seq<Pt>, visited: set<Pt>, row: int, left: int, right: int): (r: Option<Pt>)
    requires |vs| > 0
    decreases right - left + 1
    ensures r.Some? ==> var p := r.value;
              && p.y == row && left <= p.x <= right && Open(vs, visited, p)
              && forall i :: left <= i < p.x ==> !Open(vs, visited, Pt(i, row))
    ensures r.None? ==> forall i :: left <= i <= right ==> !Open(vs, visited, Pt(i, row))
    ensures r.Some? <==> RowHasOpen(vs, visited, row, left, right)
  {
    if left > right then None
    else if Open(vs, visited, Pt(left, row)) then Some(Pt(left, row))
    else FirstOpen(vs, visited, row, left + 1, right)
  }

  /** A painted row segment. */
  datatype Span = Span(y: int, left: int, right: int)

  function SpanPixels(s: Span): set<Pt>
  {
    set i | s.left <= i <= s.right :: Pt(i, s.y)
  }

  /** Every pixel of the span is inside the polygon and visited. */
  predicate SpanFilled(vs: seq<Pt>, visited: set<Pt>, s: Span)
    requires |vs| > 0
  {
    s.left <= s.right && forall i :: s.left <= i <= s.right ==> PointInsidePolygon(Pt(i, s.y), vs) && Pt(i, s.y) in visited
  }

  predicate SpanOnCanvas(s: Span)
  {
    0 <= s.left && s.right <= MaxX && 0 <= s.y <= MaxY
  }

  /** Row `row` has an open pixel between `left` and `right`. */
  predicate RowHasOpen(vs: seq<Pt>, visited: set<Pt>, row: int, left: int, right: int)
    requires |vs| > 0
  {
    exists i :: left <= i <= right && Open(vs, visited, Pt(i, row))
  }

  /** The seeds a span pushes: at most one in the row above (only when `y > 0`) and
      one in the row below (only when `y < 399`), each open and under the span. */
  function SpanSeeds(vs: seq<Pt>, visited: set<Pt>, s: Span): (r: seq<Pt>)
    requires |vs| > 0
    ensures |r| <= 2
    ensures forall k :: 0 <= k < |r| ==> s.left <= r[k].x <= s.right && Open(vs, visited, r[k])
                                         && ((r[k].y == s.y - 1 && s.y > 0) || (r[k].y == s.y + 1 && s.y < MaxY))
    ensures forall k, m :: 0 <= k < m < |r| ==> r[k].y < r[m].y
    ensures forall k, i :: 0 <= k < |r| && s.left <= i < r[k].x ==> !Open(vs, visited, Pt(i, r[k].y))
    ensures s.y > 0 && RowHasOpen(vs, visited, s.y - 1, s.left, s.right) <==>
            exists k :: 0 <= k < |r| && r[k].y == s.y - 1
    ensures s.y < MaxY && RowHasOpen(vs, visited, s.y + 1, s.left, s.right) <==>
            exists k :: 0 <= k < |r| && r[k].y == s.y + 1
  {
    var above := if s.y > 0 then FirstOpen(vs, visited, s.y - 1, s.left, s.right) else None;
    var below := if s.y < MaxY then FirstOpen(vs, visited, s.y + 1, s.left, s.right) else None;
    match (above, below)
    case (None, None) => []
    case (Some(p), None) => assert [p][0] == p; [p]
    case (None, Some(q)) => assert [q][0] == q; [q]
    case (Some(p), Some(q)) => assert [p, q][0] == p && [p, q][1] == q; [p, q]
  }

  /** `scanline_flood_fill(x, y)` for at most `fuel` pops of its stack. Returns the
      painted spans in painting order and the visited set. */
  method ScanlineFloodFill(vs: seq<Pt>, seed: Pt, fuel: nat) returns (spans: seq<Span>, visited: set<Pt>)
    requires |vs| > 0
    ensures !PointInsidePolygon(seed, vs) ==> spans == []
    ensures forall k :: 0 <= k < |spans| ==> SpanFilled(vs, visited, spans[k])
    ensures OnCanvas(seed) ==> forall k :: 0 <= k < |spans| ==> SpanOnCanvas(spans[k])
    ensures forall k, m :: 0 <= k < m < |spans| ==> SpanPixels(spans[k]) !! SpanPixels(spans[m])
    ensures PointInsidePolygon(seed, vs) && fuel > 0 ==>
              |spans| > 0 && spans[0].y == seed.y && spans[0].left <= seed.x <= spans[0].right
  {
    spans, visited := [], {};
    if !PointInsidePolygon(seed, vs) {
      return;
    }
    var stack := [seed];
    var steps := 0;
    while stack != [] && steps < fuel
      invariant SpansPainted(vs, visited, spans)
      invariant OnCanvas(seed) ==> forall k :: 0 <= k < |spans| ==> SpanOnCanvas(spans[k])
      invariant OnCanvas(seed) ==> AllOnCanvas(stack)
      invariant steps == 0 ==> stack == [seed] && visited == {} && spans == []
      invariant steps > 0 ==> |spans| > 0 && spans[0].y == seed.y && spans[0].left <= seed.x <= spans[0].right
      decreases fuel - steps
    {
      var p := stack[|stack| - 1];
      if OnCanvas(seed) {
        CanvasPop(stack);
      }
      stack := stack[..|stack| - 1];
      steps := steps + 1;
      if p in visited || !PointInsidePolygon(p, vs) {
        continue;
      }
      var before := visited;
      visited := visited + {p};
      var left := ExtendLeft(vs, visited, p.y, p.x);
      var right := ExtendRight(vs, visited, p.y, p.x);
      var s := Span(p.y, left, right);
      SpanFresh(vs, before, p, left, right);
      SpanAppend(vs, before, visited + SpanPixels(s), spans, s);
      visited := visited + SpanPixels(s);
      spans := spans + [s];
      if OnCanvas(seed) {
        SeedsOnCanvas(vs, visited, s);
        CanvasPush(stack, SpanSeeds(vs, visited, s));
      }
      stack := stack + SpanSeeds(vs, visited, s);
    }
  }

  /** The span grown around a fresh inside pixel covers only inside pixels that
      were not visited before it. */
  lemma SpanFresh(vs: seq<Pt>, before: set<Pt>, p: Pt, left: int, right: int)
    requires |vs| > 0
    requires PointInsidePolygon(p, vs) && p !in before
    requires left == ExtendLeft(vs, before + {p}, p.y, p.x)
    requires right == ExtendRight(vs, before + {p}, p.y, p.x)
    ensures forall i :: left <= i <= right ==> PointInsidePolygon(Pt(i, p.y), vs) && Pt(i, p.y) !in before
  {
    forall i | left <= i <= right
      ensures PointInsidePolygon(Pt(i, p.y), vs) && Pt(i, p.y) !in before
    {
      if i != p.x {
        assert Open(vs, before + {p}, Pt(i, p.y));
      }
    }
  }

  predicate AllOnCanvas(ps: seq<Pt>)
  {
    forall i :: 0 <= i < |ps| ==> OnCanvas(ps[i])
  }

  lemma CanvasPop(ps: seq<Pt>)
    requires |ps| > 0 && AllOnCanvas(ps)
    ensures OnCanvas(ps[|ps| - 1]) && AllOnCanvas(ps[..|ps| - 1])
  {
  }

  lemma CanvasPush(ps: seq<Pt>, qs: seq<Pt>)
    requires AllOnCanvas(ps) && AllOnCanvas(qs)
    ensures AllOnCanvas(ps + qs)
  {
    forall i | 0 <= i < |ps + qs|
      ensures OnCanvas((ps + qs)[i])
    {
      if i >= |ps| {
        assert (ps + qs)[i] == qs[i - |ps|];
      }
    }
  }

  /** The seeds pushed under and over a span on the canvas are on the canvas. */
  lemma SeedsOnCanvas(vs: seq<Pt>, visited: set<Pt>, s: Span)
    requires |vs| > 0
    requires SpanOnCanvas(s)
    ensures AllOnCanvas(SpanSeeds(vs, visited, s))
  {
  }

  /** The painted spans are filled, visited and pairwise disjoint. */
  predicate SpansPainted(vs: seq<Pt>, visited: set<Pt>, spans: seq<Span>)
    requires |vs| > 0
  {
    && (forall k :: 0 <= k < |spans| ==> SpanFilled(vs, visited, spans[k]))
    && (forall k :: 0 <= k < |spans| ==> SpanPixels(spans[k]) <= visited)
    && (forall k, m :: 0 <= k < m < |spans| ==> SpanPixels(spans[k]) !! SpanPixels(spans[m]))
  }

  /** A span of inside pixels none of which were visited before can be appended:
      once its pixels are visited too, the spans are still painted. */
  lemma SpanAppend(vs: seq<Pt>, before: set<Pt>, after: set<Pt>, spans: seq<Span>, s: Span)
    requires |vs| > 0
    requires SpansPainted(vs, before, spans)
    requires before + SpanPixels(s) <= after
    requires s.left <= s.right
    requires forall i :: s.left <= i <= s.right ==> PointInsidePolygon(Pt(i, s.y), vs) && Pt(i, s.y) !in before
    ensures SpansPainted(vs, after, spans + [s])
  {
    var ss := spans + [s];
    forall k | 0 <= k < |spans|
      ensures SpanPixels(spans[k]) !! SpanPixels(s)
    {
      forall q | q in SpanPixels(s)
        ensures q !in SpanPixels(spans[k])
      {
        assert q !in before;
      }
    }
    forall k | 0 <= k < |ss|
      ensures SpanFilled(vs, after, ss[k]) && SpanPixels(ss[k]) <= after
    {
      if k < |spans| {
        assert ss[k] == spans[k];
      } else {
        forall i | s.left <= i <= s.right
          ensures Pt(i, s.y) in after
        {
          assert Pt(i, s.y) in SpanPixels(s);
        }
      }
    }
    forall k, m | 0 <= k < m < |ss|
      ensures SpanPixels(ss[k]) !! SpanPixels(ss[m])
    {
      if m < |spans| {
        assert ss[k] == spans[k] && ss[m] == spans[m];
      }
    }
  }
}
