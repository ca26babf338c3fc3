/** The scanline polygon fill of lab 6: the edge table built from the vertex list,
    the sweep that activates, prunes, sorts and pairs edges row by row, and the spans
    it draws. `scanline_fill_ordered` and `scanline_fill_active` have the same body
    and are both this sweep. */
module Scanline {
  import opened Geometry

  /** An edge record `{y_min, y_max, x, inv_slope}`. */
  datatype Edge = Edge(yMin: int, yMax: int, x: real, invSlope: real)

  /** The edge record of the polygon side from `a` to `b`: none for a horizontal
      side, otherwise taken from its lower end upward. */
  function EdgeOf(a: Pt, b: Pt): (r: Option<Edge>)
    ensures r.None? <==> a.y == b.y
    ensures r.Some? ==> var e := r.value;
              && e.yMin == Min(a.y, b.y) && e.yMax == Max(a.y, b.y) && e.yMin < e.yMax
              && e.x == (if a.y < b.y then a.x else b.x) as real
              && e.invSlope * (e.yMax - e.yMin) as real == (if a.y < b.y then b.x - a.x else a.x - b.x) as real
  {
    if a.y == b.y then None
    else
      var lo, hi := if a.y > b.y then b else a, if a.y > b.y then a else b;
      Some(Edge(lo.y, hi.y, lo.x as real, (hi.x - lo.x) as real / (hi.y - lo.y) as real))
  }

  /** The edge records of the sides `(vs[i], vs[(i + 1) % n])` from `i` on. */
  function SidesFrom(vs: seq<Pt>, i: nat): (r: seq<Edge>)
    requires i <= |vs|
    decreases |vs| - i
    ensures |r| <= |vs| - i
    ensures forall k :: 0 <= k < |r| ==> r[k].yMin < r[k].yMax
  {
    if i == |vs| then []
    else
      var rest := SidesFrom(vs, i + 1);
      match EdgeOf(vs[i], vs[(i + 1) % |vs|])
      case None => rest
      case Some(e) => [e] + rest
  }

  // ------------------------------------------------------------ stable sort

  /** The two sort keys of the sweep: `y_min` for the edge table, `x` for the
      active list. */
  datatype SortKey = ByYMin | ByX

  function Key(e: Edge, k: SortKey): real
  {
    if k == ByYMin then e.yMin as real else e.x
  }

  predicate SortedBy(s: seq<Edge>, k: SortKey)
  {
    forall i, j :: 0 <= i < j < |s| ==> Key(s[i], k) <= Key(s[j], k)
  }

  /** Inserts `e` after every element whose key is not greater, so equal keys keep
      their order. */
  function Insert(e: Edge, s: seq<Edge>, k: SortKey): (r: seq<Edge>)
    requires SortedBy(s, k)
    ensures SortedBy(r, k)
    ensures multiset(r) == multiset(s) + multiset{e} && |r| == |s| + 1
  {
    if s == [] then [e]
    else if Key(e, k) < Key(s[0], k) then
      SortedCons(e, s, k);
      [e] + s
    else
      SortedTail(s, k);
      var tail := Insert(e, s[1..], k);
      assert s == [s[0]] + s[1..];
      KeysAtLeast(tail, s[1..], e, k, Key(s[0], k));
      SortedCons(s[0], tail, k);
      assert multiset([s[0]] + tail) == multiset{s[0]} + multiset(tail);
      [s[0]] + tail
  }

  /** Dropping the head of a sorted sequence leaves it sorted, and every key left
      is at least the head's. */
  lemma SortedTail(s: seq<Edge>, k: SortKey)
    requires SortedBy(s, k) && s != []
    ensures SortedBy(s[1..], k)
    ensures forall i :: 0 <= i < |s[1..]| ==> Key(s[0], k) <= Key(s[1..][i], k)
  {
    forall i, j | 0 <= i < j < |s[1..]|
      ensures Key(s[1..][i], k) <= Key(s[1..][j], k)
    {
      assert s[1..][i] == s[i + 1] && s[1..][j] == s[j + 1];
    }
    forall i | 0 <= i < |s[1..]|
      ensures Key(s[0], k) <= Key(s[1..][i], k)
    {
      assert s[1..][i] == s[i + 1];
    }
  }

  /** A sorted sequence stays sorted with an element in front whose key is no
      greater than the first. */
  lemma SortedCons(x: Edge, t: seq<Edge>, k: SortKey)
    requires SortedBy(t, k)
    requires t != [] ==> Key(x, k) <= Key(t[0], k)
    ensures SortedBy([x] + t, k)
  {
    var r := [x] + t;
    forall i, j | 0 <= i < j < |r|
      ensures Key(r[i], k) <= Key(r[j], k)
    {
      if i == 0 && j > 1 {
        assert Key(t[0], k) <= Key(t[j - 1], k);
      }
    }
  }

  /** Adding `e` to the elements of `b` keeps every key at least `lo`. */
  lemma KeysAtLeast(a: seq<Edge>, b: seq<Edge>, e: Edge, k: SortKey, lo: real)
    requires multiset(a) == multiset(b) + multiset{e}
    requires lo <= Key(e, k) && forall i :: 0 <= i < |b| ==> lo <= Key(b[i], k)
    ensures forall i :: 0 <= i < |a| ==> lo <= Key(a[i], k)
  {
    forall i | 0 <= i < |a|
      ensures lo <= Key(a[i], k)
    {
      assert a[i] in multiset(a);
      if a[i] != e {
        assert a[i] in multiset(b);
        var j :| 0 <= j < |b| && b[j] == a[i];
      }
    }
  }

  /** Python's `list.sort(key=...)`: a stable sort by the key. */
  function SortBy(s: seq<Edge>, k: SortKey): (r: seq<Edge>)
    ensures SortedBy(r, k)
    ensures multiset(r) == multiset(s) && |r| == |s|
  {
    if s == [] then []
    else
      assert s == s[..|s| - 1] + [s[|s| - 1]];
      Insert(s[|s| - 1], SortBy(s[..|s| - 1], k), k)
  }

  /** `get_edges()`: one record per non-horizontal side, sorted by `y_min`. */
  function GetEdges(vs: seq<Pt>): (r: seq<Edge>)
    ensures SortedBy(r, ByYMin)
    ensures multiset(r) == multiset(SidesFrom(vs, 0))
    ensures |r| <= |vs|
  {
    SortBy(SidesFrom(vs, 0), ByYMin)
  }

  /** Every edge record has `y_min < y_max`. */
  lemma GetEdgesProper(vs: seq<Pt>)
    ensures forall k :: 0 <= k < |GetEdges(vs)| ==> GetEdges(vs)[k].yMin < GetEdges(vs)[k].yMax
  {
    var r, raw := GetEdges(vs), SidesFrom(vs, 0);
    forall k | 0 <= k < |r|
      ensures r[k].yMin < r[k].yMax
    {
      assert r[k] in multiset(raw);
    }
  }

  // ------------------------------------------------------------------ sweep

  /** The state of `fill_step` between rows: the current `y`, the edges not yet
      activated and the active edge list. */
  datatype Sweep = Sweep(y: int, pending: seq<Edge>, active: seq<Edge>)

  /** `[e for e in es if e["y_min"] == y]`, or its complement when `starting` is
      false. */
  function StartingAt(es: seq<Edge>, y: int, starting: bool): (r: seq<Edge>)
    ensures forall e :: e in r <==> e in es && (e.yMin == y) == starting
    ensures |r| <= |es|
  {
    if es == [] then []
    else
      var rest := StartingAt(es[1..], y, starting);
      assert es == [es[0]] + es[1..];
      if (es[0].yMin == y) == starting then [es[0]] + rest else rest
  }

  /** `[e for e in active if e["y_max"] > y]`. */
  function AliveAt(es: seq<Edge>, y: int): (r: seq<Edge>)
    ensures forall e :: e in r <==> e in es && e.yMax > y
  {
    if es == [] then []
    else
      var rest := AliveAt(es[1..], y);
      assert es == [es[0]] + es[1..];
      if es[0].yMax > y then [es[0]] + rest else rest
  }

  /** The first three statements of `fill_step`. */
  function Activate(s: Sweep): (r: Sweep)
    ensures r.y == s.y
    ensures forall e :: e in r.pending <==> e in s.pending && e.yMin != s.y
    ensures forall e :: e in r.active <==> (e in s.active || (e in s.pending && e.yMin == s.y)) && e.yMax > s.y
  {
    var active := s.active + StartingAt(s.pending, s.y, true);
    Sweep(s.y, StartingAt(s.pending, s.y, false), AliveAt(active, s.y))
  }

  /** The active edges have started by row `y`, and the pending ones have not. */
  predicate Ordered(s: Sweep)
  {
    (forall e :: e in s.active ==> e.yMin <= s.y) && (forall e :: e in s.pending ==> e.yMin >= s.y)
  }

  /** After activation and pruning every active edge spans row `y`. */
  lemma ActivateSpansRow(s: Sweep)
    requires Ordered(s)
    ensures forall e :: e in Activate(s).active ==> e.yMin <= s.y < e.yMax
    ensures forall e :: e in Activate(s).pending ==> e.yMin > s.y
  {
  }

  /** A drawn span `create_line(x1, y, x2, y)`. */
  datatype Span = Span(y: int, x1: int, x2: int)

  /** The spans of one row: the x-sorted active edges paired `(0, 1), (2, 3), ...`,
      a trailing odd edge left unpaired. */
  function PairSpans(y: int, es: seq<Edge>): (r: seq<Span>)
    decreases |es|
    ensures |r| == |es| / 2
    ensures forall k :: 0 <= k < |r| ==> r[k] == Span(y, Trunc(es[2 * k].x), Trunc(es[2 * k + 1].x))
  {
    if |es| < 2 then []
    else
      var rest := PairSpans(y, es[2..]);
      var r := [Span(y, Trunc(es[0].x), Trunc(es[1].x))] + rest;
      assert |es[2..]| == |es| - 2;
      assert forall k :: 0 <= k < |r| ==> r[k] == Span(y, Trunc(es[2 * k].x), Trunc(es[2 * k + 1].x)) by {
        forall k | 1 <= k < |r|
          ensures r[k] == Span(y, Trunc(es[2 * k].x), Trunc(es[2 * k + 1].x))
        {
          assert r[k] == rest[k - 1];
          assert es[2 * k] == es[2..][2 * (k - 1)];
          assert es[2 * k + 1] == es[2..][2 * (k - 1) + 1];
        }
      }
      r
  }

  /** On an x-sorted row every span runs left to right. */
  lemma PairSpansOrdered(y: int, es: seq<Edge>)
    requires SortedBy(es, ByX)
    ensures forall k :: 0 <= k < |PairSpans(y, es)| ==> PairSpans(y, es)[k].x1 <= PairSpans(y, es)[k].x2
  {
    var r := PairSpans(y, es);
    forall k | 0 <= k < |r|
      ensures r[k].x1 <= r[k].x2
    {
      assert Key(es[2 * k], ByX) <= Key(es[2 * k + 1], ByX);
      TruncMonotone(es[2 * k].x, es[2 * k + 1].x);
    }
  }

  /** `edge["x"] += edge["inv_slope"]` for every active edge. */
  function Advance(es: seq<Edge>): (r: seq<Edge>)
    ensures |r| == |es|
    ensures forall i :: 0 <= i < |es| ==> r[i] == es[i].(x := es[i].x + es[i].invSlope)
  {
    if es == [] then [] else [es[0].(x := es[0].x + es[0].invSlope)] + Advance(es[1..])
  }

  /** One row of the sweep. */
  datatype Row = Row(y: int, spans: seq<Span>)

  /** One call of `fill_step`: nothing once the pruned active list is empty,
      otherwise the row's spans and the state for row `y + 1`. */
  function FillStep(s: Sweep): (r: Option<(Row, Sweep)>)
    ensures r.None? <==> Activate(s).active == []
    ensures r.Some? ==> r.value.0.y == s.y && r.value.1 == NextSweep(s) && r.value.1.y == s.y + 1
    ensures r.Some? ==> r.value.1.pending == Activate(s).pending && |r.value.1.active| == |Activate(s).active|
    ensures r.Some? ==> |r.value.0.spans| == |Activate(s).active| / 2
    ensures r.Some? ==> forall k :: 0 <= k < |r.value.0.spans| ==>
                          r.value.0.spans[k].y == s.y && r.value.0.spans[k].x1 <= r.value.0.spans[k].x2
  {
    var t := Activate(s);
    if t.active == [] then None
    else
      var sorted := SortBy(t.active, ByX);
      PairSpansOrdered(s.y, sorted);
      Some((Row(s.y, PairSpans(s.y, sorted)), NextSweep(s)))
  }

  /** The state `fill_step` hands to the next row: the remaining pending edges and
      the x-sorted active edges, each advanced by its inverse slope. */
  function NextSweep(s: Sweep): Sweep
  {
    var t := Activate(s);
    Sweep(s.y + 1, t.pending, Advance(SortBy(t.active, ByX)))
  }

  /** The largest `y_max` of `es`, and at least `floor`. */
  function Top(es: seq<Edge>, floor: int): (h: int)
    ensures h >= floor
    ensures forall i :: 0 <= i < |es| ==> es[i].yMax <= h
  {
    if es == [] then floor else Max(es[0].yMax, Top(es[1..], floor))
  }

  lemma {:induction false} TopLeast(es: seq<Edge>, floor: int, h: int)
    requires floor <= h && forall i :: 0 <= i < |es| ==> es[i].yMax <= h
    ensures Top(es, floor) <= h
    decreases |es|
  {
    if es != [] {
      TopLeast(es[1..], floor, h);
    }
  }

  /** The sweep is bounded by the highest `y_max` still to be handled. */
  function Remaining(s: Sweep): int
  {
    Top(s.pending + s.active, s.y) - s.y
  }

  /** The edges a step hands on are edges it was given, with only `x` changed. */
  lemma StepKeepsEdges(s: Sweep)
    requires Activate(s).active != []
    ensures forall i :: 0 <= i < |NextSweep(s).pending| ==> NextSweep(s).pending[i] in s.pending
    ensures forall i :: 0 <= i < |NextSweep(s).active| ==>
              exists e :: (e in s.pending || e in s.active) && NextSweep(s).active[i].yMax == e.yMax
  {
    var t := Activate(s);
    var sorted := SortBy(t.active, ByX);
    var next := NextSweep(s);
    assert next.active == Advance(sorted);
    forall i | 0 <= i < |next.active|
      ensures exists e :: (e in s.pending || e in s.active) && next.active[i].yMax == e.yMax
    {
      assert sorted[i] in multiset(t.active);
      assert sorted[i] in t.active;
      assert next.active[i].yMax == sorted[i].yMax;
    }
  }

  /** A step lowers `Remaining`: the edges after the step are among the edges
      before it with their `x` advanced, and at least one of them lies above `y`. */
  lemma StepDecreases(s: Sweep)
    requires Activate(s).active != []
    ensures 0 <= Remaining(NextSweep(s)) < Remaining(s)
  {
    var next := NextSweep(s);
    var h := Top(s.pending + s.active, s.y);
    StepTopAbove(s);
    StepStaysBelow(s, h);
    TopLeast(next.pending + next.active, s.y + 1, h);
  }

  /** Before a step some edge still lies above row `y`: the first active one. */
  lemma StepTopAbove(s: Sweep)
    requires Activate(s).active != []
    ensures Top(s.pending + s.active, s.y) > s.y
  {
    var t := Activate(s);
    var before := s.pending + s.active;
    var e := t.active[0];
    assert e in t.active;
    assert e in before;
    var i :| 0 <= i < |before| && before[i] == e;
  }

  /** No edge after a step reaches higher than the edges before it. */
  lemma StepStaysBelow(s: Sweep, h: int)
    requires Activate(s).active != []
    requires forall i :: 0 <= i < |s.pending + s.active| ==> (s.pending + s.active)[i].yMax <= h
    ensures var next := NextSweep(s);
            forall i :: 0 <= i < |next.pending + next.active| ==> (next.pending + next.active)[i].yMax <= h
  {
    var next := NextSweep(s);
    var before := s.pending + s.active;
    StepKeepsEdges(s);
    var after := next.pending + next.active;
    forall i | 0 <= i < |after|
      ensures after[i].yMax <= h
    {
      if i < |next.pending| {
        assert after[i] == next.pending[i];
        assert after[i] in before;
      } else {
        assert after[i] == next.active[i - |next.pending|];
        var f :| (f in s.pending || f in s.active) && after[i].yMax == f.yMax;
        assert f in before;
      }
    }
  }

  /** `fill_step` repeated until it returns: one row per call, on consecutive `y`. */
  function FillFrom(s: Sweep): (rows: seq<Row>)
    decreases Remaining(s)
    ensures rows == [] <==> Activate(s).active == []
  {
    var r := FillStep(s);
    if r.None? then []
    else
      StepDecreases(s);
      [r.value.0] + FillFrom(r.value.1)
  }

  /** The sweep visits consecutive rows from its starting `y`. */
  lemma {:induction false} FillFromRows(s: Sweep)
    ensures forall k :: 0 <= k < |FillFrom(s)| ==> FillFrom(s)[k].y == s.y + k
    decreases Remaining(s)
  {
    var r := FillStep(s);
    if r.Some? {
      var next := r.value.1;
      StepDecreases(s);
      FillFromRows(next);
      var rows, tail := FillFrom(s), FillFrom(next);
      assert rows == [r.value.0] + tail;
      assert next.y == s.y + 1 && rows[0].y == s.y;
      forall k | 1 <= k < |rows|
        ensures rows[k].y == s.y + k
      {
        assert rows[k] == tail[k - 1];
        assert tail[k - 1].y == next.y + (k - 1);
      }
    }
  }

  /** Every span the sweep draws lies on its row and runs left to right. */
  lemma {:induction false} FillFromSpans(s: Sweep)
    ensures forall k, j :: 0 <= k < |FillFrom(s)| && 0 <= j < |FillFrom(s)[k].spans| ==>
              FillFrom(s)[k].spans[j].y == FillFrom(s)[k].y && FillFrom(s)[k].spans[j].x1 <= FillFrom(s)[k].spans[j].x2
    decreases Remaining(s)
  {
    var r := FillStep(s);
    if r.Some? {
      StepDecreases(s);
      FillFromSpans(r.value.1);
      var rows := FillFrom(s);
      assert rows == [r.value.0] + FillFrom(r.value.1);
      forall k, j | 0 <= k < |rows| && 0 <= j < |rows[k].spans|
        ensures rows[k].spans[j].y == rows[k].y && rows[k].spans[j].x1 <= rows[k].spans[j].x2
      {
        if k > 0 {
          assert rows[k] == FillFrom(r.value.1)[k - 1];
        }
      }
    }
  }

  /** `scanline_fill_ordered(edges)` and `scanline_fill_active(edges)`: nothing for no
      edges, otherwise the sweep from the smallest `y_min`. */
  function ScanlineFill(edges: seq<Edge>): (rows: seq<Row>)
    ensures edges == [] ==> rows == []
    ensures forall k :: 0 <= k < |rows| ==> rows[k].y == edges[0].yMin + k
  {
    if edges == [] then []
    else
      FillFromRows(Sweep(edges[0].yMin, edges, []));
      FillFrom(Sweep(edges[0].yMin, edges, []))
  }

  /** The sweep starts in order: with the table sorted by `y_min`, no edge starts
      below the first row. */
  lemma SweepStartsOrdered(edges: seq<Edge>)
    requires edges != [] && SortedBy(edges, ByYMin)
    ensures Ordered(Sweep(edges[0].yMin, edges, []))
  {
    forall e | e in edges
      ensures e.yMin >= edges[0].yMin
    {
      var i :| 0 <= i < |edges| && edges[i] == e;
      if i > 0 {
        assert Key(edges[0], ByYMin) <= Key(edges[i], ByYMin);
      }
    }
  }

  /** A step keeps the sweep ordered for the next row. */
  lemma StepOrdered(s: Sweep)
    requires Ordered(s) && Activate(s).active != []
    ensures Ordered(NextSweep(s))
  {
    ActivateSpansRow(s);
    var t := Activate(s);
    var next := NextSweep(s);
    var sorted := SortBy(t.active, ByX);
    forall e | e in next.active
      ensures e.yMin <= next.y
    {
      var i :| 0 <= i < |next.active| && next.active[i] == e;
      assert sorted[i] in multiset(t.active);
    }
  }

  // --------------------------------------------------------- the square

  const Square: seq<Pt> := [Pt(0, 0), Pt(10, 0), Pt(10, 10), Pt(0, 10)]
  const Right: Edge := Edge(0, 10, 10.0, 0.0)
  const Left: Edge := Edge(0, 10, 0.0, 0.0)

  /** The square's edge table: its two vertical sides, in side order. */
  lemma SquareEdges()
    ensures GetEdges(Square) == [Right, Left]
  {
    assert EdgeOf(Square[3], Square[0]) == Some(Left);
    assert SidesFrom(Square, 3) == [Left];
    assert SidesFrom(Square, 1) == [Right, Left];
    assert SidesFrom(Square, 0) == [Right, Left];
    assert SortBy([Right], ByYMin) == [Right];
  }

  /** The rows the square's sweep draws from row `y` on: one span `(y, 0, 10)` per
      row up to row 9. */
  function SquareRows(y: int): seq<Row>
    decreases 10 - y
  {
    if y >= 10 then [] else [Row(y, [Span(y, 0, 10)])] + SquareRows(y + 1)
  }

  lemma SquareStep(y: int)
    requires 0 <= y
    ensures y < 10 ==> FillStep(Sweep(y, [], [Left, Right])) == Some((Row(y, [Span(y, 0, 10)]), Sweep(y + 1, [], [Left, Right])))
    ensures y >= 10 ==> FillStep(Sweep(y, [], [Left, Right])) == None
  {
    var s := Sweep(y, [], [Left, Right]);
    assert StartingAt([], y, true) == [] && StartingAt([], y, false) == [];
    assert s.active + [] == [Left, Right];
    assert [Left, Right][1..] == [Right];
    if y < 10 {
      assert AliveAt([Right], y) == [Right];
      assert AliveAt([Left, Right], y) == [Left, Right];
      assert Activate(s) == s;
      assert SortBy([Left], ByX) == [Left];
      assert SortBy([Left, Right], ByX) == [Left, Right];
      SquareRow(y);
    } else {
      assert AliveAt([Right], y) == [];
      assert AliveAt([Left, Right], y) == [];
      assert Activate(s).active == [];
    }
  }

  lemma {:induction false} SquareFrom(y: int)
    requires 1 <= y <= 10
    ensures FillFrom(Sweep(y, [], [Left, Right])) == SquareRows(y)
    decreases 10 - y
  {
    SquareStep(y);
    if y < 10 {
      SquareFrom(y + 1);
    }
  }

  /** At row 0 both sides of the square become active, in table order. */
  lemma SquareActivate()
    ensures Activate(Sweep(0, [Right, Left], [])) == Sweep(0, [], [Right, Left])
  {
    assert [Right, Left][1..] == [Left];
    assert StartingAt([Left], 0, true) == [Left];
    assert StartingAt([Right, Left], 0, true) == [Right, Left];
    assert StartingAt([Left], 0, false) == [];
    assert StartingAt([Right, Left], 0, false) == [];
    assert [] + [Right, Left] == [Right, Left];
    assert AliveAt([Left], 0) == [Left];
    assert AliveAt([Right, Left], 0) == [Right, Left];
  }

  /** Sorting by `x` puts the left side first. */
  lemma SquareSortByX()
    ensures SortBy([Right, Left], ByX) == [Left, Right]
  {
    assert [Right, Left][..1] == [Right];
    assert SortBy([Right], ByX) == [Right];
    assert [Right][1..] == [];
  }

  /** The square's row: one span from `x = 0` to `x = 10`, and vertical sides do
      not move. */
  lemma SquareRow(y: int)
    ensures PairSpans(y, [Left, Right]) == [Span(y, 0, 10)]
    ensures Advance([Left, Right]) == [Left, Right]
  {
    assert [Left, Right][1..] == [Right];
    assert Trunc(0.0) == 0 && Trunc(10.0) == 10;
    assert [Left, Right][2..] == [];
  }

  /** The first row of the square: both sides start at `y = 0` and are sorted by
      `x`, the left side first. */
  lemma SquareFirstStep()
    ensures FillStep(Sweep(0, [Right, Left], [])) == Some((Row(0, [Span(0, 0, 10)]), Sweep(1, [], [Left, Right])))
  {
    SquareActivate();
    SquareSortByX();
    SquareRow(0);
  }

  /** The whole sweep of the square from row 0. */
  lemma SquareFromStart()
    ensures FillFrom(Sweep(0, [Right, Left], [])) == SquareRows(0)
  {
    SquareFirstStep();
    SquareFrom(1);
    assert FillFrom(Sweep(0, [Right, Left], [])) == [Row(0, [Span(0, 0, 10)])] + FillFrom(Sweep(1, [], [Left, Right]));
  }

  /** The square `(0,0), (10,0), (10,10), (0,10)` fills rows 0 to 9 with the span
      from `x = 0` to `x = 10`, then stops. */
  lemma SquareFill()
    ensures ScanlineFill(GetEdges(Square)) == SquareRows(0)
  {
    SquareEdges();
    SquareFromStart();
  }
}
