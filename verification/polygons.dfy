/** The polygon predicates of lab 5 on integer click coordinates: the orientation
    sign, the ray-casting containment test, the convexity test and the
    segment/polygon intersection. */
module Polygons {
  import opened Geometry

  // ------------------------------------------------------------ orientation

  /** `orientation(p, q, r)`: the sign of `(q - p)` crossed with `(r - q)`, with the
      source's sign convention. */
  function Orientation(p: Pt, q: Pt, r: Pt): (o: int)
    ensures o == -1 || o == 0 || o == 1
  {
    var v := (q.y - p.y) * (r.x - q.x) - (q.x - p.x) * (r.y - q.y);
    if v == 0 then 0 else if v > 0 then 1 else -1
  }

  /** The usual cross product of `q - p` and `r - p`: twice the signed area of the
      triangle `p q r`, zero exactly when the three points are collinear. */
  function Cross(p: Pt, q: Pt, r: Pt): int
  {
    (q.x - p.x) * (r.y - p.y) - (q.y - p.y) * (r.x - p.x)
  }

  /** `orientation` is minus the sign of the signed area: `-1` for a
      counter-clockwise turn in a y-up frame, `0` exactly for collinear points. */
  lemma OrientationIsAreaSign(p: Pt, q: Pt, r: Pt)
    ensures Orientation(p, q, r) == (if Cross(p, q, r) > 0 then -1 else if Cross(p, q, r) < 0 then 1 else 0)
    ensures Orientation(p, q, r) == 0 <==> Cross(p, q, r) == 0
  {
    var a, b, c, d := q.x - p.x, q.y - p.y, r.x - q.x, r.y - q.y;
    assert r.x - p.x == c + a && r.y - p.y == d + b;
    assert Cross(p, q, r) == a * (d + b) - b * (c + a);
    assert a * (d + b) - b * (c + a) == a * d - b * c;
  }

  /** Reversing the three points flips the orientation; rotating them keeps it. */
  lemma OrientationSymmetries(p: Pt, q: Pt, r: Pt)
    ensures Orientation(r, q, p) == -Orientation(p, q, r)
    ensures Orientation(q, r, p) == Orientation(p, q, r)
  {
    OrientationIsAreaSign(p, q, r);
    OrientationIsAreaSign(r, q, p);
    OrientationIsAreaSign(q, r, p);
    var a, b, c, d := q.x - p.x, q.y - p.y, r.x - p.x, r.y - p.y;
    assert Cross(r, q, p) == (q.x - r.x) * (p.y - r.y) - (q.y - r.y) * (p.x - r.x);
    assert (q.x - r.x) * (p.y - r.y) - (q.y - r.y) * (p.x - r.x) == (a - c) * (-d) - (b - d) * (-c);
    assert (a - c) * (-d) - (b - d) * (-c) == -(a * d - b * c);
    assert Cross(q, r, p) == (r.x - q.x) * (p.y - q.y) - (r.y - q.y) * (p.x - q.x);
    assert (r.x - q.x) * (p.y - q.y) - (r.y - q.y) * (p.x - q.x) == (c - a) * (-b) - (d - b) * (-a);
    assert (c - a) * (-b) - (d - b) * (-a) == a * d - b * c;
  }

  /** A point on the line through `p` and `q` at an integer multiple of `q - p` is
      collinear with them. */
  lemma OrientationOnLine(p: Pt, q: Pt, k: int)
    ensures Orientation(p, q, Pt(p.x + k * (q.x - p.x), p.y + k * (q.y - p.y))) == 0
  {
    var r := Pt(p.x + k * (q.x - p.x), p.y + k * (q.y - p.y));
    OrientationIsAreaSign(p, q, r);
    var a, b := q.x - p.x, q.y - p.y;
    assert Cross(p, q, r) == a * (k * b) - b * (k * a);
    assert a * (k * b) == k * (a * b) && b * (k * a) == k * (a * b);
  }

  // ---------------------------------------------------- ray-casting containment

  /** The `x` where the edge `(a, b)` meets the horizontal line at `y`; `a.x` for a
      horizontal edge. */
  function XIntersect(y: int, a: Pt, b: Pt): real
  {
    if a.y != b.y then ((y - a.y) * (b.x - a.x)) as real / (b.y - a.y) as real + a.x as real
    else a.x as real
  }

  /** The edge `(a, b)` flips `inside` for the point `pt` of `point_in_polygon`. */
  predicate EdgeToggles(pt: Pt, a: Pt, b: Pt)
  {
    Min(a.y, b.y) < pt.y <= Max(a.y, b.y) && pt.x <= Max(a.x, b.x) && pt.x as real <= XIntersect(pt.y, a, b)
  }

  /** The loop of `point_in_polygon` from the edge `(prev, rest[0])` on. */
  function Crossings(pt: Pt, prev: Pt, rest: seq<Pt>, inside: bool): bool
    decreases |rest|
  {
    if rest == [] then inside
    else Crossings(pt, rest[0], rest[1..], if EdgeToggles(pt, prev, rest[0]) then !inside else inside)
  }

  /** `point_in_polygon(point, polygon)`: the first edge closes the polygon from its
      last vertex. An empty polygon raises in the source. This is the ray-casting
      rule: a point is inside exactly when its ray crosses an odd number of edges. */
  function PointInPolygon(pt: Pt, poly: seq<Pt>): (r: bool)
    requires |poly| > 0
    ensures r <==> PolygonCrossings(pt, poly) % 2 == 1
  {
    CrossingsParity(pt, poly[|poly| - 1], poly, false);
    Crossings(pt, poly[|poly| - 1], poly, false)
  }

  /** The number of edges of the chain `prev, rest[0], rest[1], ...` the ray crosses. */
  function ToggleCount(pt: Pt, prev: Pt, rest: seq<Pt>): nat
    decreases |rest|
  {
    if rest == [] then 0
    else (if EdgeToggles(pt, prev, rest[0]) then 1 else 0) + ToggleCount(pt, rest[0], rest[1..])
  }

  lemma {:induction false} CrossingsParity(pt: Pt, prev: Pt, rest: seq<Pt>, inside: bool)
    ensures Crossings(pt, prev, rest, inside) == (inside != (ToggleCount(pt, prev, rest) % 2 == 1))
    decreases |rest|
  {
    if rest != [] {
      CrossingsParity(pt, rest[0], rest[1..], if EdgeToggles(pt, prev, rest[0]) then !inside else inside);
    }
  }

  /** The closed polygon's crossing count: every edge `(poly[i-1], poly[i])`, the
      closing one first. */
  function PolygonCrossings(pt: Pt, poly: seq<Pt>): nat
    requires |poly| > 0
  {
    ToggleCount(pt, poly[|poly| - 1], poly)
  }

  /** The ray of `pt` misses every edge between vertices all on one side of it: all
      at or above its row, all below it, or all left of it. */
  predicate Clear(pt: Pt, vs: seq<Pt>)
  {
    || (forall i :: 0 <= i < |vs| ==> pt.y <= vs[i].y)
    || (forall i :: 0 <= i < |vs| ==> vs[i].y < pt.y)
    || (forall i :: 0 <= i < |vs| ==> vs[i].x < pt.x)
  }

  lemma {:induction false} ClearNoToggles(pt: Pt, prev: Pt, rest: seq<Pt>)
    requires Clear(pt, [prev] + rest)
    ensures ToggleCount(pt, prev, rest) == 0
    decreases |rest|
  {
    if rest != [] {
      var vs := [prev] + rest;
      assert vs[0] == prev && vs[1] == rest[0];
      assert [rest[0]] + rest[1..] == vs[1..];
      assert !EdgeToggles(pt, prev, rest[0]);
      ClearNoToggles(pt, rest[0], rest[1..]);
    }
  }

  /** A point whose `y` is at most every vertex `y`, or above every vertex `y`, or
      whose `x` is beyond every vertex `x`, is outside. */
  lemma PointOutsideBox(pt: Pt, poly: seq<Pt>)
    requires |poly| > 0
    requires || (forall i :: 0 <= i < |poly| ==> pt.y <= poly[i].y)
             || (forall i :: 0 <= i < |poly| ==> poly[i].y < pt.y)
             || (forall i :: 0 <= i < |poly| ==> poly[i].x < pt.x)
    ensures !PointInPolygon(pt, poly)
  {
    var vs := [poly[|poly| - 1]] + poly;
    assert forall i :: 0 <= i < |vs| ==> vs[i] == poly[if i == 0 then |poly| - 1 else i - 1];
    ClearNoToggles(pt, poly[|poly| - 1], poly);
  }

  /** A horizontal or degenerate edge never toggles. */
  lemma FlatEdgeNeverToggles(pt: Pt, a: Pt, b: Pt)
    requires a.y == b.y
    ensures !EdgeToggles(pt, a, b)
  {
  }

  lemma {:induction false} ToggleCountSnoc(pt: Pt, prev: Pt, rest: seq<Pt>, last: Pt)
    ensures ToggleCount(pt, prev, rest + [last])
         == ToggleCount(pt, prev, rest) + (if EdgeToggles(pt, if rest == [] then prev else rest[|rest| - 1], last) then 1 else 0)
    decreases |rest|
  {
    if rest != [] {
      assert (rest + [last])[1..] == rest[1..] + [last];
      ToggleCountSnoc(pt, rest[0], rest[1..], last);
    }
  }

  /** Repeating the first vertex at the end adds only a degenerate edge: the result
      is unchanged. */
  lemma PointInPolygonClosed(pt: Pt, poly: seq<Pt>)
    requires |poly| > 0
    ensures PointInPolygon(pt, poly + [poly[0]]) == PointInPolygon(pt, poly)
  {
    var closed := poly + [poly[0]];
    assert closed[|closed| - 1] == poly[0];
    ToggleCountSnoc(pt, poly[0], poly, poly[0]);
    FlatEdgeNeverToggles(pt, poly[0], poly[0]);
    assert poly == [poly[0]] + poly[1..];
    assert ToggleCount(pt, poly[0], poly) == ToggleCount(pt, poly[0], poly[1..]);
    assert ToggleCount(pt, poly[|poly| - 1], poly)
        == (if EdgeToggles(pt, poly[|poly| - 1], poly[0]) then 1 else 0) + ToggleCount(pt, poly[0], poly[1..]);
  }

  // ------------------------------------------------------------- convexity

  /** The turn at vertex `i + 1`, wrapping around the polygon. */
  function TurnAt(poly: seq<Pt>, i: nat): int
    requires i < |poly|
  {
    Orientation(poly[i], poly[(i + 1) % |poly|], poly[(i + 2) % |poly|])
  }

  /** No two wrap-around turns point in opposite directions. */
  predicate NoOppositeTurns(poly: seq<Pt>)
  {
    forall i, j :: 0 <= i < |poly| && 0 <= j < |poly| ==> !(TurnAt(poly, i) == 1 && TurnAt(poly, j) == -1)
  }

  /** `is_convex(polygon)`: the first non-zero turn fixes the direction and any later
      non-zero turn against it answers false. */
  method IsConvex(poly: seq<Pt>) returns (convex: bool)
    ensures convex <==> |poly| >= 3 && NoOppositeTurns(poly)
  {
    if |poly| < 3 {
      return false;
    }
    var direction := 0;  // `None` until the first non-zero turn
    ghost var first := 0;
    for i := 0 to |poly|
      invariant direction == 0 ==> forall k :: 0 <= k < i ==> TurnAt(poly, k) == 0
      invariant direction != 0 ==> && (direction == 1 || direction == -1)
                                   && first < i && TurnAt(poly, first) == direction
                                   && forall k :: 0 <= k < i ==> TurnAt(poly, k) == 0 || TurnAt(poly, k) == direction
    {
      var turn := TurnAt(poly, i);
      if turn != 0 {
        if direction == 0 {
          direction := turn;
          first := i;
        } else if turn != direction {
          assert TurnAt(poly, i) == -direction;
          if direction == 1 {
            assert TurnAt(poly, first) == 1 && TurnAt(poly, i) == -1;
          } else {
            assert TurnAt(poly, i) == 1 && TurnAt(poly, first) == -1;
          }
          return false;
        }
      }
    }
    return true;
  }

  /** A polygon whose vertices all lie on one line has only zero turns and counts as
      convex. */
  lemma CollinearIsConvex(poly: seq<Pt>)
    requires forall i :: 0 <= i < |poly| ==> TurnAt(poly, i) == 0
    ensures NoOppositeTurns(poly)
  {
  }

  /** A concrete non-convex polygon: the dart `(0,0), (4,0), (2,1), (2,4)` turns both
      ways. */
  lemma DartNotConvex()
    ensures !NoOppositeTurns([Pt(0, 0), Pt(4, 0), Pt(2, 1), Pt(2, 4)])
  {
    var dart := [Pt(0, 0), Pt(4, 0), Pt(2, 1), Pt(2, 4)];
    DartTurns();
    assert TurnAt(dart, 0) == Orientation(dart[0], dart[1], dart[2]);
    assert TurnAt(dart, 1) == Orientation(dart[1], dart[2], dart[3]);
  }

  /** The dart's first two turns. */
  lemma DartTurns()
    ensures Orientation(Pt(0, 0), Pt(4, 0), Pt(2, 1)) == -1
    ensures Orientation(Pt(4, 0), Pt(2, 1), Pt(2, 4)) == 1
  {
  }

  // ------------------------------------------------------------ intersection

  /** The determinant `d` of `calculate_intersection` for the line `p1 p2` and the
      edge `a b`; zero for parallel lines. */
  function Det(p1: Pt, p2: Pt, a: Pt, b: Pt): int
  {
    (p1.x - p2.x) * (a.y - b.y) - (p1.y - p2.y) * (a.x - b.x)
  }

  function NumT(p1: Pt, p2: Pt, a: Pt, b: Pt): int
  {
    (p1.x - a.x) * (a.y - b.y) - (p1.y - a.y) * (a.x - b.x)
  }

  function NumU(p1: Pt, p2: Pt, a: Pt, b: Pt): int
  {
    (p1.x - a.x) * (p1.y - p2.y) - (p1.y - a.y) * (p1.x - p2.x)
  }

  /** The point `a + t (b - a)`. */
  function Lerp(a: Pt, b: Pt, t: real): RPt
  {
    RPt(a.x as real + t * (b.x - a.x) as real, a.y as real + t * (b.y - a.y) as real)
  }

  /** The intersection the edge `(a, b)` contributes: none for a zero determinant or
      when `t` or `u` falls outside `[0, 1]`. */
  function EdgeHit(p1: Pt, p2: Pt, a: Pt, b: Pt): Option<RPt>
  {
    var d := Det(p1, p2, a, b);
    if d == 0 then None
    else
      var t := NumT(p1, p2, a, b) as real / d as real;
      var u := NumU(p1, p2, a, b) as real / d as real;
      if 0.0 <= t <= 1.0 && 0.0 <= u <= 1.0 then Some(Lerp(p1, p2, t)) else None
  }

  /** The integer identity behind the formulas: scaled by `d`, the point at `t` on
      the line equals the point at `u` on the edge. */
  lemma CramerIdentity(p1: Pt, p2: Pt, a: Pt, b: Pt)
    ensures p1.x * Det(p1, p2, a, b) + NumT(p1, p2, a, b) * (p2.x - p1.x)
         == a.x * Det(p1, p2, a, b) + NumU(p1, p2, a, b) * (b.x - a.x)
    ensures p1.y * Det(p1, p2, a, b) + NumT(p1, p2, a, b) * (p2.y - p1.y)
         == a.y * Det(p1, p2, a, b) + NumU(p1, p2, a, b) * (b.y - a.y)
  {
    var e, f, g, h := p1.x - p2.x, p1.y - p2.y, a.x - b.x, a.y - b.y;
    var m, n := p1.x - a.x, p1.y - a.y;
    CramerRowX(a.x, m, n, e, f, g, h);
    CramerRowY(a.y, m, n, e, f, g, h);
  }

  /** The `x` row of the identity, over the differences `e f g h m n`. */
  lemma CramerRowX(c: int, m: int, n: int, e: int, f: int, g: int, h: int)
    ensures (c + m) * (e * h - f * g) - (m * h - n * g) * e == c * (e * h - f * g) - (m * f - n * e) * g
  {
    assert (c + m) * (e * h - f * g) == c * (e * h - f * g) + m * (e * h - f * g);
    assert m * (e * h - f * g) == m * e * h - m * f * g;
    assert (m * h - n * g) * e == m * h * e - n * g * e;
    assert (m * f - n * e) * g == m * f * g - n * e * g;
  }

  /** The `y` row of the identity. */
  lemma CramerRowY(c: int, m: int, n: int, e: int, f: int, g: int, h: int)
    ensures (c + n) * (e * h - f * g) - (m * h - n * g) * f == c * (e * h - f * g) - (m * f - n * e) * h
  {
    assert (c + n) * (e * h - f * g) == c * (e * h - f * g) + n * (e * h - f * g);
    assert n * (e * h - f * g) == n * e * h - n * f * g;
    assert (m * h - n * g) * f == m * h * f - n * g * f;
    assert (m * f - n * e) * h == m * f * h - n * e * h;
  }

  lemma ScaledLerp(c: real, num: real, d: real, delta: real)
    requires d != 0.0
    ensures c + num / d * delta == (c * d + num * delta) / d
  {
  }

  /** An integer identity `c1 d + n1 e1 == c2 d + n2 e2` divided by `d`. */
  lemma DivideIdentity(c1: int, n1: int, e1: int, c2: int, n2: int, e2: int, d: int)
    requires d != 0 && c1 * d + n1 * e1 == c2 * d + n2 * e2
    ensures c1 as real + n1 as real / d as real * e1 as real == c2 as real + n2 as real / d as real * e2 as real
  {
    ScaledLerp(c1 as real, n1 as real, d as real, e1 as real);
    ScaledLerp(c2 as real, n2 as real, d as real, e2 as real);
    assert (c1 * d) as real == c1 as real * d as real && (n1 * e1) as real == n1 as real * e1 as real;
    assert (c2 * d) as real == c2 as real * d as real && (n2 * e2) as real == n2 as real * e2 as real;
  }

  /** Every intersection `calculate_intersection` reports lies on both segments: it
      is `p1 + t (p2 - p1)` and `a + u (b - a)` with `t` and `u` in `[0, 1]`. */
  lemma EdgeHitOnBoth(p1: Pt, p2: Pt, a: Pt, b: Pt)
    requires EdgeHit(p1, p2, a, b).Some?
    ensures var d := Det(p1, p2, a, b);
            var t := NumT(p1, p2, a, b) as real / d as real;
            var u := NumU(p1, p2, a, b) as real / d as real;
            && d != 0 && 0.0 <= t <= 1.0 && 0.0 <= u <= 1.0
            && EdgeHit(p1, p2, a, b).value == Lerp(p1, p2, t) == Lerp(a, b, u)
  {
    var d := Det(p1, p2, a, b);
    var nt, nu := NumT(p1, p2, a, b), NumU(p1, p2, a, b);
    var t, u := nt as real / d as real, nu as real / d as real;
    assert d != 0 && 0.0 <= t <= 1.0 && 0.0 <= u <= 1.0;
    assert EdgeHit(p1, p2, a, b).value == Lerp(p1, p2, t);
    LinesMeet(p1, p2, a, b);
  }

  /** For non-parallel lines, the point at `t = NumT / d` on the line and the point
      at `u = NumU / d` on the edge coincide. */
  lemma LinesMeet(p1: Pt, p2: Pt, a: Pt, b: Pt)
    requires Det(p1, p2, a, b) != 0
    ensures Lerp(p1, p2, NumT(p1, p2, a, b) as real / Det(p1, p2, a, b) as real)
         == Lerp(a, b, NumU(p1, p2, a, b) as real / Det(p1, p2, a, b) as real)
  {
    MeetX(p1, p2, a, b);
    MeetY(p1, p2, a, b);
  }

  lemma MeetX(p1: Pt, p2: Pt, a: Pt, b: Pt)
    requires Det(p1, p2, a, b) != 0
    ensures p1.x as real + NumT(p1, p2, a, b) as real / Det(p1, p2, a, b) as real * (p2.x - p1.x) as real
         == a.x as real + NumU(p1, p2, a, b) as real / Det(p1, p2, a, b) as real * (b.x - a.x) as real
  {
    CramerIdentity(p1, p2, a, b);
    DivideIdentity(p1.x, NumT(p1, p2, a, b), p2.x - p1.x, a.x, NumU(p1, p2, a, b), b.x - a.x, Det(p1, p2, a, b));
  }

  lemma MeetY(p1: Pt, p2: Pt, a: Pt, b: Pt)
    requires Det(p1, p2, a, b) != 0
    ensures p1.y as real + NumT(p1, p2, a, b) as real / Det(p1, p2, a, b) as real * (p2.y - p1.y) as real
         == a.y as real + NumU(p1, p2, a, b) as real / Det(p1, p2, a, b) as real * (b.y - a.y) as real
  {
    CramerIdentity(p1, p2, a, b);
    DivideIdentity(p1.y, NumT(p1, p2, a, b), p2.y - p1.y, a.y, NumU(p1, p2, a, b), b.y - a.y, Det(p1, p2, a, b));
  }

  /** Parallel edges contribute nothing. */
  lemma ParallelEdgeMisses(p1: Pt, p2: Pt, a: Pt, b: Pt)
    requires Det(p1, p2, a, b) == 0
    ensures EdgeHit(p1, p2, a, b) == None
  {
  }

  /** The hit of edge `i`, from `poly[i]` to the next vertex around. */
  function HitAt(p1: Pt, p2: Pt, poly: seq<Pt>, i: nat): Option<RPt>
    requires i < |poly|
  {
    EdgeHit(p1, p2, poly[i], poly[(i + 1) % |poly|])
  }

  /** The hits of the edges from `i` on, in edge order. */
  function HitsFrom(p1: Pt, p2: Pt, poly: seq<Pt>, i: nat): (r: seq<RPt>)
    requires i <= |poly|
    decreases |poly| - i
    ensures |r| <= |poly| - i
    ensures forall k :: 0 <= k < |r| ==> exists j :: i <= j < |poly| && HitAt(p1, p2, poly, j) == Some(r[k])
    ensures forall j :: i <= j < |poly| && HitAt(p1, p2, poly, j).Some? ==> HitAt(p1, p2, poly, j).value in r
  {
    if i == |poly| then []
    else
      var rest := HitsFrom(p1, p2, poly, i + 1);
      match HitAt(p1, p2, poly, i)
      case None => rest
      case Some(q) => [q] + rest
  }

  /** The per-edge hits, one entry per edge in edge order. */
  function EdgeHits(p1: Pt, p2: Pt, poly: seq<Pt>): seq<Option<RPt>>
  {
    seq(|poly|, j requires 0 <= j < |poly| => HitAt(p1, p2, poly, j))
  }

  /** The values of the `Some` entries, in order. */
  function Present<T>(os: seq<Option<T>>): seq<T>
  {
    if os == [] then []
    else (if os[0].Some? then [os[0].value] else []) + Present(os[1..])
  }

  lemma {:induction false} HitsFromPresent(p1: Pt, p2: Pt, poly: seq<Pt>, i: nat)
    requires i <= |poly|
    ensures HitsFrom(p1, p2, poly, i) == Present(EdgeHits(p1, p2, poly)[i..])
    decreases |poly| - i
  {
    if i < |poly| {
      var hs := EdgeHits(p1, p2, poly);
      HitsFromPresent(p1, p2, poly, i + 1);
      assert hs[i..][0] == HitAt(p1, p2, poly, i);
      assert hs[i..][1..] == hs[i + 1..];
    }
  }

  /** `calculate_intersection(p1, p2, poly)`: at most one point per edge, each the
      hit of some edge, and every edge's hit reported; exactly the hits of the edges
      that are hit, in edge order. */
  function CalculateIntersection(p1: Pt, p2: Pt, poly: seq<Pt>): (r: seq<RPt>)
    ensures |r| <= |poly|
    ensures forall k :: 0 <= k < |r| ==> exists j :: 0 <= j < |poly| && HitAt(p1, p2, poly, j) == Some(r[k])
    ensures forall j :: 0 <= j < |poly| && HitAt(p1, p2, poly, j).Some? ==> HitAt(p1, p2, poly, j).value in r
    ensures r == Present(EdgeHits(p1, p2, poly))
  {
    HitsFromPresent(p1, p2, poly, 0);
    assert EdgeHits(p1, p2, poly)[0..] == EdgeHits(p1, p2, poly);
    HitsFrom(p1, p2, poly, 0)
  }

  /** A horizontal line through the unit-ten square meets its right side and
      misses its bottom side. */
  lemma SquareHorizontalHits()
    ensures HitAt(Pt(0, 5), Pt(20, 5), [Pt(0, 0), Pt(10, 0), Pt(10, 10), Pt(0, 10)], 1) == Some(RPt(10.0, 5.0))
    ensures HitAt(Pt(0, 5), Pt(20, 5), [Pt(0, 0), Pt(10, 0), Pt(10, 10), Pt(0, 10)], 0) == None
  {
  }
}
