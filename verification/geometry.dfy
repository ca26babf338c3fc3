/** Shared geometric values of the lab kernels: integer pixels (mouse clicks and
    rasterizer output) and exact real points (the values Python computes in floating
    point), plus the integer helpers Python's built-ins provide. */
module Geometry {

  /** A pixel or click coordinate. */
  datatype Pt = Pt(x: int, y: int)

  /** A point with real coordinates, as drawn by the floating-point kernels. */
  datatype RPt = RPt(x: real, y: real)

  /** Python's `None` or a value. */
  datatype Option<T> = None | Some(value: T)

  function ToReal(p: Pt): (r: RPt)
    ensures r.x == p.x as real && r.y == p.y as real
  {
    RPt(p.x as real, p.y as real)
  }

  function Abs(n: int): (r: nat)
    ensures r == n || r == -n
  {
    if n < 0 then -n else n
  }

  function AbsR(r: real): (a: real)
    ensures a >= 0.0 && (a == r || a == -r)
  {
    if r < 0.0 then -r else r
  }

  function Max(a: int, b: int): (m: int)
    ensures m >= a && m >= b && (m == a || m == b)
  {
    if a < b then b else a
  }

  function Min(a: int, b: int): (m: int)
    ensures m <= a && m <= b && (m == a || m == b)
  {
    if a < b then a else b
  }

  /** Python's `int(r)` on a float: truncation toward zero. */
  function Trunc(r: real): (n: int)
    ensures r >= 0.0 ==> n as real <= r < n as real + 1.0
    ensures r < 0.0 ==> n as real - 1.0 < r <= n as real
  {
    if r >= 0.0 then r.Floor else -((-r).Floor)
  }

  /** Truncation toward zero is monotone. */
  lemma TruncMonotone(a: real, b: real)
    requires a <= b
    ensures Trunc(a) <= Trunc(b)
  {
  }

  /** Exact squared Euclidean distance between two pixels. */
  function SqDist(p: Pt, q: Pt): (d: nat)
    ensures d == 0 <==> p == q
  {
    var dx := p.x - q.x;
    var dy := p.y - q.y;
    SquareNonNeg(dx);
    SquareNonNeg(dy);
    if p != q then
      SquarePositive(if dx != 0 then dx else dy);
      dx * dx + dy * dy
    else
      dx * dx + dy * dy
  }

  lemma SquareNonNeg(n: int)
    ensures n * n >= 0
  {
    if n < 0 {
      assert n * n == (-n) * (-n);
    }
  }

  lemma SquarePositive(n: int)
    requires n != 0
    ensures n * n > 0
  {
    if n < 0 {
      assert n * n == (-n) * (-n);
    }
  }

  /** `d * a <= d * b` for a non-negative factor: the monotonicity step the
      error-term proofs need. */
  lemma MulMonotone(d: int, a: int, b: int)
    requires d >= 0 && a <= b
    ensures d * a <= d * b
  {
    assert d * b - d * a == d * (b - a);
  }
}
