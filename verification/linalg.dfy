/** 4x4 homogeneous matrices over exact reals, the numpy arrays of lab 4. A point is
    a row `[x, y, z, w]`; `apply_transformation(points, M)` multiplies every row by
    `M` transposed, which is `M` applied to the point as a column. */
module LinAlg {

  datatype Vec4 = Vec4(x: real, y: real, z: real, w: real)

  /** A matrix as its four rows. */
  datatype Mat4 = Mat4(r0: Vec4, r1: Vec4, r2: Vec4, r3: Vec4)

  function Dot(u: Vec4, v: Vec4): real
  {
    u.x * v.x + u.y * v.y + u.z * v.z + u.w * v.w
  }

  /** The matrix `m` applied to the column `v`. */
  function Apply(m: Mat4, v: Vec4): Vec4
  {
    Vec4(Dot(m.r0, v), Dot(m.r1, v), Dot(m.r2, v), Dot(m.r3, v))
  }

  /** The row vector `r` times `b`: the combination of `b`'s rows weighted by `r`. */
  function RowTimes(r: Vec4, b: Mat4): Vec4
  {
    Vec4(r.x * b.r0.x + r.y * b.r1.x + r.z * b.r2.x + r.w * b.r3.x,
         r.x * b.r0.y + r.y * b.r1.y + r.z * b.r2.y + r.w * b.r3.y,
         r.x * b.r0.z + r.y * b.r1.z + r.z * b.r2.z + r.w * b.r3.z,
         r.x * b.r0.w + r.y * b.r1.w + r.z * b.r2.w + r.w * b.r3.w)
  }

  /** The matrix product `a @ b`. */
  function Mul(a: Mat4, b: Mat4): Mat4
  {
    Mat4(RowTimes(a.r0, b), RowTimes(a.r1, b), RowTimes(a.r2, b), RowTimes(a.r3, b))
  }

  /** `np.eye(4)`. */
  const Identity: Mat4 := Mat4(Vec4(1.0, 0.0, 0.0, 0.0), Vec4(0.0, 1.0, 0.0, 0.0),
                              Vec4(0.0, 0.0, 1.0, 0.0), Vec4(0.0, 0.0, 0.0, 1.0))

  /** One row of a product applied to a point is that row applied to the point
      already moved by the right factor. */
  lemma RowTimesApply(r: Vec4, b: Mat4, v: Vec4)
    ensures Dot(RowTimes(r, b), v) == Dot(r, Apply(b, v))
  {
    RowTimesRows(r, b);
    DotSum4(Scaled(r.x, b.r0), Scaled(r.y, b.r1), Scaled(r.z, b.r2), Scaled(r.w, b.r3), v);
    DotScaled(r.x, b.r0, v);
    DotScaled(r.y, b.r1, v);
    DotScaled(r.z, b.r2, v);
    DotScaled(r.w, b.r3, v);
  }

  function Sum4(a: Vec4, b: Vec4, c: Vec4, d: Vec4): Vec4
  {
    Vec4(a.x + b.x + c.x + d.x, a.y + b.y + c.y + d.y, a.z + b.z + c.z + d.z, a.w + b.w + c.w + d.w)
  }

  function Scaled(k: real, u: Vec4): Vec4
  {
    Vec4(k * u.x, k * u.y, k * u.z, k * u.w)
  }

  /** `r` times `b` is the sum of `b`'s rows scaled by the entries of `r`. */
  lemma RowTimesRows(r: Vec4, b: Mat4)
    ensures RowTimes(r, b) == Sum4(Scaled(r.x, b.r0), Scaled(r.y, b.r1), Scaled(r.z, b.r2), Scaled(r.w, b.r3))
  {
  }

  lemma DotSum4(a: Vec4, b: Vec4, c: Vec4, d: Vec4, v: Vec4)
    ensures Dot(Sum4(a, b, c, d), v) == Dot(a, v) + Dot(b, v) + Dot(c, v) + Dot(d, v)
  {
    assert (a.x + b.x + c.x + d.x) * v.x == a.x * v.x + b.x * v.x + c.x * v.x + d.x * v.x;
    assert (a.y + b.y + c.y + d.y) * v.y == a.y * v.y + b.y * v.y + c.y * v.y + d.y * v.y;
    assert (a.z + b.z + c.z + d.z) * v.z == a.z * v.z + b.z * v.z + c.z * v.z + d.z * v.z;
    assert (a.w + b.w + c.w + d.w) * v.w == a.w * v.w + b.w * v.w + c.w * v.w + d.w * v.w;
  }

  lemma DotScaled(k: real, u: Vec4, v: Vec4)
    ensures Dot(Scaled(k, u), v) == k * Dot(u, v)
  {
    assert (k * u.x) * v.x == k * (u.x * v.x);
    assert (k * u.y) * v.y == k * (u.y * v.y);
    assert (k * u.z) * v.z == k * (u.z * v.z);
    assert (k * u.w) * v.w == k * (u.w * v.w);
  }

  /** Applying a product applies the right factor first. */
  lemma ApplyMul(a: Mat4, b: Mat4, v: Vec4)
    ensures Apply(Mul(a, b), v) == Apply(a, Apply(b, v))
  {
    RowTimesApply(a.r0, b, v);
    RowTimesApply(a.r1, b, v);
    RowTimesApply(a.r2, b, v);
    RowTimesApply(a.r3, b, v);
  }

  /** The identity is neutral on both sides and fixes every point. */
  lemma IdentityNeutral(m: Mat4, v: Vec4)
    ensures Mul(Identity, m) == m && Mul(m, Identity) == m
    ensures Apply(Identity, v) == v
  {
  }

  /** The bottom row of an affine transform. */
  const Bottom: Vec4 := Vec4(0.0, 0.0, 0.0, 1.0)

  predicate Affine(m: Mat4)
  {
    m.r3 == Bottom
  }

  /** Products of affine matrices are affine, and an affine matrix keeps `w`. */
  lemma AffineClosed(a: Mat4, b: Mat4, v: Vec4)
    requires Affine(a) && Affine(b)
    ensures Affine(Mul(a, b))
    ensures Apply(a, v).w == v.w
  {
  }

  /** `apply_transformation(points, m)`: every row mapped by `m`. */
  function ApplyAll(ps: seq<Vec4>, m: Mat4): (r: seq<Vec4>)
    ensures |r| == |ps|
    ensures forall i :: 0 <= i < |ps| ==> r[i] == Apply(m, ps[i])
  {
    if ps == [] then [] else [Apply(m, ps[0])] + ApplyAll(ps[1..], m)
  }

  /** Transforming a point set twice is transforming it once by the product. */
  lemma ApplyAllMul(ps: seq<Vec4>, a: Mat4, b: Mat4)
    ensures ApplyAll(ApplyAll(ps, b), a) == ApplyAll(ps, Mul(a, b))
  {
    forall i | 0 <= i < |ps|
      ensures ApplyAll(ApplyAll(ps, b), a)[i] == ApplyAll(ps, Mul(a, b))[i]
    {
      ApplyMul(a, b, ps[i]);
    }
  }
}
