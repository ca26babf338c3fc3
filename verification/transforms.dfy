/** The matrix constructors of lab 4's `transformations.py`. The rotations take the
    cosine and sine of the angle as parameters `(c, s)`; `np.cos`/`np.sin` are not
    modelled. */
module Transforms {
  import opened LinAlg

  /** `translation_matrix(dx, dy, dz)`. */
  function Translation(dx: real, dy: real, dz: real): (m: Mat4)
    ensures Affine(m)
  {
    Mat4(Vec4(1.0, 0.0, 0.0, dx), Vec4(0.0, 1.0, 0.0, dy), Vec4(0.0, 0.0, 1.0, dz), Bottom)
  }

  /** `scale_matrix(sx, sy, sz)`. */
  function Scale(sx: real, sy: real, sz: real): (m: Mat4)
    ensures Affine(m)
  {
    Mat4(Vec4(sx, 0.0, 0.0, 0.0), Vec4(0.0, sy, 0.0, 0.0), Vec4(0.0, 0.0, sz, 0.0), Bottom)
  }

  /** `rotation_matrix_x(angle)` with `c, s = cos(angle), sin(angle)`. */
  function RotX(c: real, s: real): (m: Mat4)
    ensures Affine(m)
  {
    Mat4(Vec4(1.0, 0.0, 0.0, 0.0), Vec4(0.0, c, -s, 0.0), Vec4(0.0, s, c, 0.0), Bottom)
  }

  /** `rotation_matrix_y(angle)`. */
  function RotY(c: real, s: real): (m: Mat4)
    ensures Affine(m)
  {
    Mat4(Vec4(c, 0.0, s, 0.0), Vec4(0.0, 1.0, 0.0, 0.0), Vec4(-s, 0.0, c, 0.0), Bottom)
  }

  /** `rotation_matrix_z(angle)`. */
  function RotZ(c: real, s: real): (m: Mat4)
    ensures Affine(m)
  {
    Mat4(Vec4(c, -s, 0.0, 0.0), Vec4(s, c, 0.0, 0.0), Vec4(0.0, 0.0, 1.0, 0.0), Bottom)
  }

  /** `perspective_matrix(d)`: the `1/d` sits in row 2, column 3, so `w` is kept and
      `z` picks up `w / d`. `d == 0` divides by zero. */
  function Perspective(d: real): (m: Mat4)
    requires d != 0.0
    ensures Affine(m)
  {
    Mat4(Vec4(1.0, 0.0, 0.0, 0.0), Vec4(0.0, 1.0, 0.0, 0.0), Vec4(0.0, 0.0, 1.0, 1.0 / d), Bottom)
  }

  /** `mirror_x()`, `mirror_y()`, `mirror_z()`. */
  function MirrorX(): (m: Mat4)
    ensures Affine(m)
  {
    Mat4(Vec4(-1.0, 0.0, 0.0, 0.0), Vec4(0.0, 1.0, 0.0, 0.0), Vec4(0.0, 0.0, 1.0, 0.0), Bottom)
  }

  function MirrorY(): (m: Mat4)
    ensures Affine(m)
  {
    Mat4(Vec4(1.0, 0.0, 0.0, 0.0), Vec4(0.0, -1.0, 0.0, 0.0), Vec4(0.0, 0.0, 1.0, 0.0), Bottom)
  }

  function MirrorZ(): (m: Mat4)
    ensures Affine(m)
  {
    Mat4(Vec4(1.0, 0.0, 0.0, 0.0), Vec4(0.0, 1.0, 0.0, 0.0), Vec4(0.0, 0.0, -1.0, 0.0), Bottom)
  }

  /** What each constructor does to a point `(x, y, z, w)`. */
  lemma TranslationMoves(dx: real, dy: real, dz: real, v: Vec4)
    ensures Apply(Translation(dx, dy, dz), v) == Vec4(v.x + dx * v.w, v.y + dy * v.w, v.z + dz * v.w, v.w)
  {
  }

  lemma ScaleStretches(sx: real, sy: real, sz: real, v: Vec4)
    ensures Apply(Scale(sx, sy, sz), v) == Vec4(sx * v.x, sy * v.y, sz * v.z, v.w)
  {
  }

  lemma PerspectiveKeepsW(d: real, v: Vec4)
    requires d != 0.0
    ensures Apply(Perspective(d), v) == Vec4(v.x, v.y, v.z + v.w / d, v.w)
  {
  }

  /** Each mirror negates exactly one coordinate and undoes itself. */
  lemma MirrorXInvolution(v: Vec4)
    ensures Apply(MirrorX(), v) == Vec4(-v.x, v.y, v.z, v.w)
    ensures Mul(MirrorX(), MirrorX()) == Identity
  {
  }

  lemma MirrorYInvolution(v: Vec4)
    ensures Apply(MirrorY(), v) == Vec4(v.x, -v.y, v.z, v.w)
    ensures Mul(MirrorY(), MirrorY()) == Identity
  {
  }

  lemma MirrorZInvolution(v: Vec4)
    ensures Apply(MirrorZ(), v) == Vec4(v.x, v.y, -v.z, v.w)
    ensures Mul(MirrorZ(), MirrorZ()) == Identity
  {
  }

  /** Translations add up and scales multiply. */
  lemma TranslationCompose(a: Vec4, b: Vec4)
    ensures Mul(Translation(a.x, a.y, a.z), Translation(b.x, b.y, b.z)) == Translation(a.x + b.x, a.y + b.y, a.z + b.z)
  {
  }

  lemma ScaleCompose(a: Vec4, b: Vec4)
    ensures Mul(Scale(a.x, a.y, a.z), Scale(b.x, b.y, b.z)) == Scale(a.x * b.x, a.y * b.y, a.z * b.z)
  {
  }

  /** A quarter turn about `y` (`c = 0`, `s = 1`) takes the `x` axis to `-z`. */
  lemma RotYQuarterTurn()
    ensures Apply(RotY(0.0, 1.0), Vec4(1.0, 0.0, 0.0, 1.0)) == Vec4(0.0, 0.0, -1.0, 1.0)
  {
  }

  /** For a genuine cosine/sine pair each rotation keeps the squared length in the
      plane it turns and leaves the other coordinate and `w` alone. */
  lemma RotationsPreserveLength(c: real, s: real, v: Vec4)
    requires c * c + s * s == 1.0
    ensures var u := Apply(RotX(c, s), v);
            u.x == v.x && u.w == v.w && u.y * u.y + u.z * u.z == v.y * v.y + v.z * v.z
    ensures var u := Apply(RotY(c, s), v);
            u.y == v.y && u.w == v.w && u.x * u.x + u.z * u.z == v.x * v.x + v.z * v.z
    ensures var u := Apply(RotZ(c, s), v);
            u.z == v.z && u.w == v.w && u.x * u.x + u.y * u.y == v.x * v.x + v.y * v.y
  {
    PlaneRotation(c, s, v.y, v.z);
    PlaneRotation(c, s, v.z, v.x);
    PlaneRotation(c, s, v.x, v.y);
    assert Apply(RotY(c, s), v).x == c * v.x + s * v.z;
    assert Apply(RotY(c, s), v).z == -s * v.x + c * v.z;
  }

  /** The 2D identity behind the rotations: `(c p - s q)^2 + (s p + c q)^2 ==
      (c^2 + s^2)(p^2 + q^2)`. */
  lemma PlaneRotation(c: real, s: real, p: real, q: real)
    requires c * c + s * s == 1.0
    ensures (c * p - s * q) * (c * p - s * q) + (s * p + c * q) * (s * p + c * q) == p * p + q * q
    ensures (c * q + s * p) * (c * q + s * p) + (-s * q + c * p) * (-s * q + c * p) == p * p + q * q
  {
    assert (c * p - s * q) * (c * p - s * q) + (s * p + c * q) * (s * p + c * q)
        == (c * c + s * s) * (p * p + q * q);
  }

  /** Rotations about one axis compose by the angle-addition formulas. */
  lemma RotZCompose(c1: real, s1: real, c2: real, s2: real)
    ensures Mul(RotZ(c1, s1), RotZ(c2, s2)) == RotZ(c1 * c2 - s1 * s2, s1 * c2 + c1 * s2)
  {
  }
}
