/** The frame logic of lab 4's `main.py`: the homogeneous rows of a loaded object,
    the edge lists, the perspective projection and the running transform that every
    pressed key right-multiplies by a delta matrix. */
module Scene {
  import opened LinAlg
  import opened Transforms

  /** The camera distance `distance = 5`. */
  const Distance: real := 5.0

  /** A parsed line of an object file: three coordinates. */
  datatype Triple = Triple(x: real, y: real, z: real)

  /** The row `[x, y, z, 1]` that `load_object` appends for a parsed line. */
  function HomogeneousRow(t: Triple): (v: Vec4)
    ensures v.w == 1.0
  {
    Vec4(t.x, t.y, t.z, 1.0)
  }

  function LoadRows(ts: seq<Triple>): (r: seq<Vec4>)
    ensures |r| == |ts|
    ensures forall i :: 0 <= i < |ts| ==> r[i] == HomogeneousRow(ts[i])
  {
    if ts == [] then [] else [HomogeneousRow(ts[0])] + LoadRows(ts[1..])
  }

  /** A projected point on the screen plane. */
  datatype Point2 = Point2(x: real, y: real)

  /** `project` for one row: the perspective matrix, then `x` and `y` divided by the
      resulting `w`. A zero `w` makes numpy produce infinities, which are not modelled. */
  function Project(v: Vec4): (p: Point2)
    requires v.w != 0.0
    ensures p.x * v.w == v.x && p.y * v.w == v.y
  {
    var q := Apply(Perspective(Distance), v);
    PerspectiveKeepsW(Distance, v);
    Point2(q.x / q.w, q.y / q.w)
  }

  /** Because the perspective matrix keeps `w`, a row with `w == 1` projects to its
      own `x` and `y`: the depth has no effect on the picture. */
  lemma ProjectIgnoresDepth(v: Vec4)
    requires v.w == 1.0
    ensures Project(v) == Point2(v.x, v.y)
  {
  }

  /** The objects of `EDGES_MAP`. */
  datatype Shape = Cube | Pyramid | Tetrahedron | Prism

  /** The number of vertices each object file holds. */
  function VertexCount(s: Shape): nat
  {
    match s
    case Cube => 8
    case Pyramid => 5
    case Tetrahedron => 4
    case Prism => 8
  }

  /** `EDGES_MAP[file]`. */
  function Edges(s: Shape): (es: seq<(nat, nat)>)
    ensures |es| == (match s case Cube => 12 case Pyramid => 8 case Tetrahedron => 6 case Prism => 12)
    ensures forall i :: 0 <= i < |es| ==> es[i].0 != es[i].1 && es[i].0 < VertexCount(s) && es[i].1 < VertexCount(s)
    ensures forall i, j :: 0 <= i < j < |es| ==> es[i] != es[j] && es[i] != (es[j].1, es[j].0)
  {
    match s
    case Cube | Prism =>
      [(0, 1), (1, 2), (2, 3), (3, 0), (4, 5), (5, 6), (6, 7), (7, 4), (0, 4), (1, 5), (2, 6), (3, 7)]
    case Pyramid => [(0, 1), (0, 2), (0, 3), (0, 4), (1, 2), (2, 3), (3, 4), (4, 1)]
    case Tetrahedron => [(0, 1), (0, 2), (0, 3), (1, 2), (1, 3), (2, 3)]
  }

  /** The running transform after right-multiplying the deltas in order, starting
      from `t`. */
  function Accumulate(t: Mat4, ds: seq<Mat4>): Mat4
    decreases |ds|
  {
    if ds == [] then t else Accumulate(Mul(t, ds[0]), ds[1..])
  }

  /** The deltas applied to a point one by one, the LAST delta first. */
  function ApplyInOrder(ds: seq<Mat4>, v: Vec4): Vec4
  {
    if ds == [] then v else Apply(ds[0], ApplyInOrder(ds[1..], v))
  }

  /** Right multiplication means the newest delta acts on the object first, in its
      own frame, and the oldest acts last. */
  lemma {:induction false} AccumulateActs(t: Mat4, ds: seq<Mat4>, v: Vec4)
    ensures Apply(Accumulate(t, ds), v) == Apply(t, ApplyInOrder(ds, v))
    decreases |ds|
  {
    if ds != [] {
      AccumulateActs(Mul(t, ds[0]), ds[1..], v);
      ApplyMul(t, ds[0], ApplyInOrder(ds[1..], v));
    }
  }

  predicate AllAffine(ds: seq<Mat4>)
  {
    forall i :: 0 <= i < |ds| ==> Affine(ds[i])
  }

  /** Every delta is affine, so the running transform keeps the bottom row
      `[0, 0, 0, 1]` and every transformed row keeps `w == 1`. */
  lemma {:induction false} AccumulateAffine(t: Mat4, ds: seq<Mat4>, v: Vec4)
    requires Affine(t) && AllAffine(ds)
    ensures Affine(Accumulate(t, ds))
    ensures Apply(Accumulate(t, ds), v).w == v.w
    decreases |ds|
  {
    if ds != [] {
      AffineClosed(t, ds[0], v);
      AccumulateAffine(Mul(t, ds[0]), ds[1..], v);
    }
    AffineClosed(Accumulate(t, ds), Accumulate(t, ds), v);
  }

  /** The keys held down in one frame. */
  datatype Keys = Keys(left: bool, right: bool, up: bool, down: bool,
                       forward: bool, back: bool, leftward: bool, rightward: bool,
                       grow: bool, shrink: bool, mirrorX: bool, mirrorY: bool, mirrorZ: bool)

  /** The cosine and sine of the 0.05 rad rotation step. */
  datatype Turn = Turn(c: real, s: real)

  /** The deltas so far, followed by `m` if its key is held. */
  function Then(acc: seq<Mat4>, held: bool, m: Mat4): (r: seq<Mat4>)
    ensures AllAffine(acc) && Affine(m) ==> AllAffine(r)
  {
    if held then acc + [m] else acc
  }

  /** The deltas of the movement keys, in the order the code tests them. */
  function KeyDeltas(k: Keys, t: Turn): (ds: seq<Mat4>)
    ensures AllAffine(ds)
  {
    var d1 := Then([], k.left, RotY(t.c, t.s));
    var d2 := Then(d1, k.right, RotY(t.c, -t.s));
    var d3 := Then(d2, k.up, RotX(t.c, t.s));
    var d4 := Then(d3, k.down, RotX(t.c, -t.s));
    var d5 := Then(d4, k.forward, Translation(0.0, 0.0, 0.1));
    var d6 := Then(d5, k.back, Translation(0.0, 0.0, -0.1));
    var d7 := Then(d6, k.leftward, Translation(-0.1, 0.0, 0.0));
    var d8 := Then(d7, k.rightward, Translation(0.1, 0.0, 0.0));
    var d9 := Then(d8, k.grow, Scale(1.05, 1.05, 1.05));
    Then(d9, k.shrink, Scale(0.95, 0.95, 0.95))
  }

  /** `mirror_delay = 300` milliseconds. */
  const MirrorDelay := 300

  /** The transform and the time of the last mirror, carried from frame to frame. */
  datatype View = View(transform: Mat4, lastMirror: int)

  /** One mirror check: applied when its key is held and more than the delay has
      passed since the last mirror; a mirror restarts the delay. */
  function MirrorCheck(v: View, held: bool, m: Mat4, now: int): View
  {
    if held && now - v.lastMirror > MirrorDelay then View(Mul(v.transform, m), now) else v
  }

  /** The key handling of one frame at time `now` (milliseconds). */
  function FrameStep(v: View, k: Keys, t: Turn, now: int): View
  {
    var moved := View(Accumulate(v.transform, KeyDeltas(k, t)), v.lastMirror);
    var afterX := MirrorCheck(moved, k.mirrorX, MirrorX(), now);
    var afterY := MirrorCheck(afterX, k.mirrorY, MirrorY(), now);
    MirrorCheck(afterY, k.mirrorZ, MirrorZ(), now)
  }

  /** The mirror a frame applies: the first held one in the order x, y, z, and only
      when the delay has passed; at most one per frame. */
  function FrameMirror(v: View, k: Keys, now: int): seq<Mat4>
  {
    if now - v.lastMirror <= MirrorDelay then []
    else if k.mirrorX then [MirrorX()]
    else if k.mirrorY then [MirrorY()]
    else if k.mirrorZ then [MirrorZ()]
    else []
  }

  /** A frame right-multiplies the movement deltas and then at most one mirror, and
      restarts the delay exactly when it mirrors. */
  lemma FrameStepDeltas(v: View, k: Keys, t: Turn, now: int)
    ensures |FrameMirror(v, k, now)| <= 1
    ensures FrameStep(v, k, t, now).transform == Accumulate(v.transform, KeyDeltas(k, t) + FrameMirror(v, k, now))
    ensures FrameStep(v, k, t, now).lastMirror == (if FrameMirror(v, k, now) == [] then v.lastMirror else now)
  {
    AccumulateAppend(v.transform, KeyDeltas(k, t), FrameMirror(v, k, now));
  }

  lemma {:induction false} AccumulateAppend(t: Mat4, ds: seq<Mat4>, es: seq<Mat4>)
    ensures Accumulate(t, ds + es) == Accumulate(Accumulate(t, ds), es)
    decreases |ds|
  {
    if ds == [] {
      assert ds + es == es;
    } else {
      assert (ds + es)[1..] == ds[1..] + es;
      AccumulateAppend(Mul(t, ds[0]), ds[1..], es);
    }
  }

  /** Starting from `np.eye(4)`, the running transform stays affine in every frame,
      so the rows handed to `project` keep `w == 1` and project without division
      trouble. */
  lemma FrameStepAffine(v: View, k: Keys, t: Turn, now: int, p: Vec4)
    requires Affine(v.transform)
    ensures Affine(FrameStep(v, k, t, now).transform)
    ensures Apply(FrameStep(v, k, t, now).transform, p).w == p.w
  {
    FrameStepDeltas(v, k, t, now);
    var ds := KeyDeltas(k, t) + FrameMirror(v, k, now);
    assert AllAffine(ds);
    AccumulateAffine(v.transform, ds, p);
  }
}
