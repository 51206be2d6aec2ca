/** Homogeneous coordinates, rigid transforms and pinhole projection.

    Vectors are sequences of reals and matrices are sequences of rows. The
    batched tensor operations of `src/geometry.py` act on one element of
    the batch at a time here; the rasteriser iterates over the batch itself.
 */
module Geometry {

  type Vector = seq<real>
  type Matrix = seq<seq<real>>

  /** `m` has `rows` rows of `cols` entries each. */
  predicate IsMatrix(m: Matrix, rows: nat, cols: nat) {
    |m| == rows && forall i :: 0 <= i < rows ==> |m[i]| == cols
  }

  // ---------------------------------------------------------------------------
  // Linear algebra

  function Dot(a: Vector, b: Vector): real
    requires |a| == |b|
    decreases |a|
  {
    if |a| == 0 then 0.0 else a[0] * b[0] + Dot(a[1..], b[1..])
  }

  function Scale(s: real, u: Vector): (r: Vector)
    ensures |r| == |u|
  {
    seq(|u|, i requires 0 <= i < |u| => s * u[i])
  }

  function Add(u: Vector, v: Vector): (r: Vector)
    requires |u| == |v|
    ensures |r| == |u|
  {
    seq(|u|, i requires 0 <= i < |u| => u[i] + v[i])
  }

  /** The matrix-vector product over the last two axes (`...ij,...j->...i`). */
  function MatVec(m: Matrix, x: Vector): (r: Vector)
    requires forall i :: 0 <= i < |m| ==> |m[i]| == |x|
    ensures |r| == |m|
  {
    seq(|m|, i requires 0 <= i < |m| => Dot(m[i], x))
  }

  function Column(m: Matrix, k: nat): (c: Vector)
    requires forall j :: 0 <= j < |m| ==> k < |m[j]|
    ensures |c| == |m|
  {
    seq(|m|, j requires 0 <= j < |m| => m[j][k])
  }

  /** The row vector `a` times the matrix `m` of `cols` columns. */
  function RowTimes(a: Vector, m: Matrix, cols: nat): (r: Vector)
    requires IsMatrix(m, |a|, cols)
    ensures |r| == cols
  {
    seq(cols, k requires 0 <= k < cols => Dot(a, Column(m, k)))
  }

  function MatMul(a: Matrix, b: Matrix): (c: Matrix)
    requires |b| > 0 && IsMatrix(a, |a|, |b|) && IsMatrix(b, |b|, |b[0]|)
    ensures IsMatrix(c, |a|, |b[0]|)
  {
    seq(|a|, i requires 0 <= i < |a| => RowTimes(a[i], b, |b[0]|))
  }

  function Identity(n: nat): (m: Matrix)
    ensures IsMatrix(m, n, n)
  {
    seq(n, i => seq(n, j => if i == j then 1.0 else 0.0))
  }

  /** `inv` is the two-sided inverse of the 4x4 matrix `m`. */
  predicate IsInverse(inv: Matrix, m: Matrix) {
    IsMatrix(m, 4, 4) && IsMatrix(inv, 4, 4) &&
    MatMul(inv, m) == Identity(4) && MatMul(m, inv) == Identity(4)
  }

  lemma {:induction false} DotZeroLeft(a: Vector, x: Vector)
    requires |a| == |x|
    requires forall i :: 0 <= i < |a| ==> a[i] == 0.0
    ensures Dot(a, x) == 0.0
    decreases |a|
  {
    if |a| > 0 {
      DotZeroLeft(a[1..], x[1..]);
    }
  }

  /** A row with a single non-zero entry picks out one component. */
  lemma {:induction false} DotSingle(a: Vector, x: Vector, k: nat)
    requires |a| == |x| && k < |a|
    requires forall j :: 0 <= j < |a| && j != k ==> a[j] == 0.0
    ensures Dot(a, x) == a[k] * x[k]
    decreases |a|
  {
    if k == 0 {
      DotZeroLeft(a[1..], x[1..]);
    } else {
      DotSingle(a[1..], x[1..], k - 1);
    }
  }

  /** Two rows that differ only where `x` is zero give the same product. */
  lemma {:induction false} DotIgnoresZeroComponent(a: Vector, a': Vector, x: Vector, k: nat)
    requires |a| == |a'| == |x| && k < |x| && x[k] == 0.0
    requires forall j :: 0 <= j < |x| && j != k ==> a[j] == a'[j]
    ensures Dot(a, x) == Dot(a', x)
    decreases |x|
  {
    if k > 0 {
      DotIgnoresZeroComponent(a[1..], a'[1..], x[1..], k - 1);
    } else {
      assert a[1..] == a'[1..];
    }
  }

  /** A row padded with a trailing zero ignores the last component of `x`. */
  lemma {:induction false} DotPadZero(a: Vector, x: Vector)
    requires |x| == |a| + 1
    ensures Dot(a + [0.0], x) == Dot(a, x[..|a|])
    decreases |a|
  {
    if |a| > 0 {
      assert (a + [0.0])[1..] == a[1..] + [0.0];
      assert x[..|a|][1..] == x[1..][..|a| - 1];
      DotPadZero(a[1..], x[1..]);
    }
  }

  lemma ScaleTail(s: real, u: Vector)
    requires |u| > 0
    ensures Scale(s, u)[0] == s * u[0] && Scale(s, u)[1..] == Scale(s, u[1..])
  {
    forall i | 0 <= i < |u| - 1
      ensures Scale(s, u)[1..][i] == Scale(s, u[1..])[i]
    {
      assert u[1..][i] == u[i + 1];
    }
  }

  lemma {:induction false} DotScaleRight(a: Vector, x: Vector, s: real)
    requires |a| == |x|
    ensures Dot(a, Scale(s, x)) == s * Dot(a, x)
    decreases |a|
  {
    if |a| > 0 {
      ScaleTail(s, x);
      DotScaleRight(a[1..], x[1..], s);
    }
  }

  lemma {:induction false} DotScaleLeft(s: real, a: Vector, x: Vector)
    requires |a| == |x|
    ensures Dot(Scale(s, a), x) == s * Dot(a, x)
    decreases |a|
  {
    if |a| > 0 {
      ScaleTail(s, a);
      DotScaleLeft(s, a[1..], x[1..]);
    }
  }

  lemma {:induction false} DotAddLeft(u: Vector, v: Vector, x: Vector)
    requires |u| == |v| == |x|
    ensures Dot(Add(u, v), x) == Dot(u, x) + Dot(v, x)
    decreases |u|
  {
    if |u| > 0 {
      assert Add(u, v)[1..] == Add(u[1..], v[1..]);
      DotAddLeft(u[1..], v[1..], x[1..]);
    }
  }

  lemma MatVecTail(m: Matrix, x: Vector)
    requires |m| > 0 && forall i :: 0 <= i < |m| ==> |m[i]| == |x|
    ensures MatVec(m, x)[0] == Dot(m[0], x) && MatVec(m, x)[1..] == MatVec(m[1..], x)
  {
    var r, r' := MatVec(m, x), MatVec(m[1..], x);
    forall i | 0 <= i < |r'|
      ensures r[1..][i] == r'[i]
    {
      calc {
        r[1..][i];
        r[i + 1];
        Dot(m[i + 1], x);
        { assert m[1..][i] == m[i + 1]; }
        Dot(m[1..][i], x);
        r'[i];
      }
    }
  }

  /** The first row of `m` scaled by `a[0]`, plus the rest of the product. */
  lemma RowTimesCons(a: Vector, m: Matrix, cols: nat)
    requires |a| > 0 && IsMatrix(m, |a|, cols)
    ensures RowTimes(a, m, cols) == Add(Scale(a[0], m[0]), RowTimes(a[1..], m[1..], cols))
  {
    var r, r' := RowTimes(a, m, cols), RowTimes(a[1..], m[1..], cols);
    var row := Scale(a[0], m[0]);
    forall k | 0 <= k < cols
      ensures r[k] == Add(row, r')[k]
    {
      assert Column(m, k)[1..] == Column(m[1..], k);
      assert row[k] == a[0] * m[0][k];
    }
  }

  lemma RowTimesEmpty(a: Vector, m: Matrix, cols: nat)
    requires |a| == 0 && IsMatrix(m, 0, cols)
    ensures forall k :: 0 <= k < cols ==> RowTimes(a, m, cols)[k] == 0.0
  {
  }

  /** Multiplying by `m` and then by the row `a` is multiplying by `a m`. */
  lemma {:induction false} DotMatVec(a: Vector, m: Matrix, x: Vector)
    requires IsMatrix(m, |a|, |x|)
    ensures Dot(a, MatVec(m, x)) == Dot(RowTimes(a, m, |x|), x)
    decreases |a|
  {
    if |a| == 0 {
      RowTimesEmpty(a, m, |x|);
      DotZeroLeft(RowTimes(a, m, |x|), x);
    } else {
      DotMatVec(a[1..], m[1..], x);
      MatVecTail(m, x);
      RowTimesCons(a, m, |x|);
      DotAddLeft(Scale(a[0], m[0]), RowTimes(a[1..], m[1..], |x|), x);
      DotScaleLeft(a[0], m[0], x);
    }
  }

  /** The matrix-vector product is compatible with the matrix product. */
  lemma MatVecMatMul(a: Matrix, b: Matrix, x: Vector)
    requires |b| > 0 && IsMatrix(a, |a|, |b|) && IsMatrix(b, |b|, |x|)
    ensures MatVec(a, MatVec(b, x)) == MatVec(MatMul(a, b), x)
  {
    forall i | 0 <= i < |a|
      ensures MatVec(a, MatVec(b, x))[i] == MatVec(MatMul(a, b), x)[i]
    {
      DotMatVec(a[i], b, x);
    }
  }

  /** The identity matrix is a fixed point of the matrix-vector product. */
  lemma MatVecIdentity(x: Vector)
    ensures MatVec(Identity(|x|), x) == x
  {
    forall i | 0 <= i < |x|
      ensures MatVec(Identity(|x|), x)[i] == x[i]
    {
      DotSingle(Identity(|x|)[i], x, i);
    }
  }

  lemma MatMulIdentityLeft(m: Matrix)
    requires |m| > 0 && IsMatrix(m, |m|, |m[0]|)
    ensures MatMul(Identity(|m|), m) == m
  {
    var n, p := |m|, |m[0]|;
    forall i | 0 <= i < n
      ensures MatMul(Identity(n), m)[i] == m[i]
    {
      forall k | 0 <= k < p
        ensures MatMul(Identity(n), m)[i][k] == m[i][k]
      {
        DotSingle(Identity(n)[i], Column(m, k), i);
      }
    }
  }

  /** Column k of a b is a applied to column k of b. */
  lemma ColumnOfMatMul(a: Matrix, b: Matrix, k: nat)
    requires |b| > 0 && IsMatrix(a, |a|, |b|) && IsMatrix(b, |b|, |b[0]|) && k < |b[0]|
    ensures Column(MatMul(a, b), k) == MatVec(a, Column(b, k))
  {
  }

  /** A matrix applied to column k of the identity is its own column k. */
  lemma MatVecUnitColumn(a: Matrix, k: nat)
    requires IsMatrix(a, |a|, 4) && k < 4
    ensures MatVec(a, Column(Identity(4), k)) == Column(a, k)
  {
    forall i | 0 <= i < |a|
      ensures MatVec(a, Column(Identity(4), k))[i] == a[i][k]
    {
      DotSingleRight(a[i], Column(Identity(4), k), k);
    }
  }

  /** A column with a single non-zero entry picks out one component of the row. */
  lemma {:induction false} DotSingleRight(a: Vector, x: Vector, k: nat)
    requires |a| == |x| && k < |a|
    requires forall j :: 0 <= j < |x| && j != k ==> x[j] == 0.0
    ensures Dot(a, x) == a[k] * x[k]
    decreases |a|
  {
    if k == 0 {
      DotZeroRight(a[1..], x[1..]);
    } else {
      DotSingleRight(a[1..], x[1..], k - 1);
    }
  }

  lemma {:induction false} DotZeroRight(a: Vector, x: Vector)
    requires |a| == |x|
    requires forall i :: 0 <= i < |x| ==> x[i] == 0.0
    ensures Dot(a, x) == 0.0
    decreases |a|
  {
    if |a| > 0 {
      DotZeroRight(a[1..], x[1..]);
    }
  }

  /** The two-sided inverse of a matrix is unique, so a `world2cam` satisfying
      IsInverse is the inverse of the pose. */
  lemma InverseIsUnique(m: Matrix, inv: Matrix, inv': Matrix)
    requires IsInverse(inv, m) && IsInverse(inv', m)
    ensures inv == inv'
  {
    forall k | 0 <= k < 4
      ensures Column(inv, k) == Column(inv', k)
    {
      // inv' = (inv m) inv' = inv (m inv') = inv, column by column
      var c' := Column(inv', k);
      MatVecIdentity(c');
      MatVecMatMul(inv, m, c');
      ColumnOfMatMul(m, inv', k);
      MatVecUnitColumn(inv, k);
    }
    forall i | 0 <= i < 4
      ensures inv[i] == inv'[i]
    {
      forall j | 0 <= j < 4
        ensures inv[i][j] == inv'[i][j]
      {
        assert Column(inv, j)[i] == Column(inv', j)[i];
      }
    }
  }

  // ---------------------------------------------------------------------------
  // homogenize_points, homogenize_vectors

  /** Appends a trailing 1: a location, to which translation applies. */
  function HomogenizePoints(p: Vector): (r: Vector)
    ensures |r| == |p| + 1 && r[..|p|] == p && r[|p|] == 1.0
  {
    p + [1.0]
  }

  /** Appends a trailing 0: a direction, to which translation does not apply. */
  function HomogenizeVectors(v: Vector): (r: Vector)
    ensures |r| == |v| + 1 && r[..|v|] == v && r[|v|] == 0.0
  {
    v + [0.0]
  }

  /** `homogenize_vectors` on a batch of rows: a zero column is appended. */
  function HomogenizeVectorRows(m: Matrix): (r: Matrix)
    ensures |r| == |m|
    ensures forall i :: 0 <= i < |m| ==> |r[i]| == |m[i]| + 1 && r[i][..|m[i]|] == m[i] && r[i][|m[i]|] == 0.0
  {
    seq(|m|, i requires 0 <= i < |m| => HomogenizeVectors(m[i]))
  }

  // ---------------------------------------------------------------------------
  // transform_rigid, transform_world2cam, transform_cam2world

  function TransformRigid(xyz: Vector, transform: Matrix): (r: Vector)
    requires |xyz| == 4 && IsMatrix(transform, 4, 4)
    ensures |r| == 4
  {
    MatVec(transform, xyz)
  }

  /** Applies the inverse of the camera-to-world pose; the inverse is given. */
  function TransformWorld2Cam(xyz: Vector, cam2world: Matrix, world2cam: Matrix): (r: Vector)
    requires |xyz| == 4 && IsInverse(world2cam, cam2world)
    ensures |r| == 4
  {
    TransformRigid(xyz, world2cam)
  }

  /** Applies the camera-to-world pose itself, with no inversion. */
  function TransformCam2World(xyz: Vector, cam2world: Matrix): (r: Vector)
    requires |xyz| == 4 && IsMatrix(cam2world, 4, 4)
    ensures |r| == 4
  {
    TransformRigid(xyz, cam2world)
  }

  lemma TransformRigidIdentity(xyz: Vector)
    requires |xyz| == 4
    ensures TransformRigid(xyz, Identity(4)) == xyz
  {
    MatVecIdentity(xyz);
  }

  /** A matrix with bottom row [0, 0, 0, 1] keeps the trailing component:
      points stay points and vectors stay vectors. */
  lemma TransformRigidKeepsTrailing(xyz: Vector, transform: Matrix)
    requires |xyz| == 4 && IsMatrix(transform, 4, 4)
    requires transform[3] == [0.0, 0.0, 0.0, 1.0]
    ensures TransformRigid(xyz, transform)[3] == xyz[3]
  {
    DotSingle(transform[3], xyz, 3);
  }

  /** For a vector (trailing 0) the fourth column, the translation, has no effect. */
  lemma TransformRigidVectorIgnoresTranslation(xyz: Vector, transform: Matrix, transform': Matrix)
    requires |xyz| == 4 && IsMatrix(transform, 4, 4) && IsMatrix(transform', 4, 4)
    requires xyz[3] == 0.0
    requires forall i, j :: 0 <= i < 4 && 0 <= j < 3 ==> transform[i][j] == transform'[i][j]
    ensures TransformRigid(xyz, transform) == TransformRigid(xyz, transform')
  {
    forall i | 0 <= i < 4
      ensures TransformRigid(xyz, transform)[i] == TransformRigid(xyz, transform')[i]
    {
      DotIgnoresZeroComponent(transform[i], transform'[i], xyz, 3);
    }
  }

  /** Camera to world and back again is the identity. */
  lemma World2CamAfterCam2World(xyz: Vector, cam2world: Matrix, world2cam: Matrix)
    requires |xyz| == 4 && IsInverse(world2cam, cam2world)
    ensures TransformWorld2Cam(TransformCam2World(xyz, cam2world), cam2world, world2cam) == xyz
  {
    MatVecMatMul(world2cam, cam2world, xyz);
    MatVecIdentity(xyz);
  }

  /** World to camera and back again is the identity. */
  lemma Cam2WorldAfterWorld2Cam(xyz: Vector, cam2world: Matrix, world2cam: Matrix)
    requires |xyz| == 4 && IsInverse(world2cam, cam2world)
    ensures TransformCam2World(TransformWorld2Cam(xyz, cam2world, world2cam), cam2world) == xyz
  {
    MatVecMatMul(cam2world, world2cam, xyz);
    MatVecIdentity(xyz);
  }

  // ---------------------------------------------------------------------------
  // project

  /** The 3x4 projection operator: the intrinsics with a zero fourth column. */
  function ProjectionOperator(intrinsics: Matrix): (p: Matrix)
    requires IsMatrix(intrinsics, 3, 3)
    ensures IsMatrix(p, 3, 4)
  {
    HomogenizeVectorRows(intrinsics)
  }

  /** The homogeneous image coordinate (u, v, w). */
  function ImageCoords(xyz: Vector, intrinsics: Matrix): (h: Vector)
    requires |xyz| == 4 && IsMatrix(intrinsics, 3, 3)
    ensures |h| == 3
  {
    MatVec(ProjectionOperator(intrinsics), xyz)
  }

  /** The w of the homogeneous image coordinate, the divisor of the projection:
      the third intrinsics row applied to the first three components, whatever
      the fourth. */
  function Depth(xyz: Vector, intrinsics: Matrix): (w: real)
    requires |xyz| == 4 && IsMatrix(intrinsics, 3, 3)
    ensures w == Dot(intrinsics[2], xyz[..3])
  {
    ImageCoordsFromIntrinsics(xyz, intrinsics);
    ImageCoords(xyz, intrinsics)[2]
  }

  /** Pinhole projection to (u / w, v / w); the result lies on the ray through (u, v, w). */
  function Project(xyz: Vector, intrinsics: Matrix): (r: Vector)
    requires |xyz| == 4 && IsMatrix(intrinsics, 3, 3)
    requires Depth(xyz, intrinsics) != 0.0
    ensures |r| == 2
    ensures r[0] * Depth(xyz, intrinsics) == ImageCoords(xyz, intrinsics)[0]
    ensures r[1] * Depth(xyz, intrinsics) == ImageCoords(xyz, intrinsics)[1]
  {
    var h := ImageCoords(xyz, intrinsics);
    [h[0] / h[2], h[1] / h[2]]
  }

  /** Each image coordinate is an intrinsics row applied to the first three
      components; the fourth component contributes nothing. */
  lemma {:induction false} ImageCoordsFromIntrinsics(xyz: Vector, intrinsics: Matrix)
    requires |xyz| == 4 && IsMatrix(intrinsics, 3, 3)
    ensures forall i :: 0 <= i < 3 ==> ImageCoords(xyz, intrinsics)[i] == Dot(intrinsics[i], xyz[..3])
  {
    forall i | 0 <= i < 3
      ensures ImageCoords(xyz, intrinsics)[i] == Dot(intrinsics[i], xyz[..3])
    {
      assert ProjectionOperator(intrinsics)[i] == intrinsics[i] + [0.0];
      DotPadZero(intrinsics[i], xyz);
    }
  }

  /** The projection is the ratio of intrinsics rows applied to the first three components. */
  lemma ProjectIsRatio(xyz: Vector, intrinsics: Matrix)
    requires |xyz| == 4 && IsMatrix(intrinsics, 3, 3)
    requires Depth(xyz, intrinsics) != 0.0
    ensures Project(xyz, intrinsics) == [Dot(intrinsics[0], xyz[..3]) / Dot(intrinsics[2], xyz[..3]),
                                         Dot(intrinsics[1], xyz[..3]) / Dot(intrinsics[2], xyz[..3])]
  {
    ImageCoordsFromIntrinsics(xyz, intrinsics);
  }

  /** The projection does not depend on the fourth homogeneous component. */
  lemma ProjectIgnoresFourth(xyz: Vector, intrinsics: Matrix, t: real)
    requires |xyz| == 4 && IsMatrix(intrinsics, 3, 3)
    requires Depth(xyz, intrinsics) != 0.0
    ensures Depth(xyz[..3] + [t], intrinsics) == Depth(xyz, intrinsics)
    ensures Project(xyz[..3] + [t], intrinsics) == Project(xyz, intrinsics)
  {
    var xyz' := xyz[..3] + [t];
    assert xyz'[..3] == xyz[..3];
    ImageCoordsFromIntrinsics(xyz, intrinsics);
    ImageCoordsFromIntrinsics(xyz', intrinsics);
  }

  /** The first three components scaled by s (the fourth kept as it is). */
  function ScaleSpatial(s: real, xyz: Vector): (r: Vector)
    requires |xyz| == 4
    ensures |r| == 4 && r[3] == xyz[3]
    ensures forall i :: 0 <= i < 3 ==> r[i] == s * xyz[i]
  {
    [s * xyz[0], s * xyz[1], s * xyz[2], xyz[3]]
  }

  /** Proof helper: a ratio is unchanged when both terms are scaled by s != 0. */
  lemma RatioScaleInvariant(a: real, b: real, a': real, b': real, s: real)
    requires b != 0.0 && s != 0.0 && a' == s * a && b' == s * b
    ensures a' / b' == a / b
  {
  }

  /** Scaling the camera-space point scales every image coordinate. */
  lemma ImageCoordsScale(xyz: Vector, intrinsics: Matrix, s: real)
    requires |xyz| == 4 && IsMatrix(intrinsics, 3, 3)
    ensures forall i :: 0 <= i < 3 ==>
      ImageCoords(ScaleSpatial(s, xyz), intrinsics)[i] == s * ImageCoords(xyz, intrinsics)[i]
  {
    var xyz' := ScaleSpatial(s, xyz);
    forall i | 0 <= i < 3
      ensures xyz'[..3][i] == Scale(s, xyz[..3])[i]
    {
    }
    assert xyz'[..3] == Scale(s, xyz[..3]);
    ImageCoordsFromIntrinsics(xyz, intrinsics);
    ImageCoordsFromIntrinsics(xyz', intrinsics);
    forall i | 0 <= i < 3
      ensures ImageCoords(xyz', intrinsics)[i] == s * ImageCoords(xyz, intrinsics)[i]
    {
      DotScaleRight(intrinsics[i], xyz[..3], s);
    }
  }

  /** The projection is invariant under a non-zero scaling of the camera-space
      point, depth included, because it is a ratio. */
  lemma ProjectScaleInvariant(xyz: Vector, intrinsics: Matrix, s: real)
    requires |xyz| == 4 && IsMatrix(intrinsics, 3, 3)
    requires Depth(xyz, intrinsics) != 0.0 && s != 0.0
    ensures Depth(ScaleSpatial(s, xyz), intrinsics) == s * Depth(xyz, intrinsics)
    ensures Project(ScaleSpatial(s, xyz), intrinsics) == Project(xyz, intrinsics)
  {
    var xyz' := ScaleSpatial(s, xyz);
    ImageCoordsScale(xyz, intrinsics, s);
    var h, h' := ImageCoords(xyz, intrinsics), ImageCoords(xyz', intrinsics);
    assert h'[2] == s * h[2];
    RatioScaleInvariant(h[0], h[2], h'[0], h'[2], s);
    RatioScaleInvariant(h[1], h[2], h'[1], h'[2], s);
  }
}
