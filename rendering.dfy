/** The point-cloud rasteriser: every vertex is taken into every camera's
    space, projected, turned into a pixel index and stamped black onto a
    white canvas of one H x W slice per camera.
 */
module Rendering {

  import opened Geometry

  // ---------------------------------------------------------------------------
  // Pixel indices: round, then clamp onto the frame

  /** Rounds to the nearest integer, ties to the even one (as `torch.round`). */
  function RoundHalfEven(x: real): (r: int)
    ensures x - 0.5 <= r as real <= x + 0.5
    ensures (r as real - x == 0.5 || x - r as real == 0.5) ==> r % 2 == 0
  {
    var f := x.Floor;
    var frac := x - f as real;
    if frac < 0.5 then f
    else if frac > 0.5 then f + 1
    else if f % 2 == 0 then f
    else f + 1
  }

  /** The two properties of RoundHalfEven determine its result. */
  lemma RoundHalfEvenUnique(x: real, k: int)
    requires x - 0.5 <= k as real <= x + 0.5
    requires (k as real - x == 0.5 || x - k as real == 0.5) ==> k % 2 == 0
    ensures k == RoundHalfEven(x)
  {
  }

  lemma RoundHalfEvenMonotone(x: real, y: real)
    requires x <= y
    ensures RoundHalfEven(x) <= RoundHalfEven(y)
  {
  }

  lemma RoundHalfEvenOfInteger(n: int)
    ensures RoundHalfEven(n as real) == n
  {
  }

  /** The point of [lo, hi] nearest to i (as `Tensor.clamp(lo, hi)`). */
  function Clamp(i: int, lo: int, hi: int): (r: int)
    requires lo <= hi
    ensures lo <= r <= hi
    ensures forall k :: lo <= k <= hi ==> Distance(r, i) <= Distance(k, i)
  {
    if i < lo then lo else if i > hi then hi else i
  }

  lemma RoundClampMonotone(t: real, t': real, hi: int)
    requires t <= t' && 0 <= hi
    ensures Clamp(RoundHalfEven(t), 0, hi) <= Clamp(RoundHalfEven(t'), 0, hi)
  {
    RoundHalfEvenMonotone(t, t');
  }

  function Distance(a: int, b: int): nat {
    if a <= b then b - a else a - b
  }

  /** The index along an axis of `size` pixels of a normalised coordinate:
      `round(coord * (size - 1))` clamped into [0, size - 1]. */
  function PixelIndex(coord: real, size: int): (r: int)
    requires size >= 1
    ensures 0 <= r < size
  {
    Clamp(RoundHalfEven(coord * (size - 1) as real), 0, size - 1)
  }

  /** Inside the frame the clamp has no effect. */
  lemma PixelIndexInFrame(coord: real, size: int)
    requires size >= 1 && 0.0 <= coord <= 1.0
    ensures PixelIndex(coord, size) == RoundHalfEven(coord * (size - 1) as real)
  {
    ScaledCoordBounds(coord, size);
    RoundInRange(coord * (size - 1) as real, size - 1);
  }

  /** Proof helper: a value in [0, hi] rounds into [0, hi]. */
  lemma RoundInRange(t: real, hi: int)
    requires 0.0 <= t <= hi as real
    ensures 0 <= RoundHalfEven(t) <= hi
  {
  }

  /** Proof helper: where coord * (size - 1) lies relative to 0 and size - 1. */
  lemma ScaledCoordBounds(coord: real, size: int)
    requires size >= 1
    ensures 0.0 <= coord ==> 0.0 <= coord * (size - 1) as real
    ensures coord <= 0.0 ==> coord * (size - 1) as real <= 0.0
    ensures coord <= 1.0 ==> coord * (size - 1) as real <= (size - 1) as real
    ensures coord >= 1.0 ==> coord * (size - 1) as real >= (size - 1) as real
  {
  }

  /** Out-of-frame coordinates are not dropped: they land on the border. */
  lemma PixelIndexBorder(coord: real, size: int)
    requires size >= 1
    ensures coord <= 0.0 ==> PixelIndex(coord, size) == 0
    ensures coord >= 1.0 ==> PixelIndex(coord, size) == size - 1
  {
    ScaledCoordBounds(coord, size);
  }

  /** Proof helper: unfolds PixelIndex, keeping the product out of other proofs. */
  lemma PixelIndexUnfold(coord: real, size: int)
    requires size >= 1
    ensures PixelIndex(coord, size) == Clamp(RoundHalfEven(coord * (size - 1) as real), 0, size - 1)
  {
  }

  /** Proof helper: multiplying by a non-negative factor preserves order. */
  lemma MulMonotone(a: real, b: real, n: real)
    requires a <= b && 0.0 <= n
    ensures a * n <= b * n
  {
  }

  lemma PixelIndexMonotone(coord: real, coord': real, size: int)
    requires size >= 1 && coord <= coord'
    ensures PixelIndex(coord, size) <= PixelIndex(coord', size)
  {
    MulMonotone(coord, coord', (size - 1) as real);
    RoundClampMonotone(coord * (size - 1) as real, coord' * (size - 1) as real, size - 1);
    PixelIndexUnfold(coord, size);
    PixelIndexUnfold(coord', size);
  }

  // ---------------------------------------------------------------------------
  // One (camera, vertex) pair

  /** A camera: its pose, the pose's inverse and its 3x3 intrinsics. */
  predicate ValidCamera(cam2world: Matrix, world2cam: Matrix, intrinsics: Matrix) {
    IsInverse(world2cam, cam2world) && IsMatrix(intrinsics, 3, 3)
  }

  /** The depth w of a world-space vertex seen by a camera. */
  function VertexDepth(vertex: Vector, cam2world: Matrix, world2cam: Matrix, intrinsics: Matrix): real
    requires |vertex| == 3 && ValidCamera(cam2world, world2cam, intrinsics)
  {
    Depth(TransformWorld2Cam(HomogenizePoints(vertex), cam2world, world2cam), intrinsics)
  }

  /** The depth of a vertex is the depth of the camera-space point c that the
      pose maps onto it: the third intrinsics row applied to c's first three
      components. */
  lemma VertexDepthInCameraSpace(vertex: Vector, cam2world: Matrix, world2cam: Matrix, intrinsics: Matrix,
                                 c: Vector)
    requires |vertex| == 3 && ValidCamera(cam2world, world2cam, intrinsics)
    requires |c| == 4 && TransformCam2World(c, cam2world) == HomogenizePoints(vertex)
    ensures VertexDepth(vertex, cam2world, world2cam, intrinsics) == Dot(intrinsics[2], c[..3])
  {
    World2CamAfterCam2World(c, cam2world, world2cam);
  }

  /** The normalised image coordinate of a world-space vertex in a camera. */
  function ProjectVertex(vertex: Vector, cam2world: Matrix, world2cam: Matrix, intrinsics: Matrix): (uv: Vector)
    requires |vertex| == 3 && ValidCamera(cam2world, world2cam, intrinsics)
    requires VertexDepth(vertex, cam2world, world2cam, intrinsics) != 0.0
    ensures |uv| == 2
  {
    Project(TransformWorld2Cam(HomogenizePoints(vertex), cam2world, world2cam), intrinsics)
  }

  /** A vertex projects to the projection of the camera-space point c that the
      pose maps onto it. */
  lemma ProjectVertexInCameraSpace(vertex: Vector, cam2world: Matrix, world2cam: Matrix, intrinsics: Matrix,
                                   c: Vector)
    requires |vertex| == 3 && ValidCamera(cam2world, world2cam, intrinsics)
    requires VertexDepth(vertex, cam2world, world2cam, intrinsics) != 0.0
    requires |c| == 4 && TransformCam2World(c, cam2world) == HomogenizePoints(vertex)
    ensures Depth(c, intrinsics) != 0.0
    ensures ProjectVertex(vertex, cam2world, world2cam, intrinsics) == Project(c, intrinsics)
  {
    World2CamAfterCam2World(c, cam2world, world2cam);
  }

  /** The pixel (x, y) a vertex marks in a camera of the given (W, H) resolution;
      the per-camera form that PixelAt applies to camera b of a Scene. */
  function PixelOf(vertex: Vector, cam2world: Matrix, world2cam: Matrix, intrinsics: Matrix,
                   resolution: (int, int)): (p: (int, int))
    requires |vertex| == 3 && ValidCamera(cam2world, world2cam, intrinsics)
    requires VertexDepth(vertex, cam2world, world2cam, intrinsics) != 0.0
    requires resolution.0 >= 1 && resolution.1 >= 1
    ensures 0 <= p.0 < resolution.0 && 0 <= p.1 < resolution.1
  {
    var uv := ProjectVertex(vertex, cam2world, world2cam, intrinsics);
    (PixelIndex(uv[0], resolution.0), PixelIndex(uv[1], resolution.1))
  }

  // ---------------------------------------------------------------------------
  // The render inputs

  /** The arguments of one render call. `world2cam[b]` is the inverse of
      `extrinsics[b]`, which `render_point_cloud` computes with `cam2world.inverse()`. */
  datatype Scene = Scene(vertices: seq<Vector>, extrinsics: seq<Matrix>, world2cam: seq<Matrix>,
                         intrinsics: seq<Matrix>, resolution: (int, int))

  /** What a render call demands of its arguments: a positive resolution,
      one pose, inverse and intrinsics per camera, 3D vertices, and no
      vertex at depth zero in any camera. */
  predicate Renderable(s: Scene) {
    s.resolution.0 >= 1 && s.resolution.1 >= 1 &&
    |s.world2cam| == |s.extrinsics| && |s.intrinsics| == |s.extrinsics| &&
    (forall v :: 0 <= v < |s.vertices| ==> |s.vertices[v]| == 3) &&
    (forall b :: 0 <= b < |s.extrinsics| ==> ValidCamera(s.extrinsics[b], s.world2cam[b], s.intrinsics[b])) &&
    (forall b, v :: 0 <= b < |s.extrinsics| && 0 <= v < |s.vertices| ==>
       VertexDepth(s.vertices[v], s.extrinsics[b], s.world2cam[b], s.intrinsics[b]) != 0.0)
  }

  /** The pixel (x, y) vertex v marks in camera b: camera b's own pose and intrinsics. */
  function PixelAt(s: Scene, b: int, v: int): (p: (int, int))
    requires Renderable(s) && 0 <= b < |s.extrinsics| && 0 <= v < |s.vertices|
    ensures 0 <= p.0 < s.resolution.0 && 0 <= p.1 < s.resolution.1
  {
    PixelOf(s.vertices[v], s.extrinsics[b], s.world2cam[b], s.intrinsics[b], s.resolution)
  }

  /** One of the first n vertices marks pixel (x, y) of camera b. */
  predicate HitByFirst(s: Scene, n: int, b: int, y: int, x: int)
    requires Renderable(s) && 0 <= b < |s.extrinsics| && 0 <= n <= |s.vertices|
  {
    exists v :: 0 <= v < n && PixelAt(s, b, v) == (x, y)
  }

  /** Some vertex marks pixel (x, y) of camera b. */
  predicate Hit(s: Scene, b: int, y: int, x: int)
    requires Renderable(s) && 0 <= b < |s.extrinsics|
  {
    HitByFirst(s, |s.vertices|, b, y, x)
  }

  lemma HitByFirstStep(s: Scene, n: int, b: int)
    requires Renderable(s) && 0 <= b < |s.extrinsics| && 0 <= n < |s.vertices|
    ensures forall y, x :: HitByFirst(s, n + 1, b, y, x) <==> HitByFirst(s, n, b, y, x) || PixelAt(s, b, n) == (x, y)
  {
  }

  // ---------------------------------------------------------------------------
  // The canvas as a value, and the scatter write

  /** A canvas as nested sequences, indexed [camera][y][x]. */
  type Canvas = seq<seq<seq<real>>>

  /** An index triple into the canvas. */
  datatype Pixel = Pixel(camera: int, y: int, x: int)

  predicate IsCanvas(c: Canvas, batch: nat, height: nat, width: nat) {
    |c| == batch &&
    forall b :: 0 <= b < batch ==> |c[b]| == height && forall y :: 0 <= y < height ==> |c[b][y]| == width
  }

  predicate Fits(c: Canvas, p: Pixel) {
    0 <= p.camera < |c| && 0 <= p.y < |c[p.camera]| && 0 <= p.x < |c[p.camera][p.y]|
  }

  function Cell(c: Canvas, p: Pixel): real
    requires Fits(c, p)
  {
    c[p.camera][p.y][p.x]
  }

  predicate SameShape(c: Canvas, d: Canvas) {
    |c| == |d| &&
    forall b :: 0 <= b < |c| ==> |c[b]| == |d[b]| && forall y :: 0 <= y < |c[b]| ==> |c[b][y]| == |d[b][y]|
  }

  ghost predicate IsBinary(c: Canvas) {
    forall p :: Fits(c, p) ==> Cell(c, p) == 0.0 || Cell(c, p) == 1.0
  }

  /** The freshly allocated canvas: every pixel white. */
  function Ones(batch: nat, height: nat, width: nat): (c: Canvas)
    ensures IsCanvas(c, batch, height, width)
  {
    seq(batch, _ => seq(height, _ => seq(width, _ => 1.0)))
  }

  /** Sets one pixel to black and leaves every other pixel as it was. */
  function Paint(c: Canvas, p: Pixel): (d: Canvas)
    requires Fits(c, p)
    ensures SameShape(d, c)
    ensures forall q :: Fits(c, q) ==> Cell(d, q) == if q == p then 0.0 else Cell(c, q)
  {
    c[p.camera := c[p.camera][p.y := c[p.camera][p.y][p.x := 0.0]]]
  }

  predicate AllFit(c: Canvas, writes: seq<Pixel>) {
    forall i :: 0 <= i < |writes| ==> Fits(c, writes[i])
  }

  lemma SameShapeFits(c: Canvas, d: Canvas, writes: seq<Pixel>)
    requires SameShape(d, c) && AllFit(c, writes)
    ensures AllFit(d, writes)
  {
  }

  /** The scatter assignment `canvas[b, y, x] = 0`, one index triple after another. */
  function Scatter(c: Canvas, writes: seq<Pixel>): (d: Canvas)
    requires AllFit(c, writes)
    ensures SameShape(d, c)
    decreases |writes|
  {
    if writes == [] then c
    else
      var d := Paint(c, writes[0]);
      SameShapeFits(c, d, writes[1..]);
      Scatter(d, writes[1..])
  }

  /** After the scatter a pixel is black exactly when it was written or was black before. */
  lemma {:induction false} ScatterCell(c: Canvas, writes: seq<Pixel>)
    requires AllFit(c, writes)
    ensures SameShape(Scatter(c, writes), c)
    ensures forall q :: Fits(c, q) ==> Cell(Scatter(c, writes), q) == if q in writes then 0.0 else Cell(c, q)
    decreases |writes|
  {
    if writes != [] {
      var d := Paint(c, writes[0]);
      SameShapeFits(c, d, writes[1..]);
      ScatterCell(d, writes[1..]);
      forall q | Fits(c, q)
        ensures Cell(Scatter(c, writes), q) == if q in writes then 0.0 else Cell(c, q)
      {
        assert Fits(d, q);
        assert q in writes <==> q == writes[0] || q in writes[1..];
      }
    }
  }

  /** Two canvases of one shape that agree on every pixel are equal. */
  lemma CanvasExtensionality(c: Canvas, d: Canvas)
    requires SameShape(c, d)
    requires forall q :: Fits(c, q) ==> Cell(c, q) == Cell(d, q)
    ensures c == d
  {
    forall b | 0 <= b < |c|
      ensures c[b] == d[b]
    {
      forall y | 0 <= y < |c[b]|
        ensures c[b][y] == d[b][y]
      {
        forall x | 0 <= x < |c[b][y]|
          ensures c[b][y][x] == d[b][y][x]
        {
          assert Fits(c, Pixel(b, y, x));
        }
      }
    }
  }

  /** The scatter depends only on the set of written pixels: the order of the
      writes and repeated writes make no difference. */
  lemma ScatterDependsOnlyOnSet(c: Canvas, writes: seq<Pixel>, writes': seq<Pixel>)
    requires AllFit(c, writes) && AllFit(c, writes')
    requires forall p :: p in writes <==> p in writes'
    ensures Scatter(c, writes) == Scatter(c, writes')
  {
    ScatterCell(c, writes);
    ScatterCell(c, writes');
    CanvasExtensionality(Scatter(c, writes), Scatter(c, writes'));
  }

  /** Scattering the same writes a second time changes nothing. */
  lemma ScatterIdempotent(c: Canvas, writes: seq<Pixel>)
    requires AllFit(c, writes)
    ensures AllFit(Scatter(c, writes), writes)
    ensures Scatter(Scatter(c, writes), writes) == Scatter(c, writes)
  {
    var d := Scatter(c, writes);
    ScatterCell(c, writes);
    SameShapeFits(c, d, writes);
    ScatterCell(d, writes);
    CanvasExtensionality(Scatter(d, writes), d);
  }

  /** A canvas of 0s and 1s stays one. */
  lemma ScatterKeepsBinary(c: Canvas, writes: seq<Pixel>)
    requires AllFit(c, writes) && IsBinary(c)
    ensures IsBinary(Scatter(c, writes))
  {
    ScatterCell(c, writes);
    forall q | Fits(Scatter(c, writes), q)
      ensures Cell(Scatter(c, writes), q) == 0.0 || Cell(Scatter(c, writes), q) == 1.0
    {
      assert Fits(c, q);
    }
  }

  // ---------------------------------------------------------------------------
  // The flattened index lists and the rendered canvas as a value

  /** The index triples of camera b, one per vertex, in vertex order. */
  function CameraWrites(s: Scene, b: int): (writes: seq<Pixel>)
    requires Renderable(s) && 0 <= b < |s.extrinsics|
    ensures |writes| == |s.vertices|
  {
    seq(|s.vertices|, v requires 0 <= v < |s.vertices| =>
      var p := PixelAt(s, b, v); Pixel(b, p.1, p.0))
  }

  /** `flat` is the grid of rows of `count` entries flattened row-major, as
      `flatten()` orders a (camera, vertex) grid: entry b * count + v is grid[b][v]. */
  predicate RowMajor(flat: seq<Pixel>, grid: seq<seq<Pixel>>, count: nat) {
    |flat| == |grid| * count &&
    (forall b :: 0 <= b < |grid| ==> |grid[b]| == count) &&
    forall b, v :: 0 <= b < |grid| && 0 <= v < count ==>
      0 <= b * count + v < |flat| && flat[b * count + v] == grid[b][v]
  }

  /** Proof helper: where entry b * count + v lies relative to the first m rows. */
  lemma RowMajorIndex(b: int, v: int, m: int, count: int)
    requires 0 <= b <= m && 0 <= v < count
    ensures 0 <= b * count + v
    ensures b < m ==> b * count + v < m * count
    ensures b == m ==> b * count + v == m * count + v
  {
    if b < m {
      assert b * count <= (m - 1) * count;
    }
  }

  /** Appending a row to the grid appends its entries to the flattened list. */
  lemma RowMajorAppend(flat: seq<Pixel>, grid: seq<seq<Pixel>>, count: nat, row: seq<Pixel>)
    requires RowMajor(flat, grid, count) && |row| == count
    ensures RowMajor(flat + row, grid + [row], count)
  {
    RowMajorLength(|grid|, count);
    RowMajorAppendEntries(flat, grid, count, row);
    assert forall b :: 0 <= b < |grid + [row]| ==> |(grid + [row])[b]| == count;
  }

  /** Proof helper: every entry of the appended grid. */
  lemma RowMajorAppendEntries(flat: seq<Pixel>, grid: seq<seq<Pixel>>, count: nat, row: seq<Pixel>)
    requires RowMajor(flat, grid, count) && |row| == count
    ensures forall b, v :: 0 <= b < |grid + [row]| && 0 <= v < count ==>
      0 <= b * count + v < |flat + row| && (flat + row)[b * count + v] == (grid + [row])[b][v]
  {
    forall b, v | 0 <= b < |grid + [row]| && 0 <= v < count
      ensures 0 <= b * count + v < |flat + row| && (flat + row)[b * count + v] == (grid + [row])[b][v]
    {
      RowMajorAppendAt(flat, grid, count, row, b, v);
    }
  }

  /** Proof helper: one more row of count entries adds count to the length. */
  lemma RowMajorLength(m: int, count: int)
    ensures (m + 1) * count == m * count + count
  {
  }

  /** Proof helper: one entry of the appended grid. */
  lemma RowMajorAppendAt(flat: seq<Pixel>, grid: seq<seq<Pixel>>, count: nat, row: seq<Pixel>, b: int, v: int)
    requires RowMajor(flat, grid, count) && |row| == count
    requires 0 <= b <= |grid| && 0 <= v < count
    ensures 0 <= b * count + v < |flat + row|
    ensures (flat + row)[b * count + v] == (grid + [row])[b][v]
  {
    RowMajorIndex(b, v, |grid|, count);
    var i := b * count + v;
    if b < |grid| {
      assert (grid + [row])[b] == grid[b] && (flat + row)[i] == flat[i];
    } else {
      assert (grid + [row])[b] == row && (flat + row)[i] == row[v];
    }
  }

  /** The index triples of the first n cameras, one row per camera. */
  function CameraGrid(s: Scene, n: int): (grid: seq<seq<Pixel>>)
    requires Renderable(s) && 0 <= n <= |s.extrinsics|
    ensures |grid| == n
  {
    seq(n, b requires 0 <= b < n => CameraWrites(s, b))
  }

  /** The flattened (batch, y, x) index lists of the first n cameras: the
      (camera, vertex) grid of index triples flattened camera-major. */
  function Writes(s: Scene, n: int): (writes: seq<Pixel>)
    requires Renderable(s) && 0 <= n <= |s.extrinsics|
    ensures RowMajor(writes, CameraGrid(s, n), |s.vertices|)
  {
    if n == 0 then []
    else
      var prefix := Writes(s, n - 1);
      RowMajorAppend(prefix, CameraGrid(s, n - 1), |s.vertices|, CameraWrites(s, n - 1));
      assert CameraGrid(s, n - 1) + [CameraWrites(s, n - 1)] == CameraGrid(s, n);
      prefix + CameraWrites(s, n - 1)
  }

  /** A triple is written exactly when its camera is among the first n and
      some vertex marks that pixel in that camera. */
  lemma {:induction false} WritesMembership(s: Scene, n: int)
    requires Renderable(s) && 0 <= n <= |s.extrinsics|
    ensures forall p :: p in Writes(s, n) <==> 0 <= p.camera < n && Hit(s, p.camera, p.y, p.x)
  {
    if n > 0 {
      WritesMembership(s, n - 1);
      var b := n - 1;
      forall p
        ensures p in CameraWrites(s, b) <==> p.camera == b && Hit(s, b, p.y, p.x)
      {
        if p in CameraWrites(s, b) {
          var v :| 0 <= v < |s.vertices| && CameraWrites(s, b)[v] == p;
          assert PixelAt(s, b, v) == (p.x, p.y);
        }
        if p.camera == b && Hit(s, b, p.y, p.x) {
          var v :| 0 <= v < |s.vertices| && PixelAt(s, b, v) == (p.x, p.y);
          assert CameraWrites(s, b)[v] == p;
        }
      }
    }
  }

  lemma WritesFit(s: Scene)
    requires Renderable(s)
    ensures AllFit(Ones(|s.extrinsics|, s.resolution.1, s.resolution.0), Writes(s, |s.extrinsics|))
  {
    var writes := Writes(s, |s.extrinsics|);
    WritesMembership(s, |s.extrinsics|);
    forall i | 0 <= i < |writes|
      ensures Fits(Ones(|s.extrinsics|, s.resolution.1, s.resolution.0), writes[i])
    {
      var p := writes[i];
      assert p in writes;
      var v :| 0 <= v < |s.vertices| && PixelAt(s, p.camera, v) == (p.x, p.y);
    }
  }

  /** The rendered canvas as a value: the all-white canvas with the flattened
      index triples of every (camera, vertex) pair scattered onto it. */
  function Rasterize(s: Scene): (c: Canvas)
    requires Renderable(s)
    ensures IsCanvas(c, |s.extrinsics|, s.resolution.1, s.resolution.0)
    ensures IsBinary(c)
    ensures forall b, y, x :: 0 <= b < |s.extrinsics| && 0 <= y < s.resolution.1 && 0 <= x < s.resolution.0 ==>
      c[b][y][x] == if Hit(s, b, y, x) then 0.0 else 1.0
  {
    var ones := Ones(|s.extrinsics|, s.resolution.1, s.resolution.0);
    var writes := Writes(s, |s.extrinsics|);
    RasterizeCells(s);
    ScatterKeepsBinary(ones, writes);
    Scatter(ones, writes)
  }

  lemma RasterizeCells(s: Scene)
    requires Renderable(s)
    ensures AllFit(Ones(|s.extrinsics|, s.resolution.1, s.resolution.0), Writes(s, |s.extrinsics|))
    ensures IsCanvas(Scatter(Ones(|s.extrinsics|, s.resolution.1, s.resolution.0), Writes(s, |s.extrinsics|)),
                     |s.extrinsics|, s.resolution.1, s.resolution.0)
    ensures forall b, y, x :: 0 <= b < |s.extrinsics| && 0 <= y < s.resolution.1 && 0 <= x < s.resolution.0 ==>
      Scatter(Ones(|s.extrinsics|, s.resolution.1, s.resolution.0), Writes(s, |s.extrinsics|))[b][y][x]
        == if Hit(s, b, y, x) then 0.0 else 1.0
  {
    var ones := Ones(|s.extrinsics|, s.resolution.1, s.resolution.0);
    var writes := Writes(s, |s.extrinsics|);
    WritesFit(s);
    WritesMembership(s, |s.extrinsics|);
    ScatterCell(ones, writes);
    forall b, y, x | 0 <= b < |s.extrinsics| && 0 <= y < s.resolution.1 && 0 <= x < s.resolution.0
      ensures Scatter(ones, writes)[b][y][x] == if Hit(s, b, y, x) then 0.0 else 1.0
    {
      assert Fits(ones, Pixel(b, y, x));
    }
  }

  /** With no vertices every pixel of every camera stays white. */
  lemma {:induction false} EmptyPointCloudIsWhite(s: Scene)
    requires Renderable(s) && |s.vertices| == 0
    ensures Rasterize(s) == Ones(|s.extrinsics|, s.resolution.1, s.resolution.0)
  {
    var ones := Ones(|s.extrinsics|, s.resolution.1, s.resolution.0);
    CanvasExtensionality(Rasterize(s), ones);
  }

  // ---------------------------------------------------------------------------
  // render_point_cloud

  /** Renders the vertices into one H x W silhouette per camera: pixels hit by
      some vertex are 0, all others 1. `world2cam[b]` is the inverse of
      `extrinsics[b]`; `resolution` is (W, H). */
  method RenderPointCloud(vertices: seq<Vector>, extrinsics: seq<Matrix>, world2cam: seq<Matrix>,
                          intrinsics: seq<Matrix>, resolution: (int, int) := (256, 256))
    returns (canvas: array3<real>)
    requires Renderable(Scene(vertices, extrinsics, world2cam, intrinsics, resolution))
    ensures fresh(canvas)
    ensures canvas.Length0 == |extrinsics| && canvas.Length1 == resolution.1 && canvas.Length2 == resolution.0
    ensures forall b, y, x :: 0 <= b < canvas.Length0 && 0 <= y < canvas.Length1 && 0 <= x < canvas.Length2 ==>
      canvas[b, y, x] == if Hit(Scene(vertices, extrinsics, world2cam, intrinsics, resolution), b, y, x) then 0.0 else 1.0
    ensures forall b, y, x :: 0 <= b < canvas.Length0 && 0 <= y < canvas.Length1 && 0 <= x < canvas.Length2 ==>
      canvas[b, y, x] == Rasterize(Scene(vertices, extrinsics, world2cam, intrinsics, resolution))[b][y][x]
    ensures |vertices| == 0 ==>
      forall b, y, x :: 0 <= b < canvas.Length0 && 0 <= y < canvas.Length1 && 0 <= x < canvas.Length2 ==>
        canvas[b, y, x] == 1.0
  {
    var s := Scene(vertices, extrinsics, world2cam, intrinsics, resolution);
    var batch, width, height := |extrinsics|, resolution.0, resolution.1;
    canvas := new real[batch, height, width]((_, _, _) => 1.0);
    var b := 0;
    while b < batch
      invariant 0 <= b <= batch
      invariant forall c, y, x :: 0 <= c < batch && 0 <= y < height && 0 <= x < width ==>
        canvas[c, y, x] == if c < b && Hit(s, c, y, x) then 0.0 else 1.0
    {
      var v := 0;
      while v < |vertices|
        invariant 0 <= v <= |vertices|
        invariant forall c, y, x :: 0 <= c < batch && 0 <= y < height && 0 <= x < width ==>
          canvas[c, y, x] == if (c < b && Hit(s, c, y, x)) || (c == b && HitByFirst(s, v, c, y, x)) then 0.0 else 1.0
      {
        var p := PixelAt(s, b, v);
        canvas[b, p.1, p.0] := 0.0;
        HitByFirstStep(s, v, b);
        v := v + 1;
      }
      b := b + 1;
    }
  }
}
