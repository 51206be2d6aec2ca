# Silhouette renderer: geometry and point-cloud rasteriser

This project models the two components of a small tool that renders a 3D
point cloud into binary silhouette images, one per camera:

- **Geometry** (`geometry.dfy`, module `Geometry`, from `src/geometry.py`):
  homogenisation of points (trailing 1) and vectors (trailing 0), the rigid
  transform as a 4x4 matrix-vector product, world-to-camera and
  camera-to-world conversion with a camera-to-world pose, and pinhole
  projection with the 3x3 intrinsics padded by a zero column, followed by the
  division of (u, v) by w. Vectors are `seq<real>`, matrices are sequences of
  rows. The functions are pure, as in the source, and the promised properties
  are lemmas: identity fixed point, trailing component kept, translation
  ignored by vectors, round trips through the inverse pose, projection
  independent of the fourth component, as a ratio of intrinsics rows, and
  invariant under scaling.
- **Rasteriser** (`rendering.dfy`, module `Rendering`, from
  `src/rendering.py`): for every (camera, vertex) pair the vertex is
  homogenised, taken into that camera's space with the inverse pose,
  projected with that camera's intrinsics and turned into a pixel index
  `round(coord * (size - 1))` (rounding half to even, as `torch.round`),
  clamped into `[0, size - 1]`. `RenderPointCloud` allocates an all-white
  `array3<real>` canvas of shape B x H x W and writes 0 at every such index in
  nested loops over cameras and vertices; its loop invariants say that a cell
  is 0 exactly when a pair processed so far hits it. Beside it, a value model
  (`Writes`, `Scatter`, `Rasterize`) follows the source's flattened
  `(batch, y, x)` index lists and scatter assignment. Lemmas about that model
  prove that the result is binary, that the scatter depends only on the set
  of written pixels (order and repetition do not matter), and that an empty
  point cloud leaves the canvas white. The method's postcondition ties the
  array to the value model cell by cell.
- **Worked example** (`scenarios.dfy`, module `RenderingScenarios`): one
  vertex at (0, 0, 5), an identity pose, intrinsics
  `[[128, 0, 0.5], [0, 128, 0.5], [0, 0, 1]]` and a 256 x 256 canvas mark
  exactly pixel (128, 128), since 127.5 rounds to the even 128.

The inverse of each pose (`cam2world.inverse()` in the source) is passed in as
`world2cam`. The precondition `IsInverse` says that it is a two-sided inverse
of the pose.

The source checks none of its input conditions itself. torch raises a runtime
error for batch shapes that do not broadcast, an exactly singular pose or a
negative resolution, and a zero resolution makes the scatter index out of
bounds. The model makes all of these preconditions. The depth w that `project`
divides by is the third intrinsics row applied to the first three components
(`Depth`); it equals the camera-space z coordinate only when that row is
`[0, 0, 1]`.

## Model

| member | source | states |
|---|---|---|
| `Geometry.HomogenizePoints` | src/geometry.py:5-10 | one entry longer; the original entries are kept as the prefix; the last entry is 1 |
| `Geometry.HomogenizeVectors` | src/geometry.py:13-18 | one entry longer; the original entries are kept as the prefix; the last entry is 0 |
| `Geometry.HomogenizeVectorRows` | src/geometry.py:60 | homogenize_vectors on a batch of rows: every row keeps its entries and gains a trailing 0 (a zero column) |
| `Geometry.MatVec` | src/geometry.py:27 | the `...ij,...j->...i` product has one entry per matrix row |
| `Geometry.MatVecIdentity` | src/geometry.py:27 | the identity matrix times x is x, for every length |
| `Geometry.MatVecMatMul` | src/geometry.py:27 | applying b and then a is the same as applying the matrix product a b |
| `Geometry.TransformRigid` | src/geometry.py:21-27 | maps a homogeneous 4-vector to a homogeneous 4-vector |
| `Geometry.TransformRigidIdentity` | src/geometry.py:21-27 | transform_rigid with the 4x4 identity returns its input |
| `Geometry.TransformRigidKeepsTrailing` | src/geometry.py:21-27 | with bottom row [0, 0, 0, 1] the trailing component is unchanged: points stay points, vectors stay vectors |
| `Geometry.TransformRigidVectorIgnoresTranslation` | src/geometry.py:21-27 | for a vector (trailing 0) two transforms that agree on the first three columns give the same result: translation has no effect |
| `Geometry.IsInverse` | src/geometry.py:38 | stands in for `cam2world.inverse()`: `world2cam` times the pose and the pose times `world2cam` are both the 4x4 identity |
| `Geometry.InverseIsUnique` | src/geometry.py:38 | two matrices that are both two-sided inverses of one pose are equal, so a `world2cam` meeting `IsInverse` is the pose's inverse and nothing else |
| `Geometry.TransformWorld2Cam` | src/geometry.py:30-39 | applies the inverse of the pose, which is given with the two-sided inverse precondition; result is a 4-vector |
| `Geometry.TransformCam2World` | src/geometry.py:42-50 | applies the pose itself, with no inversion; result is a 4-vector |
| `Geometry.World2CamAfterCam2World` | src/geometry.py:38-50 | camera to world, then world to camera, returns the input |
| `Geometry.Cam2WorldAfterWorld2Cam` | src/geometry.py:38-50 | world to camera, then camera to world, returns the input |
| `Geometry.ProjectionOperator` | src/geometry.py:60 | the 3x3 intrinsics padded to a 3x4 operator |
| `Geometry.ImageCoords` | src/geometry.py:62 | the homogeneous image coordinate (u, v, w) has three entries |
| `Geometry.Project` | src/geometry.py:53-66 | two outputs, each lying on the ray through (u, v, w): r[0] * w == u and r[1] * w == v |
| `Geometry.ImageCoordsFromIntrinsics` | src/geometry.py:60-62 | each of u, v, w is the matching intrinsics row applied to the first three components; the fourth contributes nothing |
| `Geometry.Depth` | src/geometry.py:60-65 | w, the divisor of the projection (`homo_coords[..., 2:3]`), is the third intrinsics row applied to xyz[0..3]; the fourth component does not enter |
| `Geometry.ProjectIsRatio` | src/geometry.py:60-65 | project returns exactly (K[0]·xyz[0..3] / K[2]·xyz[0..3], K[1]·xyz[0..3] / K[2]·xyz[0..3]) |
| `Geometry.ProjectIgnoresFourth` | src/geometry.py:60-65 | replacing the fourth homogeneous component by any value changes neither w nor the projection |
| `Geometry.ProjectScaleInvariant` | src/geometry.py:62-65 | scaling xyz[0..3] by any s != 0 scales w by s and leaves the projection unchanged |
| `Rendering.RoundHalfEven` | src/rendering.py:29 | the result is within 1/2 of x, and when x is exactly halfway the result is even |
| `Rendering.RoundHalfEvenUnique` | src/rendering.py:29 | those two properties determine the rounded value: any integer satisfying them is the result |
| `Rendering.RoundHalfEvenMonotone` | src/rendering.py:29 | rounding preserves order |
| `Rendering.RoundHalfEvenOfInteger` | src/rendering.py:29 | an integer rounds to itself |
| `Rendering.Clamp` | src/rendering.py:31 | the result lies in [lo, hi] and is the point of [lo, hi] nearest to the input |
| `Rendering.PixelIndex` | src/rendering.py:28-38 | the index lies in [0, size - 1] |
| `Rendering.PixelIndexInFrame` | src/rendering.py:28-38 | for a coordinate in [0, 1] the clamp has no effect: the index is round(coord * (size - 1)) |
| `Rendering.PixelIndexBorder` | src/rendering.py:28-38 | coordinates left of or above the frame give index 0; those right of or below it give size - 1 (for a scaled coordinate inside the int64 range, see "Left out"); they are clamped, not dropped |
| `Rendering.PixelIndexMonotone` | src/rendering.py:28-38 | a larger normalised coordinate never gives a smaller index (for a scaled coordinate inside the int64 range, see "Left out") |
| `Rendering.VertexDepth` | src/rendering.py:19-25 | the depth w of one (camera, vertex) pair: the vertex homogenised, taken to camera space with the inverse pose, and its w under the camera's intrinsics |
| `Rendering.VertexDepthInCameraSpace` | src/rendering.py:19-25 | the depth of a vertex is the depth of the camera-space point c that the pose maps onto it (`cam2world · c` is the homogenised vertex): the third intrinsics row applied to c[0..3] |
| `Rendering.ProjectVertex` | src/rendering.py:19-25 | a vertex homogenised, taken to camera space with the inverse pose and projected gives two normalised coordinates |
| `Rendering.ProjectVertexInCameraSpace` | src/rendering.py:19-25 | a vertex projects exactly as the camera-space point c that the pose maps onto it (`cam2world · c` is the homogenised vertex), whose depth is non-zero too |
| `Rendering.PixelOf` | src/rendering.py:19-38 | the (x, y) index of a vertex in a camera lies in [0, W - 1] x [0, H - 1] |
| `Rendering.PixelAt` | src/rendering.py:22-25 | vertex v in camera b uses camera b's pose, inverse and intrinsics, and its index lies inside the frame |
| `Rendering.Paint` | src/rendering.py:50 | one write sets its pixel to 0, keeps the shape and leaves every other pixel as it was |
| `Rendering.Scatter` | src/rendering.py:50 | the scatter assignment `canvas[b, y, x] = 0` over a list of index triples keeps the shape of the canvas |
| `Rendering.ScatterCell` | src/rendering.py:50 | after the scatter a pixel is 0 if it is in the write list and otherwise keeps its old value; the shape is kept |
| `Rendering.ScatterDependsOnlyOnSet` | src/rendering.py:50 | two write lists with the same set of pixels give the same canvas, whatever the order and repetitions |
| `Rendering.ScatterIdempotent` | src/rendering.py:50 | scattering the same writes twice equals scattering them once |
| `Rendering.ScatterKeepsBinary` | src/rendering.py:50 | a canvas of 0s and 1s stays one after any scatter |
| `Rendering.Ones` | src/rendering.py:26 | the fresh canvas has shape B x H x W |
| `Rendering.CameraWrites` | src/rendering.py:40-46 | each camera contributes one index triple per vertex |
| `Rendering.Writes` | src/rendering.py:40-46 | the index triples of the (camera, vertex) grid flattened camera-major, as `flatten()` orders the B x N index tensors: with N vertices, entry b * N + v is the triple of vertex v in camera b |
| `Rendering.WritesMembership` | src/rendering.py:40-50 | a (b, y, x) triple is in the flattened index lists exactly when b is a camera and some vertex marks (x, y) in camera b, so writes go only to the vertex's own camera slice |
| `Rendering.WritesFit` | src/rendering.py:28-50 | every flattened index triple lies inside the B x H x W canvas |
| `Rendering.RasterizeCells` | src/rendering.py:26-50 | the all-white canvas after the scatter has shape B x H x W, and a pixel is 0 exactly when some vertex hits it and 1 otherwise |
| `Rendering.Rasterize` | src/rendering.py:26-50 | the rendered canvas as a value: shape B x H x W (B = number of poses, H = resolution[1], W = resolution[0]), only 0s and 1s, 0 exactly at the hit pixels |
| `Rendering.EmptyPointCloudIsWhite` | src/rendering.py:26-50 | with no vertices the rendered canvas is all 1 for every camera |
| `Rendering.RenderPointCloud` | src/rendering.py:7-52 | a fresh B x H x W array, independent of the vertex count; a cell is 0 iff some vertex hits it in that camera, else 1; equal cell by cell to `Rasterize`; all 1 when there are no vertices |
| `RenderingScenarios.SingleVertexProjection` | src/rendering.py:19-25 | the example scene is renderable and its vertex projects onto the principal point (0.5, 0.5) |
| `RenderingScenarios.CentreIndex` | src/rendering.py:28-38 | coordinate 0.5 on a 256-pixel axis gives index 128 |
| `RenderingScenarios.SingleVertexMarksCentre` | src/rendering.py:7-52 | one vertex at (0, 0, 5), identity pose, principal point (0.5, 0.5), 256 x 256: it marks pixel (128, 128), and that is the only black pixel |

## Left out

- `src/puzzle.py` is not part of this model. Its `load_dataset` is file, JSON and image I/O, `convert_dataset` returns its argument, and the quiz and explanation functions only raise `NotImplementedError`.
- Matrix inversion (`cam2world.inverse()`) is a numerical library routine. The inverse is a parameter with a two-sided inverse precondition, and singular poses are excluded by that precondition.
- `PixelIndex`: the source casts `round(coord * (size - 1))` to a 64-bit `long` before the clamp. A finite value outside the int64 range makes that cast undefined in C++ (on common x86 builds it gives the smallest int64, which the clamp then maps to 0). The model keeps the unbounded integer, so such a value is clamped to the nearer border.
- `PixelIndexMonotone`: for the same reason, monotonicity holds in the source only while `coord' * (size - 1)` lies inside the int64 range; beyond it the cast gives the smallest int64 and the index drops to 0.
- `PixelIndexBorder`: for the same reason its "size - 1 to the right of or below the frame" holds in the source only while `coord * (size - 1)` lies inside the int64 range.
- Floating point: arithmetic is over `real`. A zero depth w, which gives infinities or NaN in the source, is a precondition (`Renderable`, `Project`). The cast of a non-finite value to `long` and float32 rounding of `coord * (size - 1)` have no counterpart.
- Broadcasting (`unsqueeze`, `expand_as`, `flatten`, einsum's `...`) is replaced by one call per element and by nested iteration over (camera, vertex) pairs in the same camera-major order. Batch shapes other than that are not modelled.
- Device placement (`device=`) is not modelled.
- The runtime errors torch raises for malformed inputs are not modelled: einsum on batch shapes that do not broadcast, `inverse()` on an exactly singular pose, `ones` with a negative dimension, and the out-of-bounds scatter index that a zero resolution produces. Every such input is excluded by a precondition (`Renderable`, `IsInverse`), so the model has no error results.
- The source never checks the resolution, the vertex width or the camera counts. A positive resolution, 3-component vertices and one pose, inverse and intrinsics per camera are preconditions (`Renderable`).
- `RenderPointCloud` computes each pair's index just before its write, not all indices first. Since the indices do not depend on the canvas, the result is the same.
- The parallel, atomic-per-cell nature of the scatter write is not modelled; the model writes sequentially.
