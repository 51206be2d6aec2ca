/** A worked example of the rasteriser: one vertex, one camera. */
module RenderingScenarios {

  import opened Geometry
  import opened Rendering

  /** One vertex at (0, 0, 5) seen by a camera at the origin, at 256 x 256. */
  function SingleVertexScene(): Scene {
    Scene([[0.0, 0.0, 5.0]], [Identity(4)], [Identity(4)],
          [[[128.0, 0.0, 0.5], [0.0, 128.0, 0.5], [0.0, 0.0, 1.0]]], (256, 256))
  }

  lemma IdentityIsOwnInverse()
    ensures IsInverse(Identity(4), Identity(4))
  {
    MatMulIdentityLeft(Identity(4));
  }

  /** The vertex projects onto the principal point (0.5, 0.5) at depth 5. */
  lemma SingleVertexProjection()
    ensures Renderable(SingleVertexScene())
    ensures ProjectVertex(SingleVertexScene().vertices[0], Identity(4), Identity(4),
                          SingleVertexScene().intrinsics[0]) == [0.5, 0.5]
  {
    var s := SingleVertexScene();
    var i4 := Identity(4);
    var k := s.intrinsics[0];
    IdentityIsOwnInverse();
    var xyz := HomogenizePoints(s.vertices[0]);
    MatVecIdentity(xyz);
    assert TransformWorld2Cam(xyz, i4, i4) == xyz == [0.0, 0.0, 5.0, 1.0];
    assert xyz[..3] == [0.0, 0.0, 5.0];
    assert Dot(k[2], xyz[..3]) == 5.0;
    ProjectIsRatio(xyz, k);
    assert Dot(k[0], xyz[..3]) == 2.5;
    assert Dot(k[1], xyz[..3]) == 2.5;
    assert VertexDepth(s.vertices[0], i4, i4, k) == 5.0;
  }

  /** 0.5 * 255 = 127.5 rounds to the even neighbour 128. */
  lemma CentreIndex()
    ensures PixelIndex(0.5, 256) == 128
  {
  }

  /** The vertex lands on pixel (128, 128), the rounding of 0.5 * 255 to even;
      that pixel alone is black. */
  lemma SingleVertexMarksCentre()
    ensures Renderable(SingleVertexScene())
    ensures PixelAt(SingleVertexScene(), 0, 0) == (128, 128)
    ensures forall y, x :: 0 <= y < 256 && 0 <= x < 256 ==>
      Rasterize(SingleVertexScene())[0][y][x] == if y == 128 && x == 128 then 0.0 else 1.0
  {
    var s := SingleVertexScene();
    SingleVertexProjection();
    CentreIndex();
    assert PixelAt(s, 0, 0) == (128, 128);
    forall y, x | 0 <= y < 256 && 0 <= x < 256
      ensures Rasterize(s)[0][y][x] == if y == 128 && x == 128 then 0.0 else 1.0
    {
      assert Hit(s, 0, y, x) <==> PixelAt(s, 0, 0) == (x, y);
    }
  }
}
