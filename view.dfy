/**
 * The point of the ground plane `frontToBack` (maze/MazeApp.hpp) compares
 * with the splitting borders.
 *
 * A tile at position (x, y) is drawn at world position (x, 1, y) in
 * maze/MazeApp.cpp, so the ground plane is the world's x-z plane: the eye's
 * x coordinate is compared with borders on axis 0 and its z coordinate with
 * borders on axis 1.  The walk as written compares the eye's y coordinate
 * (its height) on axis 1; `ViewAsWritten` models that and `ViewOf` the
 * corrected comparison, which the rest of the model uses.
 */
module View {
  import opened Geometry
  import opened KdNode
  import opened KdBuild

  /** The eye's coordinate along a split axis of the tile grid: world x on axis 0, world z otherwise. */
  function WorldAlong(eye: Vec3, axis: nat): real
  {
    if axis == 0 then eye.x else eye.z
  }

  /** The ground point `frontToBack` uses as written: the eye's x and y. */
  function ViewAsWritten(eye: Vec3): Vec2
  {
    Vec2(eye.x, eye.y)
  }

  /** The eye's position on the ground plane: its x and z. */
  function ViewOf(eye: Vec3): (v: Vec2)
    ensures Along(v, 0) == WorldAlong(eye, 0) && Along(v, 1) == WorldAlong(eye, 1)
  {
    Vec2(eye.x, eye.z)
  }

  /**
   * With the corrected view the walk enters first the child on the eye's
   * side of the border: if the eye lies below the border every tile of the
   * near child lies at or below it, and otherwise every tile of the near
   * child lies at or above it.
   */
  lemma NearChildHoldsEye(n: Node, eye: Vec3)
    requires n.Valid() && !n.isLeaf && KdOrdered(n)
    ensures WorldAlong(eye, n.axis) < n.border ==>
      NearChild(n, ViewOf(eye)) == n.left &&
      forall t :: t in LeafData(n.left) ==> Coord(t.position, n.axis) as real <= n.border
    ensures WorldAlong(eye, n.axis) >= n.border ==>
      NearChild(n, ViewOf(eye)) == n.right &&
      forall t :: t in LeafData(n.right) ==> n.border <= Coord(t.position, n.axis) as real
  {
  }

  /** As written, the child the walk enters first on axis 1 does not depend on where the eye is along world z. */
  lemma AsWrittenIgnoresDepth(n: Node, eye: Vec3, z: real)
    requires n.Valid() && !n.isLeaf && n.axis == 1
    ensures NearChild(n, ViewAsWritten(eye)) == NearChild(n, ViewAsWritten(Vec3(eye.x, eye.y, z)))
  {
  }

  /**
   * An eye at height 1.7 and world z = 20 in front of a node splitting axis 1
   * at 5: as written the walk enters the left child (tiles at or below 5)
   * first although the eye lies on the right child's side.
   */
  lemma AsWrittenEntersFarSide(n: Node)
    requires n.Valid() && !n.isLeaf && n.axis == 1 && n.border == 5.0
    ensures NearChild(n, ViewAsWritten(Vec3(0.0, 1.7, 20.0))) == n.left
    ensures NearChild(n, ViewOf(Vec3(0.0, 1.7, 20.0))) == n.right
    ensures WorldAlong(Vec3(0.0, 1.7, 20.0), n.axis) > n.border
  {
  }
}
