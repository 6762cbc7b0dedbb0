/**
 * Values shared by the maze renderer: tile types, tile positions, render
 * objects and the eye position.
 *
 * Tile positions are exact integers (`x = -w+1+2*col`, `y = h-1-2*row`), so
 * they are modelled as `int`; splitting borders and node bounds can be half
 * integers and are `real`.  The source stores all of them as `float`.
 */
module Geometry {

  /** The kind of a grid cell (`GridCell` in maze/MazeApp.hpp). */
  datatype GridCell = Empty | Wall | Finish | Spawn | Coin | Door

  /** A tile position on the ground plane. */
  datatype Point = Point(x: int, y: int)

  /** A positioned tile: what a kd-tree leaf holds. */
  datatype RenderObject = RenderObject(position: Point, cellType: GridCell)

  /** A position in 3-D world space (the tracked eye). */
  datatype Vec3 = Vec3(x: real, y: real, z: real)

  /** A point of the ground plane with real coordinates (what the front-to-back walk compares with borders). */
  datatype Vec2 = Vec2(x: real, y: real)

  /** The coordinate of a tile position on a split axis: x for axis 0, y otherwise. */
  function Coord(p: Point, axis: nat): int
  {
    if axis == 0 then p.x else p.y
  }

  /** The coordinate of a ground point on a split axis: x for axis 0, y otherwise. */
  function Along(v: Vec2, axis: nat): real
  {
    if axis == 0 then v.x else v.y
  }

  /** The sort key of a render object on a split axis. */
  function ObjectKey(axis: nat): RenderObject -> int
  {
    (o: RenderObject) => Coord(o.position, axis)
  }

  /** The sort key of a bare tile position on a split axis. */
  function PointKey(axis: nat): Point -> int
  {
    (p: Point) => Coord(p, axis)
  }
}
