/** Value types the intersection engine works on: points, rays, mesh faces,
    meshes, the derived triangles and bounding circles. Coordinates are reals:
    the model keeps which component goes where, not the float rounding. */
module Geometry {

  datatype Option<T> = None | Some(value: T)

  datatype Point3 = Point3(x: real, y: real, z: real)

  /** A ray: its start point (Position) and its direction vector. */
  datatype Ray = Ray(position: Point3, direction: Point3)

  /** A mesh face: three or four vertex indices and the quad tag. Indices are
      plain integers, so a malformed face may point outside the vertex list. */
  datatype Face = Face(a: int, b: int, c: int, d: int, isQuad: bool)

  datatype Mesh = Mesh(vertices: seq<Point3>, faces: seq<Face>)

  /** Three vertex positions, copied out of a mesh. */
  datatype Triangle = Triangle(v0: Point3, v1: Point3, v2: Point3)

  /** The 2D footprint of a mesh used to cull rays before triangle tests. */
  datatype BoundingCircle = BoundingCircle(originX: real, originY: real, radius: real)

  /** The ray/triangle test: true when the Moller-Trumbore routine returns a
      distance rather than NaN. Its arithmetic is not part of this model. */
  type TriangleTest = (Ray, Triangle) -> bool

  /** Does index i address a vertex of m? Anything else throws in the source. */
  predicate InRange(m: Mesh, i: int)
  {
    0 <= i < |m.vertices|
  }

  /** A face whose every index that the code dereferences is in range. */
  predicate ValidFace(m: Mesh, f: Face)
  {
    InRange(m, f.a) && InRange(m, f.b) && InRange(m, f.c) && (f.isQuad ==> InRange(m, f.d))
  }

  predicate AllFacesValid(m: Mesh)
  {
    forall i :: 0 <= i < |m.faces| ==> ValidFace(m, m.faces[i])
  }

  /** Triangle (A, B, C) of a face whose first three indices are in range. */
  function FirstTriangle(m: Mesh, f: Face): Triangle
    requires InRange(m, f.a) && InRange(m, f.b) && InRange(m, f.c)
  {
    Triangle(m.vertices[f.a], m.vertices[f.b], m.vertices[f.c])
  }

  /** Triangle (A, C, D): the second half of a quad split along its A-C diagonal. */
  function SecondTriangle(m: Mesh, f: Face): Triangle
    requires InRange(m, f.a) && InRange(m, f.c) && InRange(m, f.d)
  {
    Triangle(m.vertices[f.a], m.vertices[f.c], m.vertices[f.d])
  }
}
