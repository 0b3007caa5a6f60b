/** Positions are carried around but never computed with: every piece of
    vector arithmetic belongs to an oracle, so a position is an opaque
    triple. */
module Geometry {

  datatype Vec3 = Vec3(x: real, y: real, z: real)
}
