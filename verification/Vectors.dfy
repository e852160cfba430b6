/** Vectors of three reals, and the products the renderer and the view need. */
module Vectors {

  datatype Vec = Vec(x: real, y: real, z: real)

  const ZERO: Vec := Vec(0.0, 0.0, 0.0)

  function Dot(u: Vec, v: Vec): real {
    u.x * v.x + u.y * v.y + u.z * v.z
  }

  function Plus(u: Vec, v: Vec): Vec {
    Vec(u.x + v.x, u.y + v.y, u.z + v.z)
  }

  function Minus(u: Vec, v: Vec): Vec {
    Vec(u.x - v.x, u.y - v.y, u.z - v.z)
  }

  function Times(k: real, v: Vec): Vec {
    Vec(k * v.x, k * v.y, k * v.z)
  }

  function DistanceSquared(u: Vec, v: Vec): real {
    Dot(Minus(u, v), Minus(u, v))
  }

  lemma DistanceByComponents(u: Vec, v: Vec)
    ensures
      DistanceSquared(u, v)
      == (u.x - v.x) * (u.x - v.x) + (u.y - v.y) * (u.y - v.y) + (u.z - v.z) * (u.z - v.z)
  {
  }
}
