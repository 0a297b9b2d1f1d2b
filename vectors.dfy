/** Three-component real vectors: the part of the host vector library that the
    simulation uses (component-wise sum and difference, scaling, division by
    a scalar).  The Euclidean length needs a square root, which Dafny's reals
    lack, so the length is supplied from outside as a function, and
    `IsMagnitude` states the two properties of a length the simulation
    relies on. */
module Vectors {

  datatype Vec3 = Vec3(x: real, y: real, z: real) {

    function Plus(o: Vec3): Vec3 {
      Vec3(x + o.x, y + o.y, z + o.z)
    }

    function Minus(o: Vec3): Vec3 {
      Vec3(x - o.x, y - o.y, z - o.z)
    }

    function Times(c: real): Vec3 {
      Vec3(x * c, y * c, z * c)
    }

    function Over(c: real): Vec3
      requires c != 0.0
    {
      Vec3(x / c, y / c, z / c)
    }
  }

  const Zero: Vec3 := Vec3(0.0, 0.0, 0.0)

  /** `m` behaves as a length: it is never negative, and it is zero exactly
      for the zero vector. */
  ghost predicate IsMagnitude(m: Vec3 -> real) {
    forall v: Vec3 :: m(v) >= 0.0 && (m(v) == 0.0 <==> v == Zero)
  }

  /** Dividing and then scaling, component by component. */
  lemma OverTimes(v: Vec3, c: real, k: real)
    requires c != 0.0
    ensures v.Over(c).Times(k) == Vec3((v.x / c) * k, (v.y / c) * k, (v.z / c) * k)
  {
  }

  /** Adding a negated vector is subtracting it. */
  lemma PlusNegated(v: Vec3, w: Vec3)
    ensures v.Plus(Zero.Minus(w)) == v.Minus(w)
  {
  }

  /** The difference of two points is the zero vector exactly when the
      points coincide. */
  lemma MinusZero(p: Vec3, q: Vec3)
    ensures p.Minus(q) == Zero <==> p == q
  {
  }
}
