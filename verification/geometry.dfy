/**
 * Immutable 2D vectors over the reals, as used by the game world for positions
 * and velocities. Lengths are never computed: every comparison of a distance
 * with a non-negative bound is stated on squared lengths, which is exact over
 * the reals.
 */
module Geometry {

  datatype Vec = Vec(x: real, y: real)

  const Zero := Vec(0.0, 0.0)

  function Add(a: Vec, b: Vec): Vec {
    Vec(a.x + b.x, a.y + b.y)
  }

  function Sub(a: Vec, b: Vec): Vec {
    Vec(a.x - b.x, a.y - b.y)
  }

  function Scale(a: Vec, k: real): Vec {
    Vec(a.x * k, a.y * k)
  }

  function Dot(a: Vec, b: Vec): real {
    a.x * b.x + a.y * b.y
  }

  /** The vector turned a quarter left: the unit tangent built from a unit normal. */
  function Perp(a: Vec): Vec {
    Vec(-a.y, a.x)
  }

  function NormSq(a: Vec): real {
    Dot(a, a)
  }

  function DistSq(a: Vec, b: Vec): real {
    NormSq(Sub(a, b))
  }

  predicate IsUnit(u: Vec) {
    u.x * u.x + u.y * u.y == 1.0
  }

  /** `|a - b| <= r`, i.e. `a.distFrom(b) <= r`, stated without a square root. */
  predicate WithinDist(a: Vec, b: Vec, r: real) {
    0.0 <= r && DistSq(a, b) <= r * r
  }

  lemma NormSqNonNegative(a: Vec)
    ensures NormSq(a) >= 0.0
  {
    assert a.x * a.x >= 0.0 && a.y * a.y >= 0.0;
  }

  /** A unit vector and its tangent form an orthonormal basis: any vector is the sum of its two projections. */
  lemma {:induction false} OrthonormalDecomposition(u: Vec, v: Vec)
    requires IsUnit(u)
    ensures Add(Scale(u, Dot(u, v)), Scale(Perp(u), Dot(Perp(u), v))) == v
  {
    var t := Perp(u);
    calc {
      u.x * (u.x * v.x + u.y * v.y) + t.x * (t.x * v.x + t.y * v.y);
      (u.x * u.x + u.y * u.y) * v.x;
      v.x;
    }
    calc {
      u.y * (u.x * v.x + u.y * v.y) + t.y * (t.x * v.x + t.y * v.y);
      (u.x * u.x + u.y * u.y) * v.y;
      v.y;
    }
  }

  /** Projecting `a*u + b*perp(u)` back on the basis recovers the coordinates `a` and `b`. */
  lemma {:induction false} BasisCoordinates(u: Vec, a: real, b: real)
    requires IsUnit(u)
    ensures Dot(u, Add(Scale(u, a), Scale(Perp(u), b))) == a
    ensures Dot(Perp(u), Add(Scale(u, a), Scale(Perp(u), b))) == b
  {
    calc {
      Dot(u, Add(Scale(u, a), Scale(Perp(u), b)));
      u.x * (u.x * a - u.y * b) + u.y * (u.y * a + u.x * b);
      (u.x * u.x + u.y * u.y) * a;
      a;
    }
    calc {
      Dot(Perp(u), Add(Scale(u, a), Scale(Perp(u), b)));
      -u.y * (u.x * a - u.y * b) + u.x * (u.y * a + u.x * b);
      (u.x * u.x + u.y * u.y) * b;
      b;
    }
  }

  /** The squared length of `a*u + b*perp(u)` is `a*a + b*b`. */
  lemma {:induction false} BasisNormSq(u: Vec, a: real, b: real)
    requires IsUnit(u)
    ensures NormSq(Add(Scale(u, a), Scale(Perp(u), b))) == a * a + b * b
  {
    var w := Add(Scale(u, a), Scale(Perp(u), b));
    calc {
      NormSq(w);
      (u.x * a - u.y * b) * (u.x * a - u.y * b) + (u.y * a + u.x * b) * (u.y * a + u.x * b);
      (u.x * u.x + u.y * u.y) * (a * a) + (u.x * u.x + u.y * u.y) * (b * b);
      a * a + b * b;
    }
  }
}
