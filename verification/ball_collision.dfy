/**
 * Ball–ball resolution (game-world.ts `resolveBallsCollision`).
 *
 * The source computes the line of centres `n = first − second`, its length
 * and the unit normal `n / |n|` with a square root. Here the length and the
 * unit normal arrive together as a `Contact` that must describe `n`: a
 * non-negative length whose square is `|n|²` and a unit vector that scaled by
 * that length gives back `n`.
 */
module BallCollision {
  import opened Geometry
  import opened GameState

  datatype Contact = Contact(normal: Vec, dist: real)

  /** `k` is the length and unit direction of `n`. */
  predicate IsContact(n: Vec, k: Contact) {
    && k.dist >= 0.0
    && k.dist * k.dist == NormSq(n)
    && IsUnit(k.normal)
    && Scale(k.normal, k.dist) == n
  }

  datatype PairOutcome = PairOutcome(first: Ball, second: Ball, collided: bool)

  /** The source's guard `dist > diameter` agrees with the square-free `WithinDist` test. */
  lemma ApartIffNotWithin(a: Vec, b: Vec, k: Contact, d: real)
    requires IsContact(Sub(a, b), k)
    ensures k.dist > d <==> !WithinDist(a, b, d)
  {
    if d >= 0.0 && k.dist > d {
      assert k.dist * k.dist > d * d by {
        var x, y := k.dist - d, k.dist + d;
        PositiveProduct(x, y);
        assert x * y == k.dist * k.dist - d * d;
      }
    }
    if d >= 0.0 && k.dist <= d {
      assert k.dist * k.dist <= d * d by {
        assert k.dist * k.dist <= k.dist * d;
        assert k.dist * d <= d * d;
      }
    }
  }

  /** The velocity of a ball after the exchange: the other ball's normal component, its own tangential one, times the loss. */
  function Exchanged(un: Vec, own: Vec, other: Vec, loss: real): Vec {
    Scale(Add(Scale(un, Dot(un, other)), Scale(Perp(un), Dot(Perp(un), own))), 1.0 - loss)
  }

  function ResolveBallsCollision(c: Config, a: Ball, b: Ball, k: Contact): (r: PairOutcome)
    // the source's guards: both balls visible and the centres no more than a diameter apart
    ensures r.collided <==> a.visible && b.visible && !(k.dist > c.diameter)
    ensures !r.collided ==> r.first == a && r.second == b
    ensures r.first.color == a.color && r.first.visible == a.visible
    ensures r.second.color == b.color && r.second.visible == b.visible
  {
    if !a.visible || !b.visible then PairOutcome(a, b, false)
    else if k.dist > c.diameter then PairOutcome(a, b, false)
    else Collide(c, a, b, k)
  }

  /** With the true line of centres, the guard is "both visible and centres at most a diameter apart". */
  lemma CollidesIffTouching(c: Config, a: Ball, b: Ball, k: Contact)
    requires IsContact(Sub(a.pos, b.pos), k)
    ensures ResolveBallsCollision(c, a, b, k).collided <==> a.visible && b.visible && WithinDist(a.pos, b.pos, c.diameter)
  {
    ApartIffNotWithin(a.pos, b.pos, k, c.diameter);
  }

  /** The pair is pushed apart symmetrically, along the line of centres, until exactly a diameter separates them. */
  lemma CollisionSeparates(c: Config, a: Ball, b: Ball, k: Contact)
    requires IsContact(Sub(a.pos, b.pos), k)
    requires ResolveBallsCollision(c, a, b, k).collided
    ensures var r := ResolveBallsCollision(c, a, b, k);
      && Add(r.first.pos, r.second.pos) == Add(a.pos, b.pos)
      && Sub(r.first.pos, r.second.pos) == Scale(k.normal, c.diameter)
      && DistSq(r.first.pos, r.second.pos) == c.diameter * c.diameter
  {
    SeparationLemma(a.pos, b.pos, k, c.diameter);
  }

  /**
   * Each ball's new normal component is the other ball's old one, and each
   * keeps its own tangential component, both scaled by the loss.
   */
  lemma CollisionExchangesNormals(c: Config, a: Ball, b: Ball, k: Contact)
    requires IsContact(Sub(a.pos, b.pos), k)
    requires ResolveBallsCollision(c, a, b, k).collided
    ensures var r := ResolveBallsCollision(c, a, b, k);
      && Dot(k.normal, r.first.vel) == (1.0 - c.collisionLoss) * Dot(k.normal, b.vel)
      && Dot(k.normal, r.second.vel) == (1.0 - c.collisionLoss) * Dot(k.normal, a.vel)
      && Dot(Perp(k.normal), r.first.vel) == (1.0 - c.collisionLoss) * Dot(Perp(k.normal), a.vel)
      && Dot(Perp(k.normal), r.second.vel) == (1.0 - c.collisionLoss) * Dot(Perp(k.normal), b.vel)
  {
    var r := ResolveBallsCollision(c, a, b, k);
    assert r == Collide(c, a, b, k);
    ExchangedComponents(k.normal, a.vel, b.vel, c.collisionLoss);
    ExchangedComponents(k.normal, b.vel, a.vel, c.collisionLoss);
  }

  /**
   * The colliding branch of `resolveBallsCollision`: separate the pair along
   * the normal and exchange their normal velocity components.
   * `CollisionSeparates` and `CollisionExchangesNormals` state what it does.
   */
  function Collide(c: Config, a: Ball, b: Ball, k: Contact): PairOutcome {
    var mtd := Scale(k.normal, c.diameter - k.dist);
    var un := k.normal;
    var first := a.(pos := Add(a.pos, Scale(mtd, 0.5)), vel := Exchanged(un, a.vel, b.vel, c.collisionLoss));
    var second := b.(pos := Sub(b.pos, Scale(mtd, 0.5)), vel := Exchanged(un, b.vel, a.vel, c.collisionLoss));
    PairOutcome(first, second, true)
  }

  lemma SeparationLemma(p: Vec, q: Vec, k: Contact, d: real)
    requires IsContact(Sub(p, q), k)
    ensures var mtd := Scale(k.normal, d - k.dist);
      && Add(Add(p, Scale(mtd, 0.5)), Sub(q, Scale(mtd, 0.5))) == Add(p, q)
      && Sub(Add(p, Scale(mtd, 0.5)), Sub(q, Scale(mtd, 0.5))) == Scale(k.normal, d)
      && NormSq(Scale(k.normal, d)) == d * d
  {
    var u := k.normal;
    assert Sub(p, q) == Scale(u, k.dist);
    var mtd := Scale(u, d - k.dist);
    var s := Sub(Add(p, Scale(mtd, 0.5)), Sub(q, Scale(mtd, 0.5)));
    assert s.x == (p.x - q.x) + u.x * (d - k.dist);
    assert s.x == u.x * k.dist + u.x * (d - k.dist);
    assert s.y == u.y * k.dist + u.y * (d - k.dist);
    calc {
      NormSq(Scale(u, d));
      (u.x * d) * (u.x * d) + (u.y * d) * (u.y * d);
      (u.x * u.x + u.y * u.y) * (d * d);
      d * d;
    }
  }

  lemma ExchangedComponents(un: Vec, own: Vec, other: Vec, loss: real)
    requires IsUnit(un)
    ensures Dot(un, Exchanged(un, own, other, loss)) == (1.0 - loss) * Dot(un, other)
    ensures Dot(Perp(un), Exchanged(un, own, other, loss)) == (1.0 - loss) * Dot(Perp(un), own)
  {
    var v := Add(Scale(un, Dot(un, other)), Scale(Perp(un), Dot(Perp(un), own)));
    BasisCoordinates(un, Dot(un, other), Dot(Perp(un), own));
    DotScale(un, v, 1.0 - loss);
    DotScale(Perp(un), v, 1.0 - loss);
  }

  lemma PositiveProduct(x: real, y: real)
    requires x > 0.0 && y > 0.0
    ensures x * y > 0.0
  {
  }

  lemma DotScale(a: Vec, v: Vec, k: real)
    ensures Dot(a, Scale(v, k)) == k * Dot(a, v)
  {
    calc {
      Dot(a, Scale(v, k));
      a.x * (v.x * k) + a.y * (v.y * k);
      k * (a.x * v.x + a.y * v.y);
    }
  }

  /** Without loss, a collision preserves the total velocity (momentum of equal masses) of the pair. */
  lemma {:induction false} LosslessPreservesMomentum(c: Config, a: Ball, b: Ball, k: Contact)
    requires IsContact(Sub(a.pos, b.pos), k)
    requires c.collisionLoss == 0.0
    ensures var r := ResolveBallsCollision(c, a, b, k);
      Add(r.first.vel, r.second.vel) == Add(a.vel, b.vel)
  {
    var r := ResolveBallsCollision(c, a, b, k);
    if r.collided {
      var u, t := k.normal, Perp(k.normal);
      OrthonormalDecomposition(u, a.vel);
      OrthonormalDecomposition(u, b.vel);
      var e1 := Exchanged(u, a.vel, b.vel, 0.0);
      var e2 := Exchanged(u, b.vel, a.vel, 0.0);
      assert r.first.vel == e1 && r.second.vel == e2;
      assert e1 == Add(Scale(u, Dot(u, b.vel)), Scale(t, Dot(t, a.vel)));
      assert e2 == Add(Scale(u, Dot(u, a.vel)), Scale(t, Dot(t, b.vel)));
      assert Add(e1, e2) == Add(Add(Scale(u, Dot(u, a.vel)), Scale(t, Dot(t, a.vel))),
                                Add(Scale(u, Dot(u, b.vel)), Scale(t, Dot(t, b.vel))));
    }
  }

  /** Without loss, a collision preserves the total kinetic energy (sum of squared speeds) of the pair. */
  lemma {:induction false} LosslessPreservesEnergy(c: Config, a: Ball, b: Ball, k: Contact)
    requires IsContact(Sub(a.pos, b.pos), k)
    requires c.collisionLoss == 0.0
    ensures var r := ResolveBallsCollision(c, a, b, k);
      NormSq(r.first.vel) + NormSq(r.second.vel) == NormSq(a.vel) + NormSq(b.vel)
  {
    var r := ResolveBallsCollision(c, a, b, k);
    if r.collided {
      var u, t := k.normal, Perp(k.normal);
      var an, at, bn, bt := Dot(u, a.vel), Dot(t, a.vel), Dot(u, b.vel), Dot(t, b.vel);
      var e1 := Exchanged(u, a.vel, b.vel, 0.0);
      var e2 := Exchanged(u, b.vel, a.vel, 0.0);
      assert r.first.vel == e1 && r.second.vel == e2;
      assert e1 == Add(Scale(u, bn), Scale(t, at));
      assert e2 == Add(Scale(u, an), Scale(t, bt));
      BasisNormSq(u, bn, at);
      BasisNormSq(u, an, bt);
      OrthonormalDecomposition(u, a.vel);
      OrthonormalDecomposition(u, b.vel);
      BasisNormSq(u, an, at);
      BasisNormSq(u, bn, bt);
    }
  }

  /**
   * A head-on hit on a resting ball: the struck ball leaves with the striker's
   * velocity times the loss factor, and the striker stops.
   */
  lemma {:induction false} HeadOnTransfer(c: Config, a: Ball, b: Ball, k: Contact, s: real)
    requires IsContact(Sub(a.pos, b.pos), k)
    requires a.visible && b.visible && WithinDist(a.pos, b.pos, c.diameter)
    requires a.vel == Scale(k.normal, s) && b.vel == Zero
    ensures var r := ResolveBallsCollision(c, a, b, k);
      r.first.vel == Zero && r.second.vel == Scale(a.vel, 1.0 - c.collisionLoss)
  {
    var r := ResolveBallsCollision(c, a, b, k);
    ApartIffNotWithin(a.pos, b.pos, k, c.diameter);
    assert r == Collide(c, a, b, k);
    ExchangeHeadOn(k.normal, s, c.collisionLoss);
  }

  lemma ExchangeHeadOn(u: Vec, s: real, loss: real)
    requires IsUnit(u)
    ensures Exchanged(u, Scale(u, s), Zero, loss) == Zero
    ensures Exchanged(u, Zero, Scale(u, s), loss) == Scale(Scale(u, s), 1.0 - loss)
  {
    var t := Perp(u);
    var v := Scale(u, s);
    assert Dot(u, v) == s by {
      calc {
        Dot(u, v);
        u.x * (u.x * s) + u.y * (u.y * s);
        (u.x * u.x + u.y * u.y) * s;
      }
    }
    assert Dot(t, v) == 0.0 by {
      calc {
        Dot(t, v);
        -u.y * (u.x * s) + u.x * (u.y * s);
      }
    }
    assert Dot(u, Zero) == 0.0 && Dot(t, Zero) == 0.0;
    assert Add(Scale(u, 0.0), Scale(t, 0.0)) == Zero;
    assert Add(Scale(u, s), Scale(t, 0.0)) == v;
  }
}
