/**
 * Ball–cushion resolution (game-world.ts, `isBallPosOutside*Border`,
 * `handleCollisionWith*Cushion`, `resolveBallCollisionWithCushion`).
 *
 * Each border test looks at the ball's next position as reported by the
 * integrator, re-read after the earlier borders have moved and reflected the
 * ball. A triggered border clamps the ball's edge onto the cushion line and
 * negates the perpendicular velocity component; the energy loss is applied
 * once if any border triggered.
 */
module Cushions {
  import opened Geometry
  import opened GameState

  predicate OutsideTop(c: Config, p: Vec) {
    p.y - c.diameter / 2.0 <= c.cushionWidth
  }

  predicate OutsideLeft(c: Config, p: Vec) {
    p.x - c.diameter / 2.0 <= c.cushionWidth
  }

  predicate OutsideRight(c: Config, p: Vec) {
    p.x + c.diameter / 2.0 >= c.gameSize.x - c.cushionWidth
  }

  predicate OutsideBottom(c: Config, p: Vec) {
    p.y + c.diameter / 2.0 >= c.gameSize.y - c.cushionWidth
  }

  /** Strictly inside all four cushion lines. */
  predicate InsideCushions(c: Config, p: Vec) {
    !OutsideTop(c, p) && !OutsideLeft(c, p) && !OutsideRight(c, p) && !OutsideBottom(c, p)
  }

  function TopCushion(c: Config, b: Ball): (r: Ball)
    ensures r.pos.y - c.diameter / 2.0 == c.cushionWidth
    ensures r.pos.x == b.pos.x
    ensures r.vel.y == -b.vel.y && r.vel.x == b.vel.x
    ensures r.color == b.color && r.visible == b.visible
  {
    b.(pos := Vec(b.pos.x, b.pos.y + (c.cushionWidth - b.pos.y + c.diameter / 2.0)),
       vel := Vec(b.vel.x, -b.vel.y))
  }

  function LeftCushion(c: Config, b: Ball): (r: Ball)
    ensures r.pos.x - c.diameter / 2.0 == c.cushionWidth
    ensures r.pos.y == b.pos.y
    ensures r.vel.x == -b.vel.x && r.vel.y == b.vel.y
    ensures r.color == b.color && r.visible == b.visible
  {
    b.(pos := Vec(b.pos.x + (c.cushionWidth - b.pos.x + c.diameter / 2.0), b.pos.y),
       vel := Vec(-b.vel.x, b.vel.y))
  }

  function RightCushion(c: Config, b: Ball): (r: Ball)
    ensures r.pos.x + c.diameter / 2.0 == c.gameSize.x - c.cushionWidth
    ensures r.pos.y == b.pos.y
    ensures r.vel.x == -b.vel.x && r.vel.y == b.vel.y
    ensures r.color == b.color && r.visible == b.visible
  {
    b.(pos := Vec(b.pos.x + (c.gameSize.x - c.cushionWidth - b.pos.x - c.diameter / 2.0), b.pos.y),
       vel := Vec(-b.vel.x, b.vel.y))
  }

  function BottomCushion(c: Config, b: Ball): (r: Ball)
    ensures r.pos.y + c.diameter / 2.0 == c.gameSize.y - c.cushionWidth
    ensures r.pos.x == b.pos.x
    ensures r.vel.y == -b.vel.y && r.vel.x == b.vel.x
    ensures r.color == b.color && r.visible == b.visible
  {
    b.(pos := Vec(b.pos.x, b.pos.y + (c.gameSize.y - c.cushionWidth - b.pos.y - c.diameter / 2.0)),
       vel := Vec(b.vel.x, -b.vel.y))
  }

  /** Which of the four border tests fired, in the order they are made. */
  datatype Hits = Hits(top: bool, left: bool, right: bool, bottom: bool) {
    predicate Any() {
      top || left || right || bottom
    }
  }

  datatype CushionOutcome = CushionOutcome(ball: Ball, hits: Hits)

  /** The factor the velocity is multiplied by: the loss once if any border fired, otherwise none. */
  function LossFactor(c: Config, h: Hits): real {
    if h.Any() then 1.0 - c.collisionLoss else 1.0
  }

  /** The four border tests and handlers in source order, before the energy loss. */
  function Reflect(c: Config, next: Ball -> Vec, b: Ball): (r: CushionOutcome)
    // each test reads the next position of the ball as the earlier handlers left it
    ensures r.hits.top == OutsideTop(c, next(b))
    ensures var b1 := if r.hits.top then TopCushion(c, b) else b;
      var b2 := if r.hits.left then LeftCushion(c, b1) else b1;
      var b3 := if r.hits.right then RightCushion(c, b2) else b2;
      && r.hits.left == OutsideLeft(c, next(b1))
      && r.hits.right == OutsideRight(c, next(b2))
      && r.hits.bottom == OutsideBottom(c, next(b3))
    // some border fires exactly when the incoming ball is headed onto or past a cushion line
    ensures r.hits.Any() <==> !InsideCushions(c, next(b))
    ensures !r.hits.Any() ==> r.ball == b
    ensures r.ball.color == b.color && r.ball.visible == b.visible
    ensures r.hits.top && !r.hits.bottom ==> r.ball.pos.y - c.diameter / 2.0 == c.cushionWidth
    ensures r.hits.bottom ==> r.ball.pos.y + c.diameter / 2.0 == c.gameSize.y - c.cushionWidth
    ensures r.hits.left && !r.hits.right ==> r.ball.pos.x - c.diameter / 2.0 == c.cushionWidth
    ensures r.hits.right ==> r.ball.pos.x + c.diameter / 2.0 == c.gameSize.x - c.cushionWidth
    ensures !r.hits.top && !r.hits.bottom ==> r.ball.pos.y == b.pos.y
    ensures !r.hits.left && !r.hits.right ==> r.ball.pos.x == b.pos.x
    ensures r.ball.vel.y == (if r.hits.top != r.hits.bottom then -b.vel.y else b.vel.y)
    ensures r.ball.vel.x == (if r.hits.left != r.hits.right then -b.vel.x else b.vel.x)
  {
    var top := OutsideTop(c, next(b));
    var b1 := if top then TopCushion(c, b) else b;
    var left := OutsideLeft(c, next(b1));
    var b2 := if left then LeftCushion(c, b1) else b1;
    var right := OutsideRight(c, next(b2));
    var b3 := if right then RightCushion(c, b2) else b2;
    var bottom := OutsideBottom(c, next(b3));
    var b4 := if bottom then BottomCushion(c, b3) else b3;
    CushionOutcome(b4, Hits(top, left, right, bottom))
  }

  function ResolveCushion(c: Config, next: Ball -> Vec, b: Ball): (r: CushionOutcome)
    // each test reads the next position of the ball as the earlier handlers left it
    ensures r.hits.top == OutsideTop(c, next(b))
    ensures var b1 := if r.hits.top then TopCushion(c, b) else b;
      var b2 := if r.hits.left then LeftCushion(c, b1) else b1;
      var b3 := if r.hits.right then RightCushion(c, b2) else b2;
      && r.hits.left == OutsideLeft(c, next(b1))
      && r.hits.right == OutsideRight(c, next(b2))
      && r.hits.bottom == OutsideBottom(c, next(b3))
    // a ball headed onto or past a cushion line is resolved; one headed strictly inside is left alone
    ensures r.hits.Any() <==> !InsideCushions(c, next(b))
    ensures !r.hits.Any() ==> r.ball == b
    ensures r.ball.color == b.color && r.ball.visible == b.visible
    // every triggered border leaves the ball's edge on its cushion line, unless the opposite border moved it later
    ensures r.hits.top && !r.hits.bottom ==> r.ball.pos.y - c.diameter / 2.0 == c.cushionWidth
    ensures r.hits.bottom ==> r.ball.pos.y + c.diameter / 2.0 == c.gameSize.y - c.cushionWidth
    ensures r.hits.left && !r.hits.right ==> r.ball.pos.x - c.diameter / 2.0 == c.cushionWidth
    ensures r.hits.right ==> r.ball.pos.x + c.diameter / 2.0 == c.gameSize.x - c.cushionWidth
    // the parallel coordinate is untouched
    ensures !r.hits.top && !r.hits.bottom ==> r.ball.pos.y == b.pos.y
    ensures !r.hits.left && !r.hits.right ==> r.ball.pos.x == b.pos.x
  {
    var o := Reflect(c, next, b);
    if o.hits.Any() then CushionOutcome(o.ball.(vel := Scale(o.ball.vel, 1.0 - c.collisionLoss)), o.hits) else o
  }

  /**
   * Each reflection negates the perpendicular velocity component (reflections
   * off opposite cushions cancel) and the loss factor is applied exactly once
   * when any border fired, never otherwise.
   */
  lemma CushionVelocity(c: Config, next: Ball -> Vec, b: Ball)
    ensures var r := ResolveCushion(c, next, b);
      && r.ball.vel.y == LossFactor(c, r.hits) * (if r.hits.top != r.hits.bottom then -b.vel.y else b.vel.y)
      && r.ball.vel.x == LossFactor(c, r.hits) * (if r.hits.left != r.hits.right then -b.vel.x else b.vel.x)
  {
  }
}
