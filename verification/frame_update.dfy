/**
 * One frame of the game world (game-world.ts `update`, with `handleInput`
 * and `shootCueBall`).
 *
 * While ball-in-hand is set the frame only handles the placement. Otherwise
 * it pockets, resolves collisions, shoots when asked, advances the stick and
 * every active ball, and, once nothing moves and the stick is hidden,
 * concludes the turn and starts the next one. When that ends the game the
 * overall point is awarded and the occupancy grid is built.
 */
module FrameUpdate {
  import opened Wrappers
  import opened Geometry
  import opened GameState
  import opened CollisionSchedule
  import opened CollisionTick
  import opened BallCollision
  import opened Pockets
  import opened BallInHand
  import opened TurnLifecycle
  import opened OccupancyGrid

  /**
   * The result of a frame: the world, whether the turn was concluded,
   * whether the referee declared the game over, and, when it did, the
   * occupancy grid (a failed grid means the match is not restarted).
   */
  datatype Frame = Frame(world: World, concluded: bool, gameOver: bool, grid: Option<Result<Grid, GridError>>)

  /**
   * `shootCueBall(power, rotation)` without the stick's animation and the
   * timer that hides it: nothing happens without power; otherwise the stick
   * takes the rotation and is frozen, and the cue ball takes the shot's
   * velocity.
   */
  function ShootCueBall(motion: Motion, w: World, power: real, rotation: real): (r: World)
    requires WellFormed(w)
    ensures WellFormed(r)
    ensures power <= 0.0 ==> r == w
    ensures |r.objects| == |w.objects|
    ensures forall id :: 0 <= id < |w.objects| ==>
      r.objects[id].color == w.objects[id].color && r.objects[id].visible == w.objects[id].visible
    ensures power > 0.0 ==>
      && r.objects == w.objects[w.cue := w.objects[w.cue].(vel := motion.shotVelocity(power, rotation))]
      && r.stick == w.stick.(rotation := rotation, movable := false)
      && r == w.(objects := r.objects, stick := r.stick)
  {
    if power > 0.0 then
      var cue := w.objects[w.cue];
      w.(objects := w.objects[w.cue := cue.(vel := motion.shotVelocity(power, rotation))],
         stick := w.stick.(rotation := rotation, movable := false))
    else w
  }

  /** `Ball.update` as far as this model sees it: a new position and velocity; colour and visibility stay. */
  function Stepped(motion: Motion, b: Ball): Ball {
    b.(pos := motion.step(b).pos, vel := motion.step(b).vel)
  }

  /** `_balls.forEach(ball => ball.update())` as a function. */
  function SteppedAll(motion: Motion, w: World): (r: World)
    requires WellFormed(w)
    ensures WellFormed(r)
  {
    w.(objects := seq(|w.objects|, id requires 0 <= id < |w.objects| =>
                        if id in w.roster then Stepped(motion, w.objects[id]) else w.objects[id]))
  }

  /** `_balls.forEach(ball => ball.update())`: every active ball is stepped once, every other ball is left alone. */
  method StepBalls(motion: Motion, w: World) returns (r: World)
    requires WellFormed(w)
    ensures WellFormed(r)
    ensures r == SteppedAll(motion, w)
    ensures r == w.(objects := r.objects)
    ensures forall id :: 0 <= id < |w.objects| ==>
      r.objects[id].color == w.objects[id].color && r.objects[id].visible == w.objects[id].visible
    ensures |r.objects| == |w.objects|
    ensures forall id :: 0 <= id < |w.objects| ==>
      r.objects[id] == if id in w.roster then Stepped(motion, w.objects[id]) else w.objects[id]
  {
    var objects := w.objects;
    var k := 0;
    while k < |w.roster|
      invariant k <= |w.roster|
      invariant |objects| == |w.objects|
      invariant forall id :: 0 <= id < |objects| ==>
        objects[id] == if id in w.roster[..k] then Stepped(motion, w.objects[id]) else w.objects[id]
    {
      var id := w.roster[k];
      assert id !in w.roster[..k];
      assert w.roster[..k + 1] == w.roster[..k] + [id];
      objects := objects[id := Stepped(motion, objects[id])];
      k := k + 1;
    }
    assert w.roster[..k] == w.roster;
    r := w.(objects := objects);
  }

  /** `isBallsMoving`: some active ball is still moving. */
  predicate BallsMoving(motion: Motion, w: World)
    requires WellFormed(w)
  {
    exists k :: 0 <= k < |w.roster| && motion.moving(w.objects[w.roster[k]])
  }

  /** Collisions, the shot when asked, the stick and the balls, as a function. */
  function Propelled(c: Config, motion: Motion, contact: Vec -> Contact, w: World, input: Input): (r: World)
    requires WellFormed(w)
    ensures WellFormed(r)
  {
    var w1 := TickCollisions(c, motion.nextPosition, contact, w);
    var w2 := if input.shootPressed then ShootCueBall(motion, w1, w1.stick.power, w1.stick.rotation) else w1;
    SteppedAll(motion, w2.(stick := motion.stepStick(w2.stick)))
  }

  /** The moving part of `update` when ball-in-hand is not set, as a function: pockets first, then the rest. */
  function Moved(c: Config, motion: Motion, contact: Vec -> Contact, w: World, input: Input): (r: World)
    requires WellFormed(w)
    ensures WellFormed(r)
  {
    Propelled(c, motion, contact, PocketsResolved(c, w), input)
  }

  /**
   * `handleCollisions`, `handleInput`, `_stick.update` and the stepping of
   * the balls. Colours and visibility, the active list, the players and the
   * turn record apart from its first collision stay.
   */
  method Propel(c: Config, motion: Motion, contact: Vec -> Contact, w: World, input: Input) returns (r: World)
    requires WellFormed(w)
    ensures WellFormed(r)
    ensures r == Propelled(c, motion, contact, w, input)
    ensures r.current == w.current && r.roster == w.roster && r.cue == w.cue && r.eight == w.eight
    ensures r.players == w.players
    ensures r.turn == w.turn.(firstCollided := r.turn.firstCollided)
    ensures |r.objects| == |w.objects|
    ensures forall id :: 0 <= id < |w.objects| ==>
      r.objects[id].color == w.objects[id].color && r.objects[id].visible == w.objects[id].visible
  {
    var w1 := HandleCollisions(c, motion.nextPosition, contact, w);
    var w2 := if input.shootPressed then ShootCueBall(motion, w1, w1.stick.power, w1.stick.rotation) else w1;
    var w3 := w2.(stick := motion.stepStick(w2.stick));
    r := StepBalls(motion, w3);
  }

  /**
   * The moving part of `update` when ball-in-hand is not set: pockets,
   * collisions, the shot, the stick and the balls. A ball is visible
   * afterwards exactly when it was and, if it is active, lies in no pocket;
   * the pocketed list gains exactly the newly hidden active balls, in list
   * order; the suits follow from the first red or yellow ball among them.
   * The player to move, the active list and the turn flags stay, and a
   * consistent turn record and paired suits stay so.
   */
  method Advance(c: Config, motion: Motion, contact: Vec -> Contact, w: World, input: Input) returns (r: World)
    requires WellFormed(w)
    ensures WellFormed(r)
    ensures r == Moved(c, motion, contact, w, input)
    ensures r.current == w.current && r.roster == w.roster && r.cue == w.cue && r.eight == w.eight
    ensures r.turn.ballInHand == w.turn.ballInHand && r.turn.isValid == w.turn.isValid
    ensures |r.objects| == |w.objects|
    ensures forall id :: 0 <= id < |w.objects| ==>
      && r.objects[id].color == w.objects[id].color
      && r.objects[id].visible == (w.objects[id].visible && (id in w.roster ==> !InsidePocket(c, w.objects[id].pos)))
    ensures r.turn.pocketed == w.turn.pocketed + NewlyPocketed(r.objects, w.turn.pocketed, w.roster)
    ensures SuitsFixedBy(w.current, PassOf(w), PassOf(r))
    ensures |w.turn.pocketed| <= |r.turn.pocketed| && r.turn.pocketed[..|w.turn.pocketed|] == w.turn.pocketed
    ensures TurnConsistent(w) ==> TurnConsistent(r)
    ensures SuitsPaired(w.players) ==> SuitsPaired(r.players)
  {
    var w1 := HandleBallsInPockets(c, w);
    assert w1 == PocketsResolved(c, w);
    r := Propel(c, motion, contact, w1, input);
    assert r.turn.pocketed == w.turn.pocketed + NewlyPocketed(r.objects, w.turn.pocketed, w.roster) by {
      NewlyPocketedFrame(w1.objects, r.objects, w.turn.pocketed, w.roster);
    }
    assert w1.turn.pocketed[..|w.turn.pocketed|] == w.turn.pocketed;
  }

  /**
   * The end of `update`: once no active ball moves and the stick is hidden,
   * the turn is concluded and the next one started, and when the game is
   * over the grid is built.
   */
  method Settle(c: Config, referee: Referee, motion: Motion, w: World) returns (r: Frame)
    requires WellFormed(w)
    ensures WellFormed(r.world)
    ensures r.concluded <==> !BallsMoving(motion, w) && !w.stick.visible
    ensures !r.concluded ==> r.world == w && !r.gameOver && r.grid.None?
    ensures r.concluded ==>
      && r.world.turn.pocketed == [] && r.world.turn.firstCollided.None?
      && r.world.turn.isValid == c.initialIsValid
      && r.world.objects[r.world.cue].visible && r.world.stick.visible
    ensures r.grid.Some? <==> r.gameOver
    ensures r.grid.Some? ==>
      (r.grid.value.Success? <==> forall k :: 0 <= k < |r.world.roster| ==> !Overruns(r.world.objects[r.world.roster[k]]))
    ensures SuitsPaired(w.players) ==> SuitsPaired(r.world.players)
    ensures r.concluded && TurnConsistent(w) ==>
      TurnOutcome(r.world, r.gameOver) == NextTurn(c, referee, Concluded(referee, w))
  {
    if !BallsMoving(motion, w) && !w.stick.visible {
      var concluded := ConcludeTurn(referee, w);
      var next := NextTurn(c, referee, concluded);
      var grid: Option<Result<Grid, GridError>> := None;
      if next.gameOver {
        var g := SetMatrix(next.world.objects, next.world.roster);
        grid := Some(g);
      }
      r := Frame(next.world, true, next.gameOver, grid);
    } else {
      r := Frame(w, false, false, None);
    }
  }

  /**
   * `update`. With ball-in-hand set only the placement is handled: the cue
   * ball follows the pointer, no other ball moves, nothing is pocketed and
   * ball-in-hand ends only on a pressed, legal placement. Otherwise the turn
   * is concluded exactly when, after stepping, no active ball moves and the
   * stick is hidden. Until then the player to move, the active list and
   * ball-in-hand are unchanged and the pocketed list only grows; once it is
   * concluded the next turn starts with nothing pocketed and the cue ball
   * and stick on the table. The game can end, and the grid be built, only
   * with the conclusion of a turn. A consistent turn record and paired
   * suits stay so.
   */
  method Update(c: Config, referee: Referee, motion: Motion, contact: Vec -> Contact, w: World, input: Input)
    returns (r: Frame)
    requires WellFormed(w)
    ensures WellFormed(r.world)
    ensures w.turn.ballInHand ==>
      && r.world == HandleBallInHand(c, w, input)
      && r.world.objects == w.objects[w.cue := w.objects[w.cue].(pos := input.pointer)]
      && r.world.turn.pocketed == w.turn.pocketed
      && !r.concluded
    ensures w.turn.ballInHand && !r.world.turn.ballInHand ==>
      input.placePressed && IsValidPosToPlaceCueBall(c, w, input.pointer)
    ensures !w.turn.ballInHand && !r.concluded ==>
      && r.world.current == w.current
      && r.world.roster == w.roster
      && r.world.turn.ballInHand == w.turn.ballInHand
      && |w.turn.pocketed| <= |r.world.turn.pocketed|
      && r.world.turn.pocketed[..|w.turn.pocketed|] == w.turn.pocketed
    ensures r.concluded ==>
      && !w.turn.ballInHand
      && r.world.turn.pocketed == [] && r.world.turn.firstCollided.None?
      && r.world.objects[r.world.cue].visible && r.world.stick.visible
    ensures r.gameOver ==> r.concluded
    ensures r.grid.Some? <==> r.gameOver
    ensures TurnConsistent(w) ==> TurnConsistent(r.world)
    ensures SuitsPaired(w.players) ==> SuitsPaired(r.world.players)
    ensures !w.turn.ballInHand ==>
      var m := Moved(c, motion, contact, w, input);
      && (r.concluded <==> !BallsMoving(motion, m) && !m.stick.visible)
      && (!r.concluded ==> r.world == m)
      && (r.concluded && TurnConsistent(w) ==>
            TurnOutcome(r.world, r.gameOver) == NextTurn(c, referee, Concluded(referee, m)))
  {
    if w.turn.ballInHand {
      return Frame(HandleBallInHand(c, w, input), false, false, None);
    }
    var moved := Advance(c, motion, contact, w, input);
    r := Settle(c, referee, motion, moved);
  }
}
