/**
 * Ball-in-hand placement (game-world.ts `isInsideTableBoundaries`,
 * `isValidPosToPlaceCueBall`, `placeBallInHand`, `handleBallInHand`).
 *
 * After a foul the next player moves the cue ball with the pointer. A press
 * on a legal spot places it there, clears `ballInHand` and shows the stick;
 * otherwise the cue ball still follows the pointer while the stick is hidden
 * and frozen, and `ballInHand` stays set.
 */
module BallInHand {
  import opened Geometry
  import opened GameState
  import opened Cushions
  import opened Pockets

  /** `isInsideTableBoundaries`: not in a pocket and strictly inside all four cushion lines. */
  predicate InsideTableBoundaries(c: Config, p: Vec) {
    !InsidePocket(c, p) && InsideCushions(c, p)
  }

  /** No ball of the active list, white ones aside, lies within one diameter of `p`. */
  predicate ClearOfBalls(c: Config, w: World, p: Vec)
    requires WellFormed(w)
  {
    forall k :: 0 <= k < |w.roster| ==>
      w.objects[w.roster[k]].color == White || !WithinDist(w.objects[w.roster[k]].pos, p, c.diameter)
  }

  /** `isValidPosToPlaceCueBall`. */
  predicate IsValidPosToPlaceCueBall(c: Config, w: World, p: Vec)
    requires WellFormed(w)
  {
    ClearOfBalls(c, w, p) && InsideTableBoundaries(c, p)
  }

  /** The `some` of `isInsidePocket`, as the loop it is. */
  method CheckInsidePocket(c: Config, p: Vec) returns (inside: bool)
    ensures inside <==> exists k :: 0 <= k < |c.pockets| && WithinDist(p, c.pockets[k], c.pocketRadius)
  {
    inside := false;
    var k := 0;
    while k < |c.pockets| && !inside
      invariant 0 <= k <= |c.pockets|
      invariant inside <==> exists j :: 0 <= j < k && WithinDist(p, c.pockets[j], c.pocketRadius)
    {
      inside := WithinDist(p, c.pockets[k], c.pocketRadius);
      k := k + 1;
    }
  }

  /**
   * The `every` of `isValidPosToPlaceCueBall` followed by the boundary
   * checks: a spot is accepted exactly when it is outside every pocket,
   * strictly inside the four cushion lines, and more than a diameter away
   * from every ball of the active list that is not white.
   */
  method CheckPlacement(c: Config, w: World, p: Vec) returns (ok: bool)
    requires WellFormed(w)
    ensures ok <==>
      && (forall k :: 0 <= k < |w.roster| ==>
            w.objects[w.roster[k]].color == White || !WithinDist(w.objects[w.roster[k]].pos, p, c.diameter))
      && !InsidePocket(c, p)
      && !OutsideTop(c, p) && !OutsideLeft(c, p) && !OutsideRight(c, p) && !OutsideBottom(c, p)
  {
    var clear := true;
    var k := 0;
    while k < |w.roster| && clear
      invariant 0 <= k <= |w.roster|
      invariant clear <==> forall j :: 0 <= j < k ==>
        w.objects[w.roster[j]].color == White || !WithinDist(w.objects[w.roster[j]].pos, p, c.diameter)
    {
      var b := w.objects[w.roster[k]];
      clear := b.color == White || !WithinDist(b.pos, p, c.diameter);
      k := k + 1;
    }
    var inPocket := CheckInsidePocket(c, p);
    ok := clear && !inPocket && !OutsideTop(c, p) && !OutsideLeft(c, p) && !OutsideRight(c, p) && !OutsideBottom(c, p);
  }

  /** `placeBallInHand`: the cue ball goes to `p`, ball-in-hand ends and the stick is shown there. */
  function PlaceBallInHand(w: World, p: Vec): (r: World)
    requires WellFormed(w)
    ensures WellFormed(r)
    ensures r.objects == w.objects[w.cue := w.objects[w.cue].(pos := p)]
    ensures !r.turn.ballInHand && r.stick.visible && r.stick.pos == p
  {
    w.(objects := w.objects[w.cue := w.objects[w.cue].(pos := p)],
       turn := w.turn.(ballInHand := false),
       stick := ShowStick(w.stick, p))
  }

  /**
   * `handleBallInHand`. The cue ball moves to the pointer whether or not the
   * spot is legal; `ballInHand` is cleared, and the stick shown at the spot,
   * exactly when the button is pressed on a legal spot; otherwise the stick
   * is hidden and frozen. No other ball, no player and nothing else of the
   * turn changes.
   */
  function HandleBallInHand(c: Config, w: World, input: Input): (r: World)
    requires WellFormed(w)
    ensures WellFormed(r)
    ensures var placed := input.placePressed && IsValidPosToPlaceCueBall(c, w, input.pointer);
      && r.objects == w.objects[w.cue := w.objects[w.cue].(pos := input.pointer)]
      && r.turn == w.turn.(ballInHand := w.turn.ballInHand && !placed)
      && (placed ==> r.stick == w.stick.(pos := input.pointer, visible := true))
      && (!placed ==> r.stick == w.stick.(movable := false, visible := false))
      && r.roster == w.roster && r.players == w.players && r.current == w.current
      && r.cue == w.cue && r.eight == w.eight && r.ballsCollided == w.ballsCollided
  {
    if input.placePressed && IsValidPosToPlaceCueBall(c, w, input.pointer) then PlaceBallInHand(w, input.pointer)
    else
      w.(objects := w.objects[w.cue := w.objects[w.cue].(pos := input.pointer)],
         stick := w.stick.(movable := false, visible := false))
  }

  /** A placement that clears ball-in-hand leaves the cue ball clear of every non-white ball and on the table. */
  lemma PlacementIsLegal(c: Config, w: World, input: Input)
    requires WellFormed(w) && w.turn.ballInHand
    requires !HandleBallInHand(c, w, input).turn.ballInHand
    ensures var r := HandleBallInHand(c, w, input);
      && input.placePressed
      && InsideCushions(c, r.objects[w.cue].pos)
      && !InsidePocket(c, r.objects[w.cue].pos)
      && forall k :: 0 <= k < |w.roster| && w.objects[w.roster[k]].color != White ==>
           !WithinDist(w.objects[w.roster[k]].pos, r.objects[w.cue].pos, c.diameter)
  {
  }
}
