/**
 * One tick of collision handling (game-world.ts `handleCollisions`).
 *
 * The tick is modelled twice: as a fold of `ApplyEvent` over the visiting
 * schedule of `CollisionSchedule`, and as the nested loops of the source,
 * which are proved to perform exactly that fold.
 */
module CollisionTick {
  import opened Wrappers
  import opened Geometry
  import opened GameState
  import opened Cushions
  import opened BallCollision
  import opened CollisionSchedule

  /** `firstCollidedBallColor` is written only while unset: the first ball's colour, or the second's when the first is white. */
  function RecordFirstCollision(prev: Option<Color>, first: Color, second: Color): (r: Option<Color>)
    ensures prev.Some? ==> r == prev
    ensures prev.None? && first != White ==> r == Some(first)
    ensures prev.None? && first == White ==> r == Some(second)
  {
    if prev.None? then Some(if first == White then second else first) else prev
  }

  /**
   * What a collision tick may change: the positions and velocities of balls
   * in the active list, the collision flag, and the first-collided colour
   * while it is unset. Colours, visibility and everything else stay.
   */
  predicate TickFrame(w: World, r: World) {
    && r.roster == w.roster && r.cue == w.cue && r.eight == w.eight
    && r.players == w.players && r.current == w.current && r.stick == w.stick
    && |r.objects| == |w.objects|
    && (forall id :: 0 <= id < |w.objects| ==>
          r.objects[id].color == w.objects[id].color && r.objects[id].visible == w.objects[id].visible)
    && (forall id :: 0 <= id < |w.objects| && id !in w.roster ==> r.objects[id] == w.objects[id])
    && r.turn.ballInHand == w.turn.ballInHand
    && r.turn.pocketed == w.turn.pocketed
    && r.turn.isValid == w.turn.isValid
    && (w.turn.firstCollided.Some? ==> r.turn.firstCollided == w.turn.firstCollided)
    && (w.ballsCollided ==> r.ballsCollided)
  }

  /** One visit: a cushion check (`resolveBallCollisionWithCushion`) or a pair resolution (`resolveBallsCollision`) with its bookkeeping. */
  function ApplyEvent(c: Config, next: Ball -> Vec, contact: Vec -> Contact, w: World, e: Event): (r: World)
    requires WellFormed(w)
    ensures WellFormed(r)
  {
    match e
    case CushionOf(i) =>
      if i < |w.roster| then
        var id := w.roster[i];
        SetBall(w, id, ResolveCushion(c, next, w.objects[id]).ball)
      else w
    case PairOf(i, j) =>
      if i < j < |w.roster| then
        var ia, ib := w.roster[i], w.roster[j];
        var a, b := w.objects[ia], w.objects[ib];
        var o := ResolveBallsCollision(c, a, b, contact(Sub(a.pos, b.pos)));
        var moved := w.(objects := w.objects[ia := o.first][ib := o.second]);
        if o.collided then
          moved.(ballsCollided := true,
                 turn := moved.turn.(firstCollided := RecordFirstCollision(w.turn.firstCollided, a.color, b.color)))
        else moved
      else w
  }

  function RunEvents(c: Config, next: Ball -> Vec, contact: Vec -> Contact, w: World, evs: seq<Event>): (r: World)
    requires WellFormed(w)
    ensures WellFormed(r)
    decreases |evs|
  {
    if evs == [] then w
    else ApplyEvent(c, next, contact, RunEvents(c, next, contact, w, evs[..|evs| - 1]), evs[|evs| - 1])
  }

  /** The collision part of one frame: the whole schedule for the current active list. */
  function TickCollisions(c: Config, next: Ball -> Vec, contact: Vec -> Contact, w: World): (r: World)
    requires WellFormed(w)
    ensures WellFormed(r)
  {
    RunEvents(c, next, contact, w, Schedule(|w.roster|))
  }

  lemma ApplyEventFrame(c: Config, next: Ball -> Vec, contact: Vec -> Contact, w: World, e: Event)
    requires WellFormed(w)
    ensures TickFrame(w, ApplyEvent(c, next, contact, w, e))
  {
    match e
    case CushionOf(i) =>
    case PairOf(i, j) =>
      if i < j < |w.roster| {
        var ia, ib := w.roster[i], w.roster[j];
        assert ia != ib;
      }
  }

  /** Whatever the events, a run only moves balls, sets the collision flag and records the first collision once. */
  lemma {:induction false} RunEventsFrame(c: Config, next: Ball -> Vec, contact: Vec -> Contact, w: World, evs: seq<Event>)
    requires WellFormed(w)
    ensures TickFrame(w, RunEvents(c, next, contact, w, evs))
    decreases |evs|
  {
    if evs != [] {
      var mid := RunEvents(c, next, contact, w, evs[..|evs| - 1]);
      RunEventsFrame(c, next, contact, w, evs[..|evs| - 1]);
      ApplyEventFrame(c, next, contact, mid, evs[|evs| - 1]);
    }
  }

  /** One visit as a total step, for the loops of `CollisionSchedule.VisitAll`. */
  function Step(c: Config, next: Ball -> Vec, contact: Vec -> Contact): (World, Event) -> World {
    (s: World, e: Event) => if WellFormed(s) then ApplyEvent(c, next, contact, s, e) else s
  }

  lemma {:induction false} RunEventsIsFold(c: Config, next: Ball -> Vec, contact: Vec -> Contact, w: World, evs: seq<Event>)
    requires WellFormed(w)
    ensures Fold(Step(c, next, contact), w, evs) == RunEvents(c, next, contact, w, evs)
    decreases |evs|
  {
    if evs != [] {
      RunEventsIsFold(c, next, contact, w, evs[..|evs| - 1]);
    }
  }

  /** `handleCollisions`: its nested loops compute the tick, which only moves balls and records the first collision. */
  method HandleCollisions(c: Config, next: Ball -> Vec, contact: Vec -> Contact, w: World) returns (r: World)
    requires WellFormed(w)
    ensures r == TickCollisions(c, next, contact, w)
    ensures TickFrame(w, r)
  {
    r := VisitAll(Step(c, next, contact), w, |w.roster|);
    RunEventsIsFold(c, next, contact, w, Schedule(|w.roster|));
    RunEventsFrame(c, next, contact, w, Schedule(|w.roster|));
  }
}
