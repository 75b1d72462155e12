/**
 * The state owned by the game world (src/game-objects/game-world.ts): the
 * ball objects, the active ball list, the two players, the current-player
 * index, the turn record and the cue stick, plus the table configuration it
 * reads and the collaborators it calls but does not implement.
 *
 * Ball references are modelled by identity: `objects` is the table of every
 * ball object of the match, indexed by id, and `roster` is the ordered list of
 * ids in the active ball list `_balls`. Removing an id from the roster keeps
 * the object, just as the world keeps its `_8Ball` reference after splicing
 * the eight-ball out of `_balls`.
 */
module GameState {
  import opened Wrappers
  import opened Geometry

  /** Ball colours. The values of the source's `Color` enum are not part of this model; unset colours are `None`. */
  datatype Color = White | Red | Yellow | Black

  /**
   * Table geometry and physics constants read from the game configuration,
   * whose values are not part of this model. `initialIsValid` is the value of
   * `isValid` in a freshly constructed turn `State`.
   */
  datatype Config = Config(
    cushionWidth: real,
    diameter: real,
    gameSize: Vec,
    pockets: seq<Vec>,
    pocketRadius: real,
    collisionLoss: real,
    cueBallPosition: Vec,
    initialIsValid: bool)

  datatype Ball = Ball(pos: Vec, vel: Vec, color: Color, visible: bool)

  datatype Player = Player(suit: Option<Color>, matchScore: int, overallScore: int)

  /** The per-turn record `State`: pocketed balls are kept by id, in pocketing order. */
  datatype Turn = Turn(ballInHand: bool, pocketed: seq<nat>, firstCollided: Option<Color>, isValid: bool)

  datatype Stick = Stick(pos: Vec, visible: bool, movable: bool, power: real, rotation: real)

  datatype World = World(
    objects: seq<Ball>,
    roster: seq<nat>,
    cue: nat,
    eight: nat,
    players: seq<Player>,
    current: nat,
    turn: Turn,
    stick: Stick,
    ballsCollided: bool)

  /** The rule referee, which is not part of this model: its two queries as uninterpreted functions. */
  datatype Referee = Referee(
    isValidTurn: (Player, Turn, seq<Ball>) -> bool,
    isGameOver: (Player, Ball, Ball) -> bool)

  /**
   * The Ball/Stick motion integrator, which is not part of this model:
   * `nextPosition`, `Ball.update`, `moving`, `Ball.shoot` (polar power and
   * rotation to a velocity) and `Stick.update` together with the timer that
   * hides the stick after a shot.
   */
  datatype Motion = Motion(
    nextPosition: Ball -> Vec,
    step: Ball -> Ball,
    moving: Ball -> bool,
    shotVelocity: (real, real) -> Vec,
    stepStick: Stick -> Stick)

  /**
   * The input sampled in one frame: the pointer position, whether the
   * place-ball button is pressed, and whether a shot is triggered (the shoot
   * button pressed while the automated-shot session has finished).
   */
  datatype Input = Input(pointer: Vec, placePressed: bool, shootPressed: bool)

  predicate Distinct<T(==)>(s: seq<T>) {
    forall i, j :: 0 <= i < j < |s| ==> s[i] != s[j]
  }

  /** Every id the world refers to names a ball object; two players; the player index is 0 or 1. */
  predicate WellFormed(w: World) {
    && |w.players| == 2
    && w.current < 2
    && w.cue < |w.objects|
    && w.eight < |w.objects|
    && (forall k :: 0 <= k < |w.roster| ==> w.roster[k] < |w.objects|)
    && Distinct(w.roster)
    && (forall k :: 0 <= k < |w.turn.pocketed| ==> w.turn.pocketed[k] < |w.objects|)
  }

  /** During a turn every pocketed ball is still in the active list, and none is listed twice. */
  predicate TurnConsistent(w: World) {
    && (forall k :: 0 <= k < |w.turn.pocketed| ==> w.turn.pocketed[k] in w.roster)
    && Distinct(w.turn.pocketed)
  }

  /** `(i + 1) % players.length` with two players. */
  function NextIndex(i: nat): (r: nat)
    requires i < 2
    ensures r < 2 && r != i
    ensures r == 1 - i
  {
    (i + 1) % 2
  }

  function CurrentPlayer(w: World): Player
    requires WellFormed(w)
  {
    w.players[w.current]
  }

  function NextPlayer(w: World): Player
    requires WellFormed(w)
  {
    w.players[NextIndex(w.current)]
  }

  /** The same world, with the object of ball `id` replaced. */
  function SetBall(w: World, id: nat, b: Ball): (r: World)
    requires WellFormed(w) && id < |w.objects|
    ensures WellFormed(r) && r.objects == w.objects[id := b]
    ensures r == w.(objects := r.objects)
  {
    w.(objects := w.objects[id := b])
  }

  /** `Ball.show(at)` and `Stick.show(at)`: place at a point and make visible. */
  function ShowBall(b: Ball, at: Vec): Ball {
    b.(pos := at, visible := true)
  }

  function ShowStick(s: Stick, at: Vec): Stick {
    s.(pos := at, visible := true)
  }
}
