/**
 * Pocket detection and suit assignment (game-world.ts `isInsidePocket`,
 * `resolveBallInPocket`, `isValidPlayerColor`, `handleBallsInPockets`).
 *
 * The active list is walked in order. A ball whose centre lies within
 * `pocketRadius` of a pocket is hidden. A hidden ball that the turn has not
 * recorded yet is appended to `pocketedBalls`, and if the current player has
 * no suit and the ball is red or yellow, that colour becomes the current
 * player's suit and the other colour the opponent's.
 */
module Pockets {
  import opened Wrappers
  import opened Geometry
  import opened GameState

  /** `isInsidePocket`: the point is at most `pocketRadius` from some pocket centre. */
  predicate InsidePocket(c: Config, p: Vec) {
    exists k :: 0 <= k < |c.pockets| && WithinDist(p, c.pockets[k], c.pocketRadius)
  }

  /** The pocket test of a table, as a function value for the pass below. */
  function PocketTest(c: Config): (Vec -> bool) {
    (p: Vec) => InsidePocket(c, p)
  }

  /** `resolveBallInPocket` under the pocket test `inPocket`: hide the ball when it is inside a pocket. */
  function ResolveBallInPocket(inPocket: Vec -> bool, b: Ball): (r: Ball)
    ensures r.visible <==> b.visible && !inPocket(b.pos)
    ensures r.pos == b.pos && r.vel == b.vel && r.color == b.color
  {
    if inPocket(b.pos) then b.(visible := false) else b
  }

  /** `isValidPlayerColor`: only red and yellow are suits a player can own. */
  predicate IsSuit(col: Color) {
    col == Red || col == Yellow
  }

  /** The suit `handleBallsInPockets` gives the opponent: yellow gives red, anything else gives yellow. */
  function Complement(col: Color): (r: Color)
    ensures IsSuit(r)
    ensures IsSuit(col) ==> r != col
  {
    if col == Yellow then Red else Yellow
  }

  /** The suit assignment of `handleBallsInPockets`: the current player takes `col`, the other player its complement. */
  function AssignSuit(players: seq<Player>, current: nat, col: Color): (r: seq<Player>)
    requires |players| == 2 && current < 2
    ensures |r| == 2
    ensures r[current] == players[current].(suit := Some(col))
    ensures r[NextIndex(current)] == players[NextIndex(current)].(suit := Some(Complement(col)))
  {
    players[current := players[current].(suit := Some(col))][NextIndex(current) := players[NextIndex(current)].(suit := Some(Complement(col)))]
  }

  /**
   * What the pass over the active list reads and writes: the ball objects,
   * the turn's pocketed list and the players. The active list and the
   * current-player index stay fixed during the pass.
   */
  datatype Pass = Pass(objects: seq<Ball>, pocketed: seq<nat>, players: seq<Player>)

  predicate PassOk(roster: seq<nat>, current: nat, p: Pass) {
    && |p.players| == 2 && current < 2
    && (forall m :: 0 <= m < |roster| ==> roster[m] < |p.objects|)
    && (forall q :: 0 <= q < |p.pocketed| ==> p.pocketed[q] < |p.objects|)
  }

  /** One iteration of the `forEach` of `handleBallsInPockets`, on the m-th ball of the active list. */
  function PocketBall(inPocket: Vec -> bool, roster: seq<nat>, current: nat, p: Pass, m: nat): (r: Pass)
    requires PassOk(roster, current, p) && m < |roster|
    ensures PassOk(roster, current, r) && |r.objects| == |p.objects|
  {
    var id := roster[m];
    var b := ResolveBallInPocket(inPocket, p.objects[id]);
    var objects := p.objects[id := b];
    if !b.visible && id !in p.pocketed then
      var players :=
        if p.players[current].suit.None? && IsSuit(b.color) then AssignSuit(p.players, current, b.color)
        else p.players;
      Pass(objects, p.pocketed + [id], players)
    else Pass(objects, p.pocketed, p.players)
  }

  /**
   * Ball objects after the first k iterations: only visibility changes; the
   * first k balls of the active list are hidden when they were hidden already
   * or lie in a pocket, and every other ball is untouched.
   */
  predicate BallsAfter(inPocket: Vec -> bool, roster: seq<nat>, p: Pass, r: Pass, k: nat) {
    && |r.objects| == |p.objects|
    && (forall id :: 0 <= id < |p.objects| ==> r.objects[id] == p.objects[id].(visible := r.objects[id].visible))
    && (forall m :: 0 <= m < |roster| && roster[m] < |p.objects| ==>
          r.objects[roster[m]].visible == (p.objects[roster[m]].visible && (m < k ==> !inPocket(p.objects[roster[m]].pos))))
    && (forall id :: 0 <= id < |p.objects| && id !in roster ==> r.objects[id] == p.objects[id])
  }

  lemma BallsAfterNothing(inPocket: Vec -> bool, roster: seq<nat>, p: Pass)
    ensures BallsAfter(inPocket, roster, p, p, 0)
  {
    forall id | 0 <= id < |p.objects|
      ensures p.objects[id] == p.objects[id].(visible := p.objects[id].visible)
    {
    }
  }

  lemma PocketBallBalls(inPocket: Vec -> bool, roster: seq<nat>, current: nat, p: Pass, mid: Pass, k: nat)
    requires PassOk(roster, current, mid) && k < |roster| && Distinct(roster)
    requires BallsAfter(inPocket, roster, p, mid, k)
    ensures BallsAfter(inPocket, roster, p, PocketBall(inPocket, roster, current, mid, k), k + 1)
  {
  }

  /** The pocketed list after a pass: the old list followed by hidden balls of the active list it did not hold, without repeats. */
  predicate PocketedAfter(roster: seq<nat>, p: Pass, r: Pass) {
    && |p.pocketed| <= |r.pocketed|
    && (forall q :: 0 <= q < |p.pocketed| ==> r.pocketed[q] == p.pocketed[q])
    && (forall q :: |p.pocketed| <= q < |r.pocketed| ==>
          && r.pocketed[q] in roster
          && r.pocketed[q] < |r.objects|
          && !r.objects[r.pocketed[q]].visible
          && r.pocketed[q] !in p.pocketed)
    && (Distinct(p.pocketed) ==> Distinct(r.pocketed))
  }

  /** After the whole pass a ball is visible exactly when it was visible and, if it is active, lies in no pocket; nothing else about it changes. */
  lemma PassVisibility(inPocket: Vec -> bool, roster: seq<nat>, p: Pass, r: Pass)
    requires BallsAfter(inPocket, roster, p, r, |roster|)
    ensures |r.objects| == |p.objects|
    ensures forall id :: 0 <= id < |p.objects| ==>
      r.objects[id] == p.objects[id].(visible := p.objects[id].visible && (id in roster ==> !inPocket(p.objects[id].pos)))
  {
    forall id | 0 <= id < |p.objects|
      ensures r.objects[id].visible == (p.objects[id].visible && (id in roster ==> !inPocket(p.objects[id].pos)))
    {
      if id in roster {
        var m :| 0 <= m < |roster| && roster[m] == id;
      }
    }
  }

  lemma DistinctSnoc(s: seq<nat>, x: nat)
    requires Distinct(s) && x !in s
    ensures Distinct(s + [x])
  {
  }

  lemma PocketBallPocketed(inPocket: Vec -> bool, roster: seq<nat>, current: nat, p: Pass, mid: Pass, k: nat)
    requires PassOk(roster, current, mid) && k < |roster|
    requires PocketedAfter(roster, p, mid)
    ensures PocketedAfter(roster, p, PocketBall(inPocket, roster, current, mid, k))
  {
    var r := PocketBall(inPocket, roster, current, mid, k);
    var id := roster[k];
    if r.pocketed != mid.pocketed {
      assert r.pocketed == mid.pocketed + [id];
      if Distinct(p.pocketed) {
        DistinctSnoc(mid.pocketed, id);
      }
    }
  }

  /**
   * The balls of `ids`, in list order, that are hidden in `objects` and not
   * in `listed`: what the pass appends to a pocketed list `listed`.
   */
  function NewlyPocketed(objects: seq<Ball>, listed: seq<nat>, ids: seq<nat>): (r: seq<nat>)
    requires forall q :: 0 <= q < |ids| ==> ids[q] < |objects|
    ensures forall x :: x in r ==> x in ids && x !in listed && !objects[x].visible
    decreases |ids|
  {
    if ids == [] then []
    else
      var id := ids[|ids| - 1];
      var front := ids[..|ids| - 1];
      assert forall x :: x in front ==> x in ids;
      NewlyPocketed(objects, listed, front) + (if !objects[id].visible && id !in listed then [id] else [])
  }

  /** The filter only reads the visibility of the balls it is given. */
  lemma {:induction false} NewlyPocketedFrame(objects: seq<Ball>, objects': seq<Ball>, listed: seq<nat>, ids: seq<nat>)
    requires forall q :: 0 <= q < |ids| ==> ids[q] < |objects| && ids[q] < |objects'|
    requires forall q :: 0 <= q < |ids| ==> objects[ids[q]].visible == objects'[ids[q]].visible
    ensures NewlyPocketed(objects, listed, ids) == NewlyPocketed(objects', listed, ids)
    decreases |ids|
  {
    if ids != [] {
      NewlyPocketedFrame(objects, objects', listed, ids[..|ids| - 1]);
    }
  }

  /** After the first k iterations the pocketed list is the old one followed by the newly hidden balls, in active-list order. */
  predicate PocketedInOrder(roster: seq<nat>, p: Pass, r: Pass, k: nat)
    requires k <= |roster|
    requires forall m :: 0 <= m < |roster| ==> roster[m] < |r.objects|
  {
    r.pocketed == p.pocketed + NewlyPocketed(r.objects, p.pocketed, roster[..k])
  }

  lemma PocketBallOrder(inPocket: Vec -> bool, roster: seq<nat>, current: nat, p: Pass, mid: Pass, k: nat)
    requires PassOk(roster, current, mid) && k < |roster| && Distinct(roster)
    requires PocketedInOrder(roster, p, mid, k)
    ensures PocketedInOrder(roster, p, PocketBall(inPocket, roster, current, mid, k), k + 1)
  {
    var r := PocketBall(inPocket, roster, current, mid, k);
    var id := roster[k];
    var front := roster[..k];
    assert roster[..k + 1][..k] == front;
    assert id !in front;
    NewlyPocketedFrame(mid.objects, r.objects, p.pocketed, front);
    var before := NewlyPocketed(mid.objects, p.pocketed, front);
    assert id !in before;
    assert NewlyPocketed(r.objects, p.pocketed, roster[..k + 1])
      == before + (if !r.objects[id].visible && id !in p.pocketed then [id] else []);
    assert id in mid.pocketed <==> id in p.pocketed;
  }

  /** The first k balls of the active list are listed as pocketed when hidden. */
  predicate HiddenListed(roster: seq<nat>, r: Pass, k: nat)
    requires k <= |roster|
  {
    forall m :: 0 <= m < k && roster[m] < |r.objects| && !r.objects[roster[m]].visible ==> roster[m] in r.pocketed
  }

  lemma PocketBallHiddenListed(inPocket: Vec -> bool, roster: seq<nat>, current: nat, mid: Pass, k: nat)
    requires PassOk(roster, current, mid) && k < |roster|
    requires HiddenListed(roster, mid, k)
    ensures HiddenListed(roster, PocketBall(inPocket, roster, current, mid, k), k + 1)
  {
    var r := PocketBall(inPocket, roster, current, mid, k);
    assert forall x :: x in mid.pocketed ==> x in r.pocketed;
  }

  /** Position `q` holds the first red or yellow ball among `ids`. */
  predicate FirstSuitAt(objects: seq<Ball>, ids: seq<nat>, q: int)
    requires forall q :: 0 <= q < |ids| ==> ids[q] < |objects|
  {
    && 0 <= q < |ids|
    && IsSuit(objects[ids[q]].color)
    && forall q' :: 0 <= q' < q ==> !IsSuit(objects[ids[q']].color)
  }

  /** The first red or yellow ball among `ids`, if any. */
  function FirstSuit(objects: seq<Ball>, ids: seq<nat>): (r: Option<Color>)
    requires forall q :: 0 <= q < |ids| ==> ids[q] < |objects|
    ensures r.Some? ==> IsSuit(r.value)
    ensures r.Some? ==> exists q :: FirstSuitAt(objects, ids, q) && objects[ids[q]].color == r.value
    ensures r.None? ==> forall q :: 0 <= q < |ids| ==> !IsSuit(objects[ids[q]].color)
  {
    if ids == [] then None
    else if IsSuit(objects[ids[0]].color) then
      assert FirstSuitAt(objects, ids, 0);
      Some(objects[ids[0]].color)
    else
      var t := FirstSuit(objects, ids[1..]);
      assert t.Some? ==> exists q :: FirstSuitAt(objects, ids, q) && objects[ids[q]].color == t.value by {
        if t.Some? {
          var q :| FirstSuitAt(objects, ids[1..], q) && objects[ids[1..][q]].color == t.value;
          forall q' | 0 <= q' < q + 1 ensures !IsSuit(objects[ids[q']].color) {
            if q' > 0 { assert ids[q'] == ids[1..][q' - 1]; }
          }
          assert FirstSuitAt(objects, ids, q + 1);
        }
      }
      t
  }

  lemma {:induction false} FirstSuitSnoc(objects: seq<Ball>, ids: seq<nat>, id: nat)
    requires forall q :: 0 <= q < |ids| ==> ids[q] < |objects|
    requires id < |objects|
    ensures FirstSuit(objects, ids + [id]) ==
      if FirstSuit(objects, ids).Some? then FirstSuit(objects, ids)
      else if IsSuit(objects[id].color) then Some(objects[id].color)
      else None
    decreases |ids|
  {
    if ids != [] {
      assert (ids + [id])[1..] == ids[1..] + [id];
      FirstSuitSnoc(objects, ids[1..], id);
    }
  }

  /** The suits after pocketing: `s` fixes the current player's suit and its complement the opponent's. */
  function SuitsAfter(players: seq<Player>, current: nat, s: Option<Color>): seq<Player>
    requires |players| == 2 && current < 2
  {
    if players[current].suit.None? && s.Some? then AssignSuit(players, current, s.value) else players
  }

  /**
   * The suits of a match: either nobody holds one, or one player holds red or
   * yellow and the other the complement. The suit assignment keeps this.
   */
  predicate SuitsPaired(players: seq<Player>)
    requires |players| == 2
  {
    || (players[0].suit.None? && players[1].suit.None?)
    || (&& players[0].suit.Some? && IsSuit(players[0].suit.value)
        && players[1].suit == Some(Complement(players[0].suit.value)))
  }

  /** Under paired suits a suit is assigned only when nobody holds one, and the pairing is kept. */
  lemma SuitsAfterPaired(players: seq<Player>, current: nat, s: Option<Color>)
    requires |players| == 2 && current < 2 && SuitsPaired(players)
    requires s.Some? ==> IsSuit(s.value)
    ensures SuitsPaired(SuitsAfter(players, current, s))
    ensures players[0].suit.Some? || players[1].suit.Some? ==> SuitsAfter(players, current, s) == players
  {
  }

  /** The players after a pass: the suits follow from the first red or yellow ball newly pocketed. */
  predicate SuitsFixedBy(current: nat, p: Pass, r: Pass)
    requires |p.players| == 2 && current < 2
    requires |p.pocketed| <= |r.pocketed|
    requires forall q :: 0 <= q < |r.pocketed| ==> r.pocketed[q] < |p.objects|
  {
    r.players == SuitsAfter(p.players, current, FirstSuit(p.objects, r.pocketed[|p.pocketed|..]))
  }

  lemma PocketBallSuits(inPocket: Vec -> bool, roster: seq<nat>, current: nat, p: Pass, mid: Pass, k: nat)
    requires PassOk(roster, current, p) && PassOk(roster, current, mid) && k < |roster|
    requires PocketedAfter(roster, p, mid) && BallsAfter(inPocket, roster, p, mid, k)
    requires SuitsFixedBy(current, p, mid)
    ensures PocketedAfter(roster, p, PocketBall(inPocket, roster, current, mid, k))
    ensures SuitsFixedBy(current, p, PocketBall(inPocket, roster, current, mid, k))
  {
    PocketBallPocketed(inPocket, roster, current, p, mid, k);
    var r := PocketBall(inPocket, roster, current, mid, k);
    var n0 := |p.pocketed|;
    var before := mid.pocketed[n0..];
    var id := roster[k];
    if r.pocketed != mid.pocketed {
      assert r.pocketed[n0..] == before + [id];
      FirstSuitSnoc(p.objects, before, id);
      assert mid.objects[id].color == p.objects[id].color;
    }
  }

  lemma PocketedAfterNothing(roster: seq<nat>, p: Pass)
    ensures PocketedAfter(roster, p, p)
  {
  }

  /** The first k iterations of the `forEach`, as a function. */
  function PocketRun(inPocket: Vec -> bool, roster: seq<nat>, current: nat, p: Pass, k: nat): (r: Pass)
    requires PassOk(roster, current, p) && k <= |roster|
    ensures PassOk(roster, current, r) && |r.objects| == |p.objects|
    decreases k
  {
    if k == 0 then p
    else PocketBall(inPocket, roster, current, PocketRun(inPocket, roster, current, p, k - 1), k - 1)
  }

  function PassOf(w: World): Pass {
    Pass(w.objects, w.turn.pocketed, w.players)
  }

  /** The world after `handleBallsInPockets`: the whole `forEach` applied to its part of the world. */
  function PocketsResolved(c: Config, w: World): (r: World)
    requires WellFormed(w)
    ensures WellFormed(r)
  {
    var p := PocketRun(PocketTest(c), w.roster, w.current, PassOf(w), |w.roster|);
    w.(objects := p.objects, players := p.players, turn := w.turn.(pocketed := p.pocketed))
  }

  /**
   * `handleBallsInPockets`: the `forEach` over the active list. Balls in a
   * pocket are hidden and nothing else about any ball changes; every hidden
   * ball of the active list ends up in the pocketed list, which grows by
   * appending exactly the newly hidden balls, in active-list order, and never
   * lists one twice; suits are fixed by the first red or yellow ball newly
   * pocketed, and only while the current player has none. Under paired suits
   * a suit already held is never changed.
   */
  method HandleBallsInPockets(c: Config, w: World) returns (r: World)
    requires WellFormed(w)
    ensures WellFormed(r)
    ensures r == w.(objects := r.objects, players := r.players, turn := w.turn.(pocketed := r.turn.pocketed))
    ensures |r.objects| == |w.objects|
    ensures forall id :: 0 <= id < |w.objects| ==>
      r.objects[id] == w.objects[id].(visible := w.objects[id].visible && (id in w.roster ==> !InsidePocket(c, w.objects[id].pos)))
    ensures r.turn.pocketed == w.turn.pocketed + NewlyPocketed(r.objects, w.turn.pocketed, w.roster)
    ensures HiddenListed(w.roster, PassOf(r), |w.roster|)
    ensures Distinct(w.turn.pocketed) ==> Distinct(r.turn.pocketed)
    ensures TurnConsistent(w) ==> TurnConsistent(r)
    ensures SuitsFixedBy(w.current, PassOf(w), PassOf(r))
    ensures PassOf(r) == PocketRun(PocketTest(c), w.roster, w.current, PassOf(w), |w.roster|)
    ensures CurrentPlayer(w).suit.Some? ==> r.players == w.players
    ensures SuitsPaired(w.players) ==> SuitsPaired(r.players)
    ensures SuitsPaired(w.players) && (w.players[0].suit.Some? || w.players[1].suit.Some?) ==> r.players == w.players
  {
    var p := PocketPass(PocketTest(c), w.roster, w.current, PassOf(w));
    r := w.(objects := p.objects, players := p.players, turn := w.turn.(pocketed := p.pocketed));
    PassVisibility(PocketTest(c), w.roster, PassOf(w), p);
    PassConsistent(w, p);
    PassPaired(w, p);
  }

  /** The pocketed list stays a duplicate-free list of active balls. */
  lemma PassConsistent(w: World, p: Pass)
    requires WellFormed(w) && PocketedAfter(w.roster, PassOf(w), p)
    ensures TurnConsistent(w) ==> TurnConsistent(w.(turn := w.turn.(pocketed := p.pocketed)))
  {
    assert forall q :: |w.turn.pocketed| <= q < |p.pocketed| ==> p.pocketed[q] in w.roster;
  }

  /** Paired suits stay paired, and a suit already held stays. */
  lemma PassPaired(w: World, p: Pass)
    requires WellFormed(w) && |w.turn.pocketed| <= |p.pocketed|
    requires forall q :: 0 <= q < |p.pocketed| ==> p.pocketed[q] < |w.objects|
    requires SuitsFixedBy(w.current, PassOf(w), p)
    ensures SuitsPaired(w.players) ==> SuitsPaired(p.players)
    ensures SuitsPaired(w.players) && (w.players[0].suit.Some? || w.players[1].suit.Some?) ==> p.players == w.players
  {
    if SuitsPaired(w.players) {
      SuitsAfterPaired(w.players, w.current, FirstSuit(w.objects, p.pocketed[|w.turn.pocketed|..]));
    }
  }

  /** The loop of the `forEach`, on the part of the world it reads and writes. */
  method PocketPass(inPocket: Vec -> bool, roster: seq<nat>, current: nat, p0: Pass) returns (p: Pass)
    requires PassOk(roster, current, p0) && Distinct(roster)
    ensures PassOk(roster, current, p)
    ensures BallsAfter(inPocket, roster, p0, p, |roster|)
    ensures PocketedAfter(roster, p0, p)
    ensures HiddenListed(roster, p, |roster|)
    ensures p.pocketed == p0.pocketed + NewlyPocketed(p.objects, p0.pocketed, roster)
    ensures SuitsFixedBy(current, p0, p)
    ensures p == PocketRun(inPocket, roster, current, p0, |roster|)
  {
    p := p0;
    var m := 0;
    BallsAfterNothing(inPocket, roster, p0);
    PocketedAfterNothing(roster, p0);
    assert p0.pocketed[|p0.pocketed|..] == [];
    assert roster[..0] == [];
    while m < |roster|
      invariant m <= |roster|
      invariant PassOk(roster, current, p)
      invariant BallsAfter(inPocket, roster, p0, p, m)
      invariant PocketedAfter(roster, p0, p)
      invariant PocketedInOrder(roster, p0, p, m)
      invariant HiddenListed(roster, p, m)
      invariant SuitsFixedBy(current, p0, p)
      invariant p == PocketRun(inPocket, roster, current, p0, m)
    {
      PocketBallBalls(inPocket, roster, current, p0, p, m);
      PocketBallSuits(inPocket, roster, current, p0, p, m);
      PocketBallHiddenListed(inPocket, roster, current, p, m);
      PocketBallOrder(inPocket, roster, current, p0, p, m);
      p := PocketBall(inPocket, roster, current, p, m);
      m := m + 1;
    }
    assert roster[..m] == roster;
  }
}
