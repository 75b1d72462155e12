/**
 * The end of a turn (game-world.ts `concludeTurn`, the rule part of
 * `nextTurn`, and the score award of `handleGameOver`).
 *
 * `concludeTurn` splices every pocketed ball that is not white out of the
 * active list (by `indexOf` and `splice(index, 1)`), recomputes the match
 * score of each player holding a suit as `8 - own - black` over what is left,
 * and stores the referee's verdict. `nextTurn` re-spots a hidden cue ball,
 * passes the turn on a foul or when nothing was pocketed, starts a fresh turn
 * with ball-in-hand after a foul, shows the stick, and asks the referee
 * whether the game is over, awarding the overall point when it is.
 */
module TurnLifecycle {
  import opened Wrappers
  import opened Geometry
  import opened GameState

  /** `Array.prototype.indexOf`: the first position of `x`, or -1 when it is absent. */
  function IndexOf(s: seq<nat>, x: nat): (r: int)
    ensures -1 <= r < |s|
    ensures r == -1 <==> x !in s
    ensures 0 <= r ==> s[r] == x && x !in s[..r]
  {
    if s == [] then -1
    else if s[0] == x then 0
    else
      var t := IndexOf(s[1..], x);
      assert s[1..][..if t < 0 then 0 else t] == s[1..1 + (if t < 0 then 0 else t)];
      if t == -1 then -1 else t + 1
  }

  /**
   * `Array.prototype.splice(start, 1)`: a negative start counts back from the
   * end, clamped at 0; a start at or past the end removes nothing.
   */
  function Splice1(s: seq<nat>, start: int): (r: seq<nat>)
    ensures |r| == if s != [] && start < |s| then |s| - 1 else |s|
  {
    var i := if start < 0 then (if |s| + start < 0 then 0 else |s| + start) else start;
    if i < |s| then s[..i] + s[i + 1..] else s
  }

  /**
   * `splice(start, 1)` removes exactly the element at its position: those
   * before it keep their places and those after it move down by one; a start
   * at or past the end removes nothing.
   */
  lemma SplicePositions(s: seq<nat>, start: int)
    ensures var i := if start < 0 then (if |s| + start < 0 then 0 else |s| + start) else start;
      var r := Splice1(s, start);
      && (i >= |s| ==> r == s)
      && (i < |s| ==>
            && |r| == |s| - 1
            && (forall k :: 0 <= k < i ==> r[k] == s[k])
            && (forall k :: i <= k < |r| ==> r[k] == s[k + 1]))
  {
  }

  /** `s` with every element of `gone` left out, in order. */
  function Drop(s: seq<nat>, gone: set<nat>): (r: seq<nat>)
    ensures |r| <= |s|
  {
    if s == [] then [] else (if s[0] in gone then [] else [s[0]]) + Drop(s[1..], gone)
  }

  lemma {:induction false} DropMembership(s: seq<nat>, gone: set<nat>, x: nat)
    ensures x in Drop(s, gone) <==> x in s && x !in gone
    decreases |s|
  {
    if s != [] {
      DropMembership(s[1..], gone, x);
      assert x in s <==> x == s[0] || x in s[1..] by {
        assert s == [s[0]] + s[1..];
      }
    }
  }

  lemma {:induction false} DropDistinct(s: seq<nat>, gone: set<nat>)
    requires Distinct(s)
    ensures Distinct(Drop(s, gone))
    decreases |s|
  {
    if s != [] {
      DropDistinct(s[1..], gone);
      assert Distinct(s[1..]);
      var rest := Drop(s[1..], gone);
      if s[0] !in gone {
        DropMembership(s[1..], gone, s[0]);
        assert s[0] !in s[1..] by {
          forall j | 0 <= j < |s[1..]| ensures s[1..][j] != s[0] {
            assert s[1..][j] == s[j + 1];
          }
        }
        assert Drop(s, gone) == [s[0]] + rest;
        forall i, j | 0 <= i < j < |[s[0]] + rest| ensures ([s[0]] + rest)[i] != ([s[0]] + rest)[j] {
          if i == 0 {
            assert ([s[0]] + rest)[j] == rest[j - 1];
          } else {
            assert ([s[0]] + rest)[i] == rest[i - 1];
            assert ([s[0]] + rest)[j] == rest[j - 1];
          }
        }
      } else {
        assert Drop(s, gone) == rest;
      }
    }
  }

  lemma {:induction false} DropNothing(s: seq<nat>, gone: set<nat>)
    requires forall k :: 0 <= k < |s| ==> s[k] !in gone
    ensures Drop(s, gone) == s
    decreases |s|
  {
    if s != [] {
      DropNothing(s[1..], gone);
    }
  }

  lemma {:induction false} DropDrop(s: seq<nat>, a: set<nat>, b: set<nat>)
    ensures Drop(Drop(s, a), b) == Drop(s, a + b)
    decreases |s|
  {
    if s != [] {
      DropDrop(s[1..], a, b);
      if s[0] !in a {
        assert Drop(s, a) == [s[0]] + Drop(s[1..], a);
        assert Drop(s, a)[1..] == Drop(s[1..], a);
      } else {
        assert Drop(s, a) == Drop(s[1..], a);
      }
    }
  }

  /** With every element listed once, splicing at `indexOf(x)` removes exactly `x`. */
  lemma {:induction false} SpliceAtIndexOf(s: seq<nat>, x: nat)
    requires Distinct(s) && x in s
    ensures Splice1(s, IndexOf(s, x)) == Drop(s, {x})
    decreases |s|
  {
    if s[0] == x {
      assert forall k :: 0 <= k < |s[1..]| ==> s[1..][k] == s[k + 1];
      DropNothing(s[1..], {x});
    } else {
      assert x in s[1..] by {
        var k :| 0 <= k < |s| && s[k] == x;
        assert s[1..][k - 1] == x;
      }
      assert Distinct(s[1..]);
      SpliceAtIndexOf(s[1..], x);
      var t := IndexOf(s[1..], x);
      assert s[..t + 1] + s[t + 2..] == [s[0]] + (s[1..][..t] + s[1..][t + 1..]);
    }
  }

  /** As written, a ball missing from the list makes `indexOf` give -1, and `splice(-1, 1)` then removes the last ball. */
  lemma SpliceOfMissingDropsLast(s: seq<nat>, x: nat)
    requires x !in s && s != []
    ensures Splice1(s, IndexOf(s, x)) == s[..|s| - 1]
  {
  }

  /** The ids among `ps` whose ball is not white: what `concludeTurn` removes. */
  function Gone(objects: seq<Ball>, ps: seq<nat>): set<nat>
    requires forall q :: 0 <= q < |ps| ==> ps[q] < |objects|
  {
    set q | 0 <= q < |ps| && objects[ps[q]].color != White :: ps[q]
  }

  /** How many ids of `ids` name a ball of colour `col` (`getBallsByColor(col).length` over the active list). */
  function CountColor(objects: seq<Ball>, ids: seq<nat>, col: Color): (n: nat)
    requires forall q :: 0 <= q < |ids| ==> ids[q] < |objects|
    ensures n <= |ids|
  {
    if ids == [] then 0
    else (if objects[ids[0]].color == col then 1 else 0) + CountColor(objects, ids[1..], col)
  }

  lemma DropBounded(s: seq<nat>, gone: set<nat>, n: nat)
    requires forall q :: 0 <= q < |s| ==> s[q] < n
    ensures forall q :: 0 <= q < |Drop(s, gone)| ==> Drop(s, gone)[q] < n
  {
    forall q | 0 <= q < |Drop(s, gone)| ensures Drop(s, gone)[q] < n {
      DropMembership(s, gone, Drop(s, gone)[q]);
    }
  }

  lemma {:induction false} CountColorWithout(objects: seq<Ball>, s: seq<nat>, x: nat, col: Color)
    requires forall q :: 0 <= q < |s| ==> s[q] < |objects|
    requires Distinct(s) && x in s
    ensures forall q :: 0 <= q < |Drop(s, {x})| ==> Drop(s, {x})[q] < |objects|
    ensures CountColor(objects, Drop(s, {x}), col) == CountColor(objects, s, col) - (if objects[x].color == col then 1 else 0)
    decreases |s|
  {
    DropBounded(s, {x}, |objects|);
    var one := if objects[x].color == col then 1 else 0;
    if s[0] == x {
      assert Drop(s, {x}) == s[1..] by {
        assert forall k :: 0 <= k < |s[1..]| ==> s[1..][k] == s[k + 1];
        DropNothing(s[1..], {x});
      }
      assert CountColor(objects, s, col) == one + CountColor(objects, s[1..], col);
    } else {
      assert x in s[1..] by {
        var k :| 0 <= k < |s| && s[k] == x;
        assert s[1..][k - 1] == x;
      }
      var d := Drop(s[1..], {x});
      assert CountColor(objects, d, col) == CountColor(objects, s[1..], col) - one by {
        assert Distinct(s[1..]);
        CountColorWithout(objects, s[1..], x, col);
      }
      assert Drop(s, {x}) == [s[0]] + d;
      assert ([s[0]] + d)[1..] == d;
    }
  }

  lemma {:induction false} CountColorSnoc(objects: seq<Ball>, ids: seq<nat>, x: nat, col: Color)
    requires forall q :: 0 <= q < |ids| ==> ids[q] < |objects|
    requires x < |objects|
    ensures CountColor(objects, ids + [x], col) == CountColor(objects, ids, col) + (if objects[x].color == col then 1 else 0)
    decreases |ids|
  {
    if ids != [] {
      assert (ids + [x])[1..] == ids[1..] + [x];
      CountColorSnoc(objects, ids[1..], x, col);
    }
  }

  /** Splicing one element out keeps a list duplicate-free and adds nothing to it. */
  lemma SpliceShrinks(s: seq<nat>, start: int)
    ensures Distinct(s) ==> Distinct(Splice1(s, start))
    ensures forall x :: x in Splice1(s, start) ==> x in s
  {
    var i := if start < 0 then (if |s| + start < 0 then 0 else |s| + start) else start;
    if i < |s| {
      var r := s[..i] + s[i + 1..];
      assert forall k :: 0 <= k < |r| ==> r[k] == if k < i then s[k] else s[k + 1];
    }
  }

  /** The pocketed balls are distinct members of the active list (`TurnConsistent` in list form). */
  predicate Consistent(roster: seq<nat>, pocketed: seq<nat>) {
    Distinct(roster) && Distinct(pocketed) && (forall q :: 0 <= q < |pocketed| ==> pocketed[q] in roster)
  }

  /** After the first `q` pocketed balls: what has been removed and how the colour counts have dropped. */
  predicate RemovedSoFar(objects: seq<Ball>, roster: seq<nat>, pocketed: seq<nat>, q: nat, r: seq<nat>)
    requires q <= |pocketed|
    requires forall k :: 0 <= k < |roster| ==> roster[k] < |objects|
    requires forall k :: 0 <= k < |pocketed| ==> pocketed[k] < |objects|
    requires forall k :: 0 <= k < |r| ==> r[k] < |objects|
  {
    && r == Drop(roster, Gone(objects, pocketed[..q]))
    && Distinct(r)
    && forall col :: col != White ==>
         CountColor(objects, r, col) == CountColor(objects, roster, col) - CountColor(objects, pocketed[..q], col)
  }

  /** The set of removed balls grows by the next pocketed ball exactly when it is not white. */
  lemma GoneSnoc(objects: seq<Ball>, pocketed: seq<nat>, q: nat)
    requires q < |pocketed|
    requires forall k :: 0 <= k < |pocketed| ==> pocketed[k] < |objects|
    ensures Gone(objects, pocketed[..q + 1]) ==
      Gone(objects, pocketed[..q]) + (if objects[pocketed[q]].color != White then {pocketed[q]} else {})
  {
    assert pocketed[..q + 1] == pocketed[..q] + [pocketed[q]];
  }

  /** The next pocketed ball has not been removed yet. */
  lemma NextStillListed(objects: seq<Ball>, roster: seq<nat>, pocketed: seq<nat>, q: nat)
    requires q < |pocketed|
    requires forall k :: 0 <= k < |pocketed| ==> pocketed[k] < |objects|
    requires Consistent(roster, pocketed)
    ensures pocketed[q] in Drop(roster, Gone(objects, pocketed[..q]))
  {
    var id := pocketed[q];
    assert id in roster;
    assert id !in Gone(objects, pocketed[..q]) by {
      forall k | 0 <= k < q ensures pocketed[..q][k] != id {
        assert pocketed[..q][k] == pocketed[k];
      }
    }
    DropMembership(roster, Gone(objects, pocketed[..q]), id);
  }

  /** One iteration of the removal loop, on the list. */
  lemma RemoveStepList(objects: seq<Ball>, roster: seq<nat>, pocketed: seq<nat>, q: nat, r: seq<nat>)
    requires q < |pocketed|
    requires forall k :: 0 <= k < |pocketed| ==> pocketed[k] < |objects|
    requires Consistent(roster, pocketed)
    requires r == Drop(roster, Gone(objects, pocketed[..q]))
    ensures var id := pocketed[q];
      var r' := if objects[id].color != White then Splice1(r, IndexOf(r, id)) else r;
      r' == Drop(roster, Gone(objects, pocketed[..q + 1])) && Distinct(r')
  {
    var id := pocketed[q];
    var gone := Gone(objects, pocketed[..q]);
    GoneSnoc(objects, pocketed, q);
    DropDistinct(roster, gone);
    if objects[id].color != White {
      NextStillListed(objects, roster, pocketed, q);
      SpliceAtIndexOf(r, id);
      DropDrop(roster, gone, {id});
      DropDistinct(roster, gone + {id});
      assert Gone(objects, pocketed[..q + 1]) == gone + {id};
    } else {
      assert Gone(objects, pocketed[..q + 1]) == gone;
    }
  }

  /** One iteration of the removal loop, on the colour counts. */
  lemma RemoveStepCounts(objects: seq<Ball>, roster: seq<nat>, pocketed: seq<nat>, q: nat, r: seq<nat>)
    requires q < |pocketed|
    requires forall k :: 0 <= k < |roster| ==> roster[k] < |objects|
    requires forall k :: 0 <= k < |pocketed| ==> pocketed[k] < |objects|
    requires forall k :: 0 <= k < |r| ==> r[k] < |objects|
    requires Distinct(r) && pocketed[q] in r
    requires forall col :: col != White ==>
      CountColor(objects, r, col) == CountColor(objects, roster, col) - CountColor(objects, pocketed[..q], col)
    ensures var id := pocketed[q];
      var r' := if objects[id].color != White then Drop(r, {id}) else r;
      && (forall k :: 0 <= k < |r'| ==> r'[k] < |objects|)
      && forall col :: col != White ==>
           CountColor(objects, r', col) == CountColor(objects, roster, col) - CountColor(objects, pocketed[..q + 1], col)
  {
    var id := pocketed[q];
    CountColorWithout(objects, r, id, White);
    assert pocketed[..q + 1] == pocketed[..q] + [id];
    forall col | col != White
      ensures CountColor(objects, pocketed[..q + 1], col) == CountColor(objects, pocketed[..q], col) + (if objects[id].color == col then 1 else 0)
    {
      CountColorSnoc(objects, pocketed[..q], id, col);
    }
    forall col | col != White
      ensures CountColor(objects, Drop(r, {id}), col) == CountColor(objects, r, col) - (if objects[id].color == col then 1 else 0)
    {
      CountColorWithout(objects, r, id, col);
    }
  }

  /** One iteration of the removal loop keeps `RemovedSoFar`. */
  lemma RemoveStep(objects: seq<Ball>, roster: seq<nat>, pocketed: seq<nat>, q: nat, r: seq<nat>)
    requires q < |pocketed|
    requires forall k :: 0 <= k < |roster| ==> roster[k] < |objects|
    requires forall k :: 0 <= k < |pocketed| ==> pocketed[k] < |objects|
    requires forall k :: 0 <= k < |r| ==> r[k] < |objects|
    requires Consistent(roster, pocketed)
    requires RemovedSoFar(objects, roster, pocketed, q, r)
    ensures var id := pocketed[q];
      var r' := if objects[id].color != White then Splice1(r, IndexOf(r, id)) else r;
      && (forall k :: 0 <= k < |r'| ==> r'[k] < |objects|)
      && RemovedSoFar(objects, roster, pocketed, q + 1, r')
  {
    var id := pocketed[q];
    var gone := Gone(objects, pocketed[..q]);
    var r' := if objects[id].color != White then Splice1(r, IndexOf(r, id)) else r;
    assert r' == Drop(roster, Gone(objects, pocketed[..q + 1])) && Distinct(r') by {
      RemoveStepList(objects, roster, pocketed, q, r);
    }
    assert (forall k :: 0 <= k < |r'| ==> r'[k] < |objects|)
      && forall col :: col != White ==>
           CountColor(objects, r', col) == CountColor(objects, roster, col) - CountColor(objects, pocketed[..q + 1], col)
    by {
      NextStillListed(objects, roster, pocketed, q);
      if objects[id].color != White {
        SpliceAtIndexOf(r, id);
      }
      RemoveStepCounts(objects, roster, pocketed, q, r);
    }
  }

  /**
   * The `forEach` of `concludeTurn` as written: each pocketed ball that is not
   * white is spliced out at its `indexOf`. The list stays duplicate-free and
   * gains nothing. When the pocketed balls are distinct members of the list,
   * the result is the list with exactly those balls left out, in the same
   * order, and the count of every colour but white drops by the number of its
   * balls pocketed.
   */
  method RemovePocketed(objects: seq<Ball>, roster: seq<nat>, pocketed: seq<nat>) returns (r: seq<nat>)
    requires forall q :: 0 <= q < |roster| ==> roster[q] < |objects|
    requires forall q :: 0 <= q < |pocketed| ==> pocketed[q] < |objects|
    ensures forall q :: 0 <= q < |r| ==> r[q] < |objects|
    ensures Distinct(roster) ==> Distinct(r)
    ensures forall x :: x in r ==> x in roster
    ensures Consistent(roster, pocketed) ==>
      && r == Drop(roster, Gone(objects, pocketed))
      && forall col :: col != White ==>
           CountColor(objects, r, col) == CountColor(objects, roster, col) - CountColor(objects, pocketed, col)
  {
    var consistent := Consistent(roster, pocketed);
    r := roster;
    var q := 0;
    assert pocketed[..0] == [];
    assert Gone(objects, pocketed[..0]) == {};
    DropNothing(roster, {});
    while q < |pocketed|
      invariant 0 <= q <= |pocketed|
      invariant forall k :: 0 <= k < |r| ==> r[k] < |objects|
      invariant Distinct(roster) ==> Distinct(r)
      invariant forall x :: x in r ==> x in roster
      invariant consistent ==> RemovedSoFar(objects, roster, pocketed, q, r)
    {
      var id := pocketed[q];
      var index := IndexOf(r, id);
      var before := r;
      if objects[id].color != White {
        SpliceShrinks(r, index);
        r := Splice1(r, index);
      }
      if consistent {
        assert RemovedSoFar(objects, roster, pocketed, q + 1, r) by {
          RemoveStep(objects, roster, pocketed, q, before);
        }
      }
      q := q + 1;
    }
    assert pocketed[..q] == pocketed;
  }

  /** The match score of a player holding a suit: `8 - own - black` over the active list; no suit, no change. */
  function Rescore(p: Player, objects: seq<Ball>, roster: seq<nat>): Player
    requires forall q :: 0 <= q < |roster| ==> roster[q] < |objects|
  {
    match p.suit
    case Some(s) => p.(matchScore := 8 - CountColor(objects, roster, s) - CountColor(objects, roster, Black))
    case None => p
  }

  /** The balls of the pocketed list, in order, as the referee sees them through the turn record. */
  function PocketedBalls(w: World): (r: seq<Ball>)
    requires WellFormed(w)
    ensures |r| == |w.turn.pocketed|
    ensures forall q :: 0 <= q < |r| ==> r[q] == w.objects[w.turn.pocketed[q]]
  {
    seq(|w.turn.pocketed|, q requires 0 <= q < |w.turn.pocketed| => w.objects[w.turn.pocketed[q]])
  }

  /**
   * The world `concludeTurn` leaves, stated with the filter `Drop` instead of
   * the `indexOf`/`splice` loop: the active list without the non-white
   * pocketed balls, both players rescored over it, and the referee's verdict
   * on the rescored current player as the turn's validity.
   */
  function Concluded(referee: Referee, w: World): (r: World)
    requires WellFormed(w)
    ensures WellFormed(r)
    ensures r == w.(roster := r.roster, players := r.players, turn := r.turn)
  {
    var roster := Drop(w.roster, Gone(w.objects, w.turn.pocketed));
    DropDistinct(w.roster, Gone(w.objects, w.turn.pocketed));
    DropBounded(w.roster, Gone(w.objects, w.turn.pocketed), |w.objects|);
    var players := [Rescore(w.players[0], w.objects, roster), Rescore(w.players[1], w.objects, roster)];
    w.(roster := roster, players := players,
       turn := w.turn.(isValid := referee.isValidTurn(players[w.current], w.turn, PocketedBalls(w))))
  }

  /**
   * `concludeTurn`. With a consistent turn record the active list loses
   * exactly the pocketed balls that are not white; each player holding a suit
   * scores `8` less the balls of their suit and the black balls still in the
   * list, which is the count before the turn less the ones pocketed in it;
   * a player without a suit keeps their score; the turn's validity becomes
   * the referee's verdict on the rescored current player and the finished
   * turn. Nothing else changes.
   */
  method ConcludeTurn(referee: Referee, w: World) returns (r: World)
    requires WellFormed(w)
    ensures WellFormed(r)
    ensures r.objects == w.objects && r.cue == w.cue && r.eight == w.eight && r.current == w.current
    ensures r.stick == w.stick && r.ballsCollided == w.ballsCollided
    ensures TurnConsistent(w) && Distinct(w.roster) ==>
      r.roster == Drop(w.roster, Gone(w.objects, w.turn.pocketed))
    ensures forall p :: 0 <= p < 2 ==>
      && r.players[p].suit == w.players[p].suit
      && r.players[p].overallScore == w.players[p].overallScore
      && (w.players[p].suit.None? ==> r.players[p].matchScore == w.players[p].matchScore)
      && (w.players[p].suit.Some? ==>
            r.players[p].matchScore == 8 - CountColor(w.objects, r.roster, w.players[p].suit.value)
                                         - CountColor(w.objects, r.roster, Black))
    ensures TurnConsistent(w) ==> forall p :: 0 <= p < 2 && w.players[p].suit.Some? && w.players[p].suit.value != White ==>
      r.players[p].matchScore ==
        8 - (CountColor(w.objects, w.roster, w.players[p].suit.value) - CountColor(w.objects, w.turn.pocketed, w.players[p].suit.value))
          - (CountColor(w.objects, w.roster, Black) - CountColor(w.objects, w.turn.pocketed, Black))
    ensures r.turn == w.turn.(isValid := referee.isValidTurn(r.players[w.current], w.turn, PocketedBalls(w)))
    ensures TurnConsistent(w) ==> r == Concluded(referee, w)
  {
    var roster := RemovePocketed(w.objects, w.roster, w.turn.pocketed);
    var next := NextIndex(w.current);
    var players := w.players[w.current := Rescore(w.players[w.current], w.objects, roster)];
    players := players[next := Rescore(players[next], w.objects, roster)];
    var verdict := referee.isValidTurn(players[w.current], w.turn, PocketedBalls(w));
    r := w.(roster := roster, players := players, turn := w.turn.(isValid := verdict));
    assert next == 1 - w.current;
    assert players == [Rescore(w.players[0], w.objects, roster), Rescore(w.players[1], w.objects, roster)];
  }

  datatype TurnOutcome = TurnOutcome(world: World, gameOver: bool)

  /** `handleGameOver`, score part: the current player wins the point when the turn record is valid, else the other player. */
  function AwardOverall(w: World): (r: World)
    requires WellFormed(w)
    ensures WellFormed(r)
    ensures r == w.(players := r.players)
    ensures forall p :: 0 <= p < 2 ==>
      && r.players[p].suit == w.players[p].suit
      && r.players[p].matchScore == w.players[p].matchScore
      && r.players[p].overallScore ==
           w.players[p].overallScore + (if p == (if w.turn.isValid then w.current else 1 - w.current) then 1 else 0)
  {
    var winner := if w.turn.isValid then w.current else NextIndex(w.current);
    w.(players := w.players[winner := w.players[winner].(overallScore := w.players[winner].overallScore + 1)])
  }

  /** The rule part of `nextTurn`, before the game-over test. */
  function StartNextTurn(c: Config, w: World): (r: World)
    requires WellFormed(w)
    ensures WellFormed(r)
    ensures var foul := !w.turn.isValid;
      && r.turn == Turn(foul, [], None, c.initialIsValid)
      && r.current == (if foul || |w.turn.pocketed| == 0 then 1 - w.current else w.current)
    ensures var cue := w.objects[w.cue];
      r.objects == w.objects[w.cue := if cue.visible then cue else cue.(pos := c.cueBallPosition, visible := true)]
    ensures r.objects[w.cue].visible
    ensures r.stick == w.stick.(pos := r.objects[w.cue].pos, visible := true)
    ensures r.roster == w.roster && r.cue == w.cue && r.eight == w.eight && r.players == w.players
    ensures r.ballsCollided == w.ballsCollided
  {
    var foul := !w.turn.isValid;
    var cue := w.objects[w.cue];
    var shown := if cue.visible then w else SetBall(w, w.cue, ShowBall(cue, c.cueBallPosition));
    var current := if foul || |w.turn.pocketed| == 0 then NextIndex(w.current) else w.current;
    shown.(current := current,
           stick := ShowStick(shown.stick, shown.objects[w.cue].pos),
           turn := Turn(foul, [], None, c.initialIsValid))
  }

  /**
   * `nextTurn` without its best-shot and automated-player branches. A foul
   * (an invalid turn) or a turn that pocketed nothing passes the turn to the
   * other player; otherwise the same player continues. The new turn has
   * ball-in-hand exactly after a foul, nothing pocketed, no first collision
   * and the validity of a fresh record. A hidden cue ball is shown again at
   * its starting spot, and the stick is shown at the cue ball. The referee
   * then decides whether the game is over for the player now to move; if it
   * is, the overall point goes to that player when the fresh record counts
   * as valid and to the opponent otherwise.
   */
  function NextTurn(c: Config, referee: Referee, w: World): (r: TurnOutcome)
    requires WellFormed(w)
    ensures WellFormed(r.world)
    ensures r.world == StartNextTurn(c, w).(players := r.world.players)
    ensures r.gameOver == referee.isGameOver(w.players[r.world.current], r.world.objects[w.cue], r.world.objects[w.eight])
    ensures forall p :: 0 <= p < 2 ==>
      && r.world.players[p].suit == w.players[p].suit
      && r.world.players[p].matchScore == w.players[p].matchScore
      && r.world.players[p].overallScore ==
           w.players[p].overallScore
           + (if r.gameOver && p == (if c.initialIsValid then r.world.current else 1 - r.world.current) then 1 else 0)
  {
    var w1 := StartNextTurn(c, w);
    var over := referee.isGameOver(CurrentPlayer(w1), w1.objects[w1.cue], w1.objects[w1.eight]);
    TurnOutcome(if over then AwardOverall(w1) else w1, over)
  }
}
