# Pool game world: a Dafny model

This project models the rule and geometry core of the `GameWorld` class of an
eight-ball pool game (`src/game-objects/game-world.ts`). The model is a pure
state: every ball object, the ordered list of active balls, two players, the
index of the player to move, the per-turn record, and the cue stick. Step
functions and methods transform that state. Everything the world calls but
does not implement is an uninterpreted parameter: the motion integrator
(`Motion`), the rule referee (`Referee`), the square-root geometry of a
contact (`Contact`), and the pointer and buttons (`Input`).

| file | part of `GameWorld` |
|---|---|
| `wrappers.dfy` | `Option` and `Result` |
| `geometry.dfy` | vectors over the reals, square-free distance tests, orthonormal bases |
| `game_state.dfy` | balls, players, turn record, stick, world; current and next player |
| `cushions.dfy` | the four border tests, cushion handlers and `resolveBallCollisionWithCushion` |
| `ball_collision.dfy` | `resolveBallsCollision` |
| `collision_schedule.dfy` | the visiting order of `handleCollisions` and its nested loops |
| `collision_tick.dfy` | `handleCollisions` over the world |
| `pockets.dfy` | `isInsidePocket`, `resolveBallInPocket`, `isValidPlayerColor`, `handleBallsInPockets` |
| `ball_in_hand.dfy` | `isInsideTableBoundaries`, `isValidPosToPlaceCueBall`, `placeBallInHand`, `handleBallInHand` |
| `turn_lifecycle.dfy` | `concludeTurn`, the rule part of `nextTurn`, the score part of `handleGameOver` |
| `occupancy_grid.dfy` | `calcularPosicionBola` and the fill loop of `setMatrix` |
| `frame_update.dfy` | `update`, `handleInput`, `shootCueBall` |

Modelling choices:
- Ball references are modelled by identity. `objects` is indexed by ball id, and the active list `_balls`, the cue ball, the eight-ball and the pocketed list hold ids. Splicing a ball out of the active list keeps its object, as the class keeps `_8Ball`.
- Lengths are never computed. `a.distFrom(b) <= r` becomes `WithinDist`, a comparison of squared lengths, which is exact over the reals.
- A ball pair's normal vector `n` comes with an abstract `Contact`: a length `dist` and a unit normal `un`. The pair lemmas assume the contact describes `n` (`un * dist == n`); the world-level tick takes the contact oracle unconstrained (see "Left out").
- Ball colours are an input of the model. `initMatch`, which tags every ball white, is not modelled.

Behaviours of the code that the model keeps as written:
- `handleGameOver` awards the overall point using `isValid` of the fresh turn record, because `nextTurn` has already replaced the record. It does not use the verdict on the turn just played. `TurnLifecycle.NextTurn` states this.
- `isGameOver` is asked about the player to move after the rotation.
- `concludeTurn` also splices the eight-ball out of the active list once it is pocketed.
- An invalid ball-in-hand placement still moves the cue ball to the pointer.
- `firstCollidedBallColor` is the first ball's colour unless that ball is white. It is not the colour of the struck ball.

## Model

| member | source | states |
|---|---|---|
| GameState.NextIndex | src/game-objects/game-world.ts:319-322 | the advanced player index is the other of the two players, `1 - i`, so it stays in {0, 1} |
| GameState.SetBall | src/game-objects/game-world.ts:247-252 | replacing one ball object keeps the world well formed and changes only that object: the active list, players, turn record, stick and collision flag are those of the old world |
| Cushions.TopCushion | src/game-objects/game-world.ts:118-121 | the top handler puts the ball edge exactly on the top cushion line, negates only the vertical velocity, keeps x, colour and visibility |
| Cushions.LeftCushion | src/game-objects/game-world.ts:123-126 | the left handler puts the ball edge on the left cushion line and negates only the horizontal velocity |
| Cushions.RightCushion | src/game-objects/game-world.ts:128-131 | the right handler puts the ball edge on the right cushion line and negates only the horizontal velocity |
| Cushions.BottomCushion | src/game-objects/game-world.ts:133-136 | the bottom handler puts the ball edge on the bottom cushion line and negates only the vertical velocity |
| Cushions.Reflect | src/game-objects/game-world.ts:98-157 | the top test reads the incoming ball's next position and each later test the next position of the ball as the earlier handlers left it; some border fires exactly when the next position is on or past a cushion line; a fired border clamps that edge (a later border wins) and flips the perpendicular velocity component, and opposite flips cancel |
| Cushions.ResolveCushion | src/game-objects/game-world.ts:138-162 | the same four tests fire as in `Reflect`, so a ball headed onto or past any cushion line is resolved and one headed strictly inside is left alone; the resolved ball sits on every fired cushion line, keeps the coordinates no border touched, and keeps colour and visibility |
| Cushions.CushionVelocity | src/game-objects/game-world.ts:138-162 | the velocity is the reflected velocity times `1 - collisionLoss` when any border fired and unscaled otherwise, so the loss is applied exactly once or never |
| BallCollision.ApartIffNotWithin | src/game-objects/game-world.ts:171-176 | the guard `dist > diameter` holds exactly when the centres are not within a diameter |
| BallCollision.ResolveBallsCollision | src/game-objects/game-world.ts:164-213 | a pair collides exactly when both balls are visible and `dist <= diameter`; otherwise nothing changes; colours and visibility never change |
| BallCollision.CollidesIffTouching | src/game-objects/game-world.ts:164-178 | with the true line of centres, a pair collides exactly when both are visible and their centres are at most a diameter apart |
| BallCollision.CollisionSeparates | src/game-objects/game-world.ts:180-185 | after a collision the centres are exactly a diameter apart along the normal, and their midpoint has not moved |
| BallCollision.CollisionExchangesNormals | src/game-objects/game-world.ts:187-210 | each ball's new normal component is the other's old one times `1 - loss`; each keeps its own tangential component times `1 - loss` |
| BallCollision.LosslessPreservesMomentum | src/game-objects/game-world.ts:194-210 | with no loss the sum of the two velocities is preserved |
| BallCollision.LosslessPreservesEnergy | src/game-objects/game-world.ts:194-210 | with no loss the sum of the squared speeds is preserved |
| BallCollision.HeadOnTransfer | src/game-objects/game-world.ts:194-210 | a head-on hit on a resting ball stops the striker and sends the struck ball off with the striker's velocity times `1 - loss` |
| BallCollision.ExchangeHeadOn | src/game-objects/game-world.ts:200-210 | the velocity formula on a normal-only velocity and a zero velocity gives zero and the scaled velocity |
| BallCollision.ExchangedComponents | src/game-objects/game-world.ts:194-207 | the new velocity's normal component is the other ball's times `1 - loss`, its tangential one the own ball's |
| Geometry.OrthonormalDecomposition | src/game-objects/game-world.ts:188-197 | a unit normal and its quarter turn decompose any velocity into its two projections |
| Geometry.BasisCoordinates | src/game-objects/game-world.ts:194-207 | projecting `a*un + b*ut` back on the basis gives `a` and `b` |
| Geometry.BasisNormSq | src/game-objects/game-world.ts:194-207 | the squared length of `a*un + b*ut` is `a*a + b*b` |
| CollisionSchedule.ScheduleVisitsEachOnce | src/game-objects/game-world.ts:215-239 | one tick checks every active ball against the cushions exactly once and every unordered pair `i < j` exactly once, and nothing else |
| CollisionSchedule.VisitAll | src/game-objects/game-world.ts:216-238 | the nested loops apply a visit to the cushion check of ball `i` followed by the pairs `(i, j)`, `j > i`, for every `i` in order: the fold over the schedule |
| CollisionSchedule.VisitRow | src/game-objects/game-world.ts:220-237 | the inner loop applies the visit to the pairs `(i, i+1) … (i, n-1)` in order |
| CollisionTick.RecordFirstCollision | src/game-objects/game-world.ts:232-235 | the first-collided colour is written only while unset, and then is the first ball's colour, or the second's when the first is white |
| CollisionTick.ApplyEventFrame | src/game-objects/game-world.ts:218-236 | one visit only moves active balls, sets the collision flag and records the first collision once |
| CollisionTick.RunEventsFrame | src/game-objects/game-world.ts:215-239 | any sequence of visits changes nothing but positions and velocities of active balls, the collision flag (only to true) and the unset first-collided colour |
| CollisionTick.RunEventsIsFold | src/game-objects/game-world.ts:215-239 | the recursive tick and the fold of the loop step agree |
| CollisionTick.HandleCollisions | src/game-objects/game-world.ts:215-239 | the nested loops compute the tick over the schedule, and the tick keeps everything but ball motion, the collision flag and the first collision |
| Pockets.ResolveBallInPocket | src/game-objects/game-world.ts:241-252 | a ball is visible afterwards exactly when it was visible and lies in no pocket; position, velocity and colour stay |
| Pockets.Complement | src/game-objects/game-world.ts:263-266 | the opponent's suit is red or yellow and differs from a red or yellow suit |
| Pockets.AssignSuit | src/game-objects/game-world.ts:263-266 | the current player gets the colour and the opponent its complement; scores are untouched |
| Pockets.FirstSuit | src/game-objects/game-world.ts:259-267 | the colour is that of the first red or yellow ball of the list, and there is none when the list has no red or yellow ball |
| Pockets.PocketBallBalls | src/game-objects/game-world.ts:259-260 | one iteration hides its ball exactly when in a pocket and touches nothing else |
| Pockets.PocketBallPocketed | src/game-objects/game-world.ts:261-268 | one iteration appends its ball only when hidden and not yet listed, keeping the list duplicate-free |
| Pockets.PocketBallHiddenListed | src/game-objects/game-world.ts:261-268 | after an iteration every hidden ball visited so far is listed as pocketed |
| Pockets.PocketBallSuits | src/game-objects/game-world.ts:263-266 | after an iteration the suits are those fixed by the first red or yellow ball newly pocketed, if the current player had none |
| Pockets.PocketPass | src/game-objects/game-world.ts:258-270 | the loop hides exactly the active balls in a pocket, lists every hidden active ball once, appends exactly the newly hidden balls in active-list order, and fixes suits from the first red or yellow ball among them |
| Pockets.PocketBallOrder | src/game-objects/game-world.ts:259-267 | after each iteration the pocketed list is the old list followed by the balls visited so far that are hidden and were not listed, in active-list order |
| Pockets.HandleBallsInPockets | src/game-objects/game-world.ts:258-270 | on the world: each ball keeps everything but visibility, and an active ball is hidden exactly when it lies in a pocket; every hidden active ball is listed; the result is the whole `forEach` (`PocketRun`); a consistent turn record stays so; the pocketed list gains the newly hidden active balls in list order; a current player with a suit keeps the players unchanged, and paired suits stay paired, with a suit already held never changed |
| Pockets.SuitsAfterPaired | src/game-objects/game-world.ts:263-266 | when the suits are paired (nobody holds one, or the two players hold red and yellow), the assignment keeps them paired and changes nothing once either player holds a suit |
| BallInHand.CheckInsidePocket | src/game-objects/game-world.ts:241-245 | the `some` loop finds a pocket exactly when the position is within the pocket radius of one |
| BallInHand.CheckPlacement | src/game-objects/game-world.ts:615-622 | a placement is valid exactly when every non-white active ball is more than a diameter away, the spot is in no pocket and it is inside all four borders |
| BallInHand.PlaceBallInHand | src/game-objects/game-world.ts:624-628 | the cue ball goes to the spot, ball-in-hand ends, and the stick is shown there |
| BallInHand.HandleBallInHand | src/game-objects/game-world.ts:272-282 | the cue ball follows the pointer in both branches; ball-in-hand is cleared and the stick shown exactly on a pressed, legal placement; otherwise the stick is hidden and frozen |
| BallInHand.PlacementIsLegal | src/game-objects/game-world.ts:272-282 | if ball-in-hand ends, the button was pressed and the cue ball lies on the table, in no pocket, clear of every non-white ball |
| TurnLifecycle.IndexOf | src/game-objects/game-world.ts:633 | `indexOf` is -1 exactly when the ball is absent, and otherwise the first position holding it |
| TurnLifecycle.Splice1 | src/game-objects/game-world.ts:635 | `splice(start, 1)` removes one element exactly when the list is non-empty and the start lies before its end, however negative the start |
| TurnLifecycle.SplicePositions | src/game-objects/game-world.ts:635 | the removed element is the one at the start, counted back from the end when negative and clamped at 0; those before it keep their places and those after it move down by one |
| TurnLifecycle.SpliceAtIndexOf | src/game-objects/game-world.ts:633-635 | in a duplicate-free list, splicing at `indexOf(x)` removes exactly `x` |
| TurnLifecycle.SpliceOfMissingDropsLast | src/game-objects/game-world.ts:633-635 | for a ball missing from the list, `splice(indexOf(x), 1)` removes the last ball instead |
| TurnLifecycle.DropMembership | src/game-objects/game-world.ts:632-637 | a ball survives the removal exactly when it was listed and not removed |
| TurnLifecycle.CountColorWithout | src/game-objects/game-world.ts:632-645 | removing one listed ball lowers the count of its colour by one and leaves the other counts |
| TurnLifecycle.RemovePocketed | src/game-objects/game-world.ts:632-637 | the `forEach` removes exactly the non-white pocketed balls, in order, and each non-white colour count drops by the number of its balls pocketed; the list stays duplicate-free in any case |
| TurnLifecycle.ConcludeTurn | src/game-objects/game-world.ts:630-648 | each suit holder scores `8 - own - black` over the remaining balls, equal to the counts before the turn less those pocketed; players without a suit keep their score; the turn's validity is the referee's verdict; on a consistent turn record the result is exactly `Concluded`: the active list less the gone balls, both players rescored, and the verdict on the current player |
| TurnLifecycle.AwardOverall | src/game-objects/game-world.ts:285-290 | exactly one overall point is added, to the player to move when the turn record is valid and to the opponent otherwise |
| TurnLifecycle.StartNextTurn | src/game-objects/game-world.ts:312-327 | a foul or an empty pocketed list passes the turn; the new turn has ball-in-hand exactly after a foul and nothing pocketed; a hidden cue ball is re-spotted; the stick is shown at the cue ball |
| TurnLifecycle.NextTurn | src/game-objects/game-world.ts:312-350 | the next turn starts as above; the game is over as the referee decides for the player now to move; only then is one overall point awarded, by the fresh record's validity |
| OccupancyGrid.CellOf | src/game-objects/game-world.ts:601-611 | the cell is missing exactly when a coordinate is negative; otherwise both indices are non-negative |
| OccupancyGrid.CellContainsPosition | src/game-objects/game-world.ts:601-611 | a position lies in the band of its cell: `row * 762/20 <= y < (row + 1) * 762/20`, likewise for columns with `1423/37` |
| OccupancyGrid.EdgesFallOutsideGrid | src/game-objects/game-world.ts:576-611 | there is no upper bound: the right edge maps to column 37 and the bottom edge to row 20 |
| OccupancyGrid.SetCell | src/game-objects/game-world.ts:593 | writing a cell inside a row overwrites it; past the end it lengthens the row with holes |
| OccupancyGrid.Mark | src/game-objects/game-world.ts:593 | writing fails exactly when the row index is 20 or more |
| OccupancyGrid.MarkStep | src/game-objects/game-world.ts:586-595 | drawing a visible ball in the first 20 rows marks exactly its cell |
| OccupancyGrid.SetMatrix | src/game-objects/game-world.ts:576-599 | the fill fails exactly when a visible active ball lies in row 20 or beyond; otherwise a cell holds 255 exactly when a visible active ball falls in it, 0 in the other original cells, and a hole past them |
| FrameUpdate.ShootCueBall | src/game-objects/game-world.ts:650-658 | without power nothing changes; otherwise the stick takes the rotation and is frozen and the cue ball takes the shot velocity |
| FrameUpdate.StepBalls | src/game-objects/game-world.ts:690 | every active ball is stepped exactly once and no other ball is touched (`SteppedAll`); colours and visibility stay |
| FrameUpdate.Propel | src/game-objects/game-world.ts:687-690 | the collision tick, the shot when pressed, the stick update and the stepping, in that order (`Propelled`); the player to move, the active list, the players and the turn record apart from the first contact are kept, and so are every ball's colour and visibility |
| FrameUpdate.Advance | src/game-objects/game-world.ts:686-690 | the world is the pocketing pass followed by `Propelled` (`Moved`); an active ball ends hidden exactly when it was visible and lay in a pocket, other balls keep their visibility, and all keep their colour; the pocketed list is the old list followed by the newly hidden active balls in list order; suits are fixed from the first red or yellow among them; the player to move, the active list and ball-in-hand are kept; a consistent turn record and paired suits stay so |
| FrameUpdate.Settle | src/game-objects/game-world.ts:692-703 | the turn is concluded exactly when no active ball moves and the stick is hidden; a new turn then starts empty, and on a consistent turn record the world and game-over flag are `NextTurn` of `Concluded`; the grid is built exactly when the game is over, and succeeds exactly when no visible active ball lies past row 19 |
| FrameUpdate.Update | src/game-objects/game-world.ts:680-703 | with ball-in-hand only the placement runs: only the cue ball moves, nothing is pocketed, and ball-in-hand ends only on a pressed, legal placement; otherwise, with `Moved` the stepped world, the turn is concluded exactly when no active ball of `Moved` moves and its stick is hidden; until then the world is `Moved`; once concluded on a consistent turn record, the world and game-over flag are `NextTurn` of `Concluded` of `Moved`; the player to move changes only when the turn is concluded, and the game ends only then; a consistent turn record and paired suits stay so |

## Left out

- `initMatch` (the rack, the player reset and the new referee) is not modelled. Ball colours, the active list and the players are inputs, and a game over does not reset the world. `FrameUpdate.Settle` reports only whether the grid was built, which decides whether `initMatch` runs.
- The motion integrator (`Ball.nextPosition`, `Ball.update`, `Ball.moving`, `Ball.shoot`, `Stick.update`) is not shown. It is the `Motion` parameter. `Ball.update` is taken to change only position and velocity, and `Ball.shoot` only the velocity.
- `FrameUpdate.ShootCueBall`: the call to `Stick.shoot` is dropped. The stick class is not part of this model, and the shot is taken to change only the stick's animation, which `Stick` does not carry. The contract states the rotation and `movable` that `shootCueBall` itself sets.
- `CollisionTick.HandleCollisions`, `FrameUpdate.Advance` and `FrameUpdate.Update` take the contact oracle unconstrained. They do not require that every contact it returns describes its vector, so at the world level a pair may be resolved at any distance. The pair lemmas (`BallCollision.CollidesIffTouching`, `BallCollision.CollisionSeparates`, `BallCollision.CollisionExchangesNormals`) state the geometry for a contact that does describe the line of centres.
- The timer that hides the stick after a shot is folded into `Motion.stepStick`.
- `Ball.hide` and `Ball.show` are modelled by their effect on visibility and position only.
- `Stick.show` is modelled as placing and showing the stick; its effect on `movable` is not shown.
- The referee's rules are not shown. `isValidTurn` and `isGameOver` are uninterpreted functions, and `isValidTurn` also receives the pocketed ball objects, which the turn record references.
- Square roots: `n.length`, `distFrom` and the division by the length are replaced by the `Contact` parameter and by squared-length tests.
- `BallCollision.ResolveBallsCollision`: does not model the NaN positions and velocities that coincident centres produce, because a unit normal is taken as given.
- Floating point: all arithmetic is over the reals. Rounding, in particular in `Math.floor(y / (762/20))`, is not modelled.
- The automated-play and network paths are not modelled: best shots, predictions, AI sessions, `getCorrelation`, `fetch`, `nextBestShot`, `nextPrediction`, `testPredictions`, and the `_bestShots` branches of `update`, `nextTurn` and `handleGameOver`. `AI.startSession`, which `isAITurn` calls, is not part of this model; the model assumes it leaves the rule state unchanged.
- Sound, console logging and drawing (`Assets.playSound`, `mapRange`, `draw*`) are left out.
- Mouse polling is left out: the pointer, the place button and the shoot trigger (the shoot button together with `AI.finishedSession`) are the `Input` parameter.
- `Color`'s numeric values are not shown. The "unset" tests on `firstCollidedBallColor` and a player's colour are modelled as `Option`, and any assigned colour counts as set.
- The default `isValid` of a new `State` is not shown, so it is the configuration field `initialIsValid`.
- `TurnLifecycle.RemovePocketed`: its removal and count equations are proved for turn records whose pocketed balls are distinct members of the active list, which `FrameUpdate.Update` preserves. Outside that case only duplicate-freedom and the no-new-balls property are stated, and `TurnLifecycle.SpliceOfMissingDropsLast` shows what happens to a missing ball.
