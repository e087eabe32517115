# Last Crusade test server — Dafny model

This models the core of a local test server for the "Indiana Jones: The Last
Crusade" puzzle. The server plays a level against an external player for up
to 1000 turns. In each turn it sends Indy's state and the active rocks, reads
one decision (`WAIT` or `X Y LEFT|RIGHT`), rotates the named room, and
advances the game by one tick. In a tick, Indy moves one room; the active
rocks move one room each; rocks that leave the grid, hit a wall, collide with
each other or end up in a dead end are removed. A run fails on the first
ValueError the server raises.

The model follows the server's own structure:

- `Directions` (`directions.dfy`): the `Dir` enum, `opposite` and
  `get_new_coordinates`.
- `Rooms` (`rooms.dfy`): the `TURNS` and `ROTATIONS` tables.
- `World` (`world.dfy`): Indy, rocks, decisions, the ValueError reasons, the
  grid, and the `Maze` class whose `rows` the rotations update in place.
- `Rotation` (`rotation.dfy`): `apply_decision`, as a specification function
  `ApplySpec` and a method `ApplyDecision` on the maze.
- `Ticks` (`tick.dfy`): `tick`, as a specification function `TickSpec` and a
  method `Tick` made of the four loops of the source (move, rock-rock
  collisions, dead-end sweep, pops), each method proved against a function.
- `TickFacts` (`tick_facts.dfy`): what one tick guarantees.
- `Sequences` (`sequences.dfy`): removing a set of indices from a list in
  order. This is what the reversed pop loop and the comprehension in
  `send_state` do.
- `TurnLoop` (`turnloop.dfy`): the `for t in range(1000)` loop of
  `run_testcase`, as the run function `Play` and the method `RunTestcase`.
  The player's answers are an input sequence of decisions.
- `Scenarios` (`scenarios.dfy`): concrete ticks and runs.

Each ValueError is a `Failure` value, and the run ends with
`Failed(reason, t)`. `run_testcase` returns true when Indy reaches the exit
and also when the 1000 turns run out. The model keeps the two outcomes apart
(`ReachedExit`, `Exhausted`), and `Verdict` maps both to true, as the source
does.

Behaviours of the source the model keeps as written:

- The rock-rock loop stops at a rock's first partner (`break`). A later rock
  that also shares a cell with it, or swapped cells with it, is never paired
  with it. `FirstPartnerOnlyScenario` shows a rock that swapped cells with
  another and survives.
- At the exit cell, the wall check comes before the exit check. An empty
  room (layout 0) at the exit therefore fails the run instead of winning it
  (`ReachExitScenario`).
- The exit cell is a parameter. The source always puts it on the bottom row.
- An inactive rock in a dead end is removed by the final sweep
  (`InactiveDeadEndScenario`). An active one makes the tick fail, because
  CRASH has no opposite (`DeadEndRockScenario`).
- Rotating a room that holds a rock is refused even when that rock is not
  active yet.

## Model

| member | source | states |
|---|---|---|
| Directions.Opposite | testserver.py:34-44 | CRASH has no opposite (the server raises); each of the four sides maps to a different side that is not CRASH |
| Directions.Step | testserver.py:46-54 | a step is defined exactly for BOT, LEFT and RIGHT (TOP and CRASH raise), and leads to the neighbouring cell on that side, with rows numbered downwards |
| Directions.OppositeInvolution | testserver.py:34-44 | taking the opposite twice gives back the side |
| Directions.StepIsUnit | testserver.py:46-54 | a step changes exactly one coordinate, by exactly one, and never moves up |
| Directions.EntrySideFacesPrevious | testserver.py:149-150 | the entry side recorded after a step (the opposite of the exit) faces the cell just left |
| Rooms.Layout | testserver.py:58-73 | the `TURNS` table: the layout of room r is TURNS[\|r\|], each entry mapping an open entry side to an exit side (CRASH for a dead end) |
| Rooms.Rotated | testserver.py:76-90 | the `ROTATIONS` table as used at line 135: the target of rotating a room 1..13 (index 1 for RIGHT, 0 for LEFT) is again a room 1..13 |
| Rooms.LayoutShape | testserver.py:58-73 | every layout is entered only from TOP, LEFT or RIGHT, and exits only to BOT, LEFT, RIGHT or CRASH |
| Rooms.RotatableRooms | testserver.py:76-90 | exactly the rooms 1..13 have rotation targets |
| Rooms.RotationsInverse | testserver.py:76-90 | a clockwise and a counter-clockwise turn undo each other, in either order |
| Rooms.RotationInjective | testserver.py:76-90 | rotation in one direction is injective, hence a permutation of 1..13 |
| Rooms.FourRotationsIdentity | testserver.py:76-90 | four turns in the same direction give back the room |
| World.Maze.constructor | testserver.py:237-239 | the maze holds the given rows |
| Rotation.ApplySpec | testserver.py:117-136 | defines `apply_decision` on values: WAIT, then the parse, Indy's cell, the rocks' cells, a room below 1 and the token, in that order, each raising its own ValueError; otherwise the grid with (x, y) rotated |
| Rotation.ApplyDecision | testserver.py:117-136 | on success, failure is None and the maze holds the rotated grid of ApplySpec; on a ValueError, the maze is unchanged and that reason is returned |
| Rotation.WaitChangesNothing | testserver.py:118-119 | WAIT always succeeds and leaves the grid as it is |
| Rotation.OccupiedCellRejected | testserver.py:123-129 | rotating Indy's cell fails with the Indy reason; rotating any rock's cell fails with the rock reason, the Indy check first |
| Rotation.RotationEffect | testserver.py:123-136 | a rotation succeeds iff the cell is free of Indy and all rocks, its value is at least 1 and the token is LEFT or RIGHT; the result has the same shape, holds ROTATIONS[room][RIGHT] at (x, y), and is unchanged elsewhere |
| Rotation.ApplyKeepsPlacement | testserver.py:117-136 | a successful decision keeps the grid's shape, and keeps Indy and every rock in rooms that have a mapping for their entry side |
| Rotation.FixedRoomScenario | testserver.py:131-132 | rooms 0 and -6 cannot be rotated |
| Ticks.MoveIndy | testserver.py:143-158 | an accepted move puts Indy in a cell whose room has a mapping for the new entry side, and that side faces the cell Indy left |
| Ticks.MoveRock | testserver.py:165-184 | one rock's move: idle exactly when not yet active, and a moved rock lands in a room it can enter, from the side facing its old cell, with its `fromT` kept |
| Ticks.RockError | testserver.py:171-191 | defines the ValueError one rock raises in the move loop: the CRASH exit's missing opposite, or meeting Indy |
| Ticks.FirstRockError | testserver.py:164-191 | defines the error the move loop raises: the first rock error in list order, scanning from a given index |
| Ticks.AfterMove | testserver.py:164-184 | a rock's list entry after the move loop keeps its activation tick and stays placed; an inactive rock is unchanged |
| Ticks.Moved | testserver.py:164-184 | the list after the move loop has one entry per rock, entry i being rock i after its move |
| Ticks.FirstPartner | testserver.py:199-215 | the partner found for rock r1 is an active later rock that shares its new cell or swapped cells with it |
| Ticks.PairMarksOf | testserver.py:195-215 | defines what one pass of the outer rock-rock loop marks: nothing for an inactive r1, else r1 and its first partner, if any |
| Ticks.PairMarks | testserver.py:194-215 | defines the indices the rock-rock loop marks for r1 = 0 .. n-1 |
| Ticks.DeadEnds | testserver.py:217-222 | defines the rocks, active or not, whose room sends their entry to CRASH |
| Ticks.Eliminated | testserver.py:161-222 | defines `eliminated_rocks` at the end of a tick: left the grid or hit a wall, paired in the rock-rock loop, or in a dead end |
| Ticks.TickSpec | testserver.py:139-228 | defines one tick on values: Indy's move and its failure, the exit check, the first rock error, and otherwise Indy's new state with the moved rocks minus the eliminated ones |
| Ticks.MoveOne | testserver.py:165-191 | one pass of the move loop, done step by step (layout lookup, `opposite()`, `get_new_coordinates`, bounds test, wall test, Indy test), gives the rock's new entry, whether it is marked (left the grid or hit a wall) and the error it raises, as MoveRock, AfterMove and RockError define them |
| Ticks.MoveRocks | testserver.py:164-191 | the move loop raises the first rock error in list order; otherwise it yields the moved list, the set of rocks that left the grid or hit a wall, and `prev_rock_positions` holding every rock's cell before the loop, in list order |
| Ticks.MarkCollisions | testserver.py:193-215 | the rock-rock loop, with its `break`, adds exactly the PairMarks indices |
| Ticks.MarkDeadEnds | testserver.py:217-222 | the sweep adds exactly the rocks, active or not, whose room sends their entry to CRASH |
| Ticks.RemoveMarked | testserver.py:224-226 | popping the marked indices from the highest down leaves the unmarked rocks in order |
| Ticks.Tick | testserver.py:139-228 | the tick method's outcome is TickSpec of the maze rows, Indy and the rocks |
| TickFacts.MoveIndyCases | testserver.py:143-155 | a CRASH exit is Indy's dead end; otherwise the neighbour is on the grid, and Indy enters it from the side facing the old cell, or hits its wall |
| TickFacts.TickIndyOutcome | testserver.py:143-158 | a failed Indy move fails the tick; the tick reports the exit iff Indy's accepted cell is the exit cell, whatever the rocks |
| TickFacts.MoveRockCases | testserver.py:164-184 | an inactive rock is idle; an active rock in a dead end raises, because CRASH has no opposite; otherwise it leaves the grid, hits a wall or moves with its activation tick kept |
| TickFacts.FirstRockErrorSpec | testserver.py:164-191 | the move loop raises nothing iff no rock raises, and otherwise raises the error of the lowest-indexed rock that raises |
| TickFacts.TickFailsExactly | testserver.py:164-191 | after Indy moved and missed the exit, the tick fails iff some active rock is in a dead end, or lands on Indy's new cell, or swaps cells with Indy |
| TickFacts.PairMarksSound | testserver.py:193-215 | every rock the pair loop marks is active and collides with another active rock |
| TickFacts.PairMarksGrow | testserver.py:193-215 | marks made by earlier passes of the outer loop stay marked |
| TickFacts.FirstPartnerFinds | testserver.py:199-215 | the inner loop finds a colliding active rock, and finds exactly k when no active rock before k collides |
| TickFacts.PairCollisionMarked | testserver.py:193-215 | of two colliding active rocks, the lower one is always marked; the higher one is marked when no active rock between them collides with the lower one first |
| TickFacts.EliminationReasons | testserver.py:164-222 | a rock is eliminated only if it left the grid, hit a wall, collided with an active rock or sits in a dead end; each of the first, second and last always eliminates it |
| TickFacts.TickSurvivors | testserver.py:139-228 | a tick that goes on returns the moved rocks with exactly the eliminated indices removed, in order; inactive survivors are unchanged; Indy and the survivors are placed, and no survivor is in a dead end |
| Sequences.KeepFromSpec | testserver.py:224-226 | removing a set of indices leaves the k-th survivor equal to the element at the k-th smallest index not in the set, and every such index is kept |
| Sequences.KeepFromMembers | testserver.py:111 | the kept elements come from the list, and every element whose index is not removed is kept |
| TurnLoop.Verdict | testserver.py:284-288 | `run_testcase`'s boolean: true exactly when Indy reached the exit or all turns were played |
| TurnLoop.Visible | testserver.py:111 | defines the rocks `send_state` sends: the list without the rocks not active yet |
| TurnLoop.VisibleMembers | testserver.py:111 | a rock is sent iff it is in the list and its activation tick is at most t |
| TurnLoop.VisibleInOrder | testserver.py:111 | the rocks sent are the active ones in list order |
| TurnLoop.TickKeepsPlacement | testserver.py:139-228 | a tick that goes on leaves Indy and the rocks placed on the grid |
| TurnLoop.Play | testserver.py:266-288 | defines the run from turn t: no turns left ends it as exhausted, otherwise turn t's snapshot is sent and the rest of the run follows |
| TurnLoop.Rest | testserver.py:273-282 | defines a turn after `send_state`: a rotation of a cell off the grid aborts it; a raised ValueError fails the run in turn t; Indy's step off the grid aborts it; reaching the exit ends it; otherwise turn t + 1 follows on the rotated grid |
| TurnLoop.RestStep | testserver.py:273-287 | a turn whose decision is the same in two runs either ends both runs in that turn, not by exhaustion, or continues both from the same state, on which Indy and every rock are placed |
| TurnLoop.PlayTurn | testserver.py:273-282 | one loop body after `send_state` leads where the run function says: it ends the run, or continues on the maze's new rows |
| TurnLoop.PlayRound | testserver.py:270-282 | one loop pass adds the turn's snapshot and keeps the loop invariant that the snapshots so far plus the run from the next turn make up the whole run |
| TurnLoop.RunTestcase | testserver.py:266-288 | the loop's result and the snapshots it sent are the run function `Play` from turn 0 on the initial maze |
| TurnLoop.PlayEndsInBudget | testserver.py:270-288 | a run from turn t that does not use all turns ends in a turn in [t, 1000) |
| TurnLoop.PlayLength | testserver.py:270-288 | a run sends one snapshot per turn it plays: every remaining turn when it uses them all, and the turns up to and including the one it ends in otherwise |
| TurnLoop.PlayShowsActive | testserver.py:109-111 | every rock in the snapshot of turn t is active at tick t |
| TurnLoop.ReadsOnlyShownTurns | testserver.py:270-280 | two decision sequences that agree on the turns a run shows give the same run: no decision is read before its turn or after the run ends |
| TurnLoop.RunsOutOfDecisions | testserver.py:273-286 | a player that closes its output after fewer than 1000 decisions (and keeps reading) cannot make the run use all turns; the run ends by turn \|ds\|, and if it gets there the empty line fails it as a malformed decision |
| Scenarios.ReachExitScenario | testserver.py:143-158 | Indy reaches a layout-3 exit in one tick, but crashes into an exit cell holding room 0 |
| Scenarios.SwapWithIndyScenario | testserver.py:186-191 | Indy and an active rock that swap cells fail the tick |
| Scenarios.RocksMeetScenario | testserver.py:193-215 | two rocks entering the same room are both removed and the tick goes on |
| Scenarios.ThreeRocksPairMarks | testserver.py:193-215 | under the `break`, two rocks that swapped cells are not both marked: only the first pair found is |
| Scenarios.FirstPartnerOnlyScenario | testserver.py:193-228 | a rock that swapped cells with a rock already paired elsewhere survives the tick |
| Scenarios.RockMovesScenario | testserver.py:164-184 | an active rock moves one room and is kept |
| Scenarios.DeadEndRockScenario | testserver.py:170-172 | an active rock in a dead end fails the tick, because CRASH has no opposite |
| Scenarios.InactiveDeadEndScenario | testserver.py:217-222 | an inactive rock in a dead end is not moved but is removed by the sweep |
| Scenarios.ExitRunScenario | testserver.py:266-288 | a run that waits and reaches the exit in turn 0 sends one snapshot and passes |
| Scenarios.UnreadDecisionScenario | testserver.py:270-282 | a decision naming a cell off the grid, queued after the turn the run ends in, changes nothing |
| Scenarios.OffGridDecisionScenario | testserver.py:123-130 | a decision naming a cell off the grid, once read, aborts the run |
| Scenarios.ClosedOutputScenario | testserver.py:273-286 | a player that closed its output before its first answer fails the run in turn 0 |
| Scenarios.HiddenRockScenario | testserver.py:111 | a rock that becomes active at tick 3 is sent from tick 3 on |

## Left out

- Reading the level file (`run_testcase` lines 233-257), sending the maze, `main`, `LEVEL_FILES`, the child process, and `read_state`/`send_data`/`debug`. The pipes become the `ds` input sequence and the `shown` output sequence. Turn timings (`time.time`, `sleep`, `longest_turn`) and console printing are left out.
- Parsing a decision string. `Decision` is the parsed form: `Wait` for `WAIT`, `Rotate(x, y, token)` for three fields whose first two are integers, and `Malformed` for every line `split`/`int` rejects, which is a ValueError. This includes the empty line `readline` returns once the player has closed its output while still reading its input; the decision sequence ends there.
- A player that stops answering in any other way. A player that is alive but silent blocks the server in `readline` for ever: nothing times out. A player that has exited makes the next `send_data` flush raise `BrokenPipeError`, which nothing catches: the maze sends and `send_state` are outside the `try`. The model's input sequence covers only players that answer, or that close their output and keep reading.
- Index errors and Python's negative-index wrap. Entities must start in rooms that have a mapping for their entry side. Cells must hold -13..13. These are requirements on the inputs; the model proves the loop keeps them. When a rotation read in turn t names a cell off the grid, or Indy's step leads off it, the server raises IndexError, or reads a wrapped row or column. The model stops the run with `Aborted(t)` instead.
- Ragged rows: the grid is required to be rectangular.
- In-place mutation of the rock list. `tick` assigns `rocks[r]` and pops; the model gives `Tick` the list as a value and returns the new one, which is all `run_testcase` uses. What the partly updated list holds when a ValueError interrupts the move loop is not modelled, because the run ends there.
- The pop loop runs over `reversed(sorted(eliminated_rocks))`. `RemoveMarked` visits every index from the highest down and pops the marked ones. The resulting list is the same.
- Exhaustion: there is no concrete lemma for a run that uses all 1000 turns. `PlayLength` covers that case in general, and `Verdict(Exhausted)` is true, as in the source.
