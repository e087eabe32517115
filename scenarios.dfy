/** Concrete ticks that show the engine's rules and quirks on small mazes. */
module Scenarios {
  import opened Wrappers
  import opened Directions
  import opened World
  import opened Ticks
  import opened Sequences
  import opened TurnLoop

  /** A 1 x 2 maze of two vertical rooms (layout 3): Indy entering the top
      room from above reaches the exit below in one tick. If the exit cell
      holds the empty room 0 instead, Indy crashes into its wall: the wall
      check runs before the exit check. */
  lemma ReachExitScenario()
    ensures TickSpec([[3], [3]], (0, 1), 0, Indy(0, 0, Top), []) == AtExit
    ensures TickSpec([[3], [0]], (0, 1), 0, Indy(0, 0, Top), []) == TickFailed(IndyHitWall(0, 1))
  {
  }

  /** Indy and an active rock swap cells in a corridor of two horizontal
      rooms: the tick fails. */
  lemma SwapWithIndyScenario()
    ensures TickSpec([[2, 2]], (9, 0), 0, Indy(0, 0, Left), [Rock(1, 0, Right, 0)]) == TickFailed(IndyHitRock(1, 0))
  {
  }

  const CORRIDOR: seq<seq<int>> := [[2, 2, 2], [3, 3, 3], [3, 3, 3]]

  /** Two active rocks enter the middle room of the top corridor from both
      sides: both are removed and the tick continues. */
  lemma RocksMeetScenario()
    ensures TickSpec(CORRIDOR, (2, 2), 0, Indy(0, 1, Top), [Rock(0, 0, Left, 0), Rock(2, 0, Right, 0)]) ==
      Continue(Indy(0, 2, Top), [])
  {
    var rocks := [Rock(0, 0, Left, 0), Rock(2, 0, Right, 0)];
    var m := Moved(CORRIDOR, 0, rocks);
    assert m == [Rock(1, 0, Left, 0), Rock(1, 0, Right, 0)];
    assert FirstPartner(0, m, Positions(rocks), 0, 1) == Some(1);
    assert 0 in Eliminated(CORRIDOR, 0, rocks) && 1 in Eliminated(CORRIDOR, 0, rocks);
  }

  /** The pair loop stops at a rock's first partner. Rock 0 moves into the
      cell rock 1 also enters, and swaps cells with rock 2; rocks 0 and 1 are
      removed, but rock 2 survives although it swapped cells with rock 0. */
  lemma FirstPartnerOnlyScenario()
    ensures TickSpec(CORRIDOR, (2, 2), 0, Indy(0, 1, Top), THREE_ROCKS) == Continue(Indy(0, 2, Top), [Rock(0, 0, Right, 0)])
  {
    ThreeRocksReady();
    ThreeRocksEliminated();
    assert KeepFrom(THREE_MOVED, {0, 1}, 2) == [Rock(0, 0, Right, 0)];
    assert KeepFrom(THREE_MOVED, {0, 1}, 0) == [Rock(0, 0, Right, 0)];
  }

  /** Indy's move and the move loop of that scenario raise nothing. */
  lemma ThreeRocksReady()
    ensures TickReady(CORRIDOR, Indy(0, 1, Top), THREE_ROCKS)
    ensures MoveIndy(CORRIDOR, Indy(0, 1, Top)) == Ok(Indy(0, 2, Top))
    ensures FirstRockError(CORRIDOR, 0, Indy(0, 1, Top), Indy(0, 2, Top), THREE_ROCKS, 0) == None
    ensures Moved(CORRIDOR, 0, THREE_ROCKS) == THREE_MOVED
  {
    ThreeRocksStart();
    ThreeRocksNoError();
    ThreeRocksMoved();
  }

  lemma ThreeRocksStart()
    ensures TickReady(CORRIDOR, Indy(0, 1, Top), THREE_ROCKS)
    ensures MoveIndy(CORRIDOR, Indy(0, 1, Top)) == Ok(Indy(0, 2, Top))
  {
  }

  lemma ThreeRocksNoError()
    requires IsGrid(CORRIDOR) && RocksPlaced(CORRIDOR, THREE_ROCKS)
    ensures FirstRockError(CORRIDOR, 0, Indy(0, 1, Top), Indy(0, 2, Top), THREE_ROCKS, 0) == None
  {
    ThreeRocksMove();
    assert FirstRockError(CORRIDOR, 0, Indy(0, 1, Top), Indy(0, 2, Top), THREE_ROCKS, 2) == None;
  }

  lemma ThreeRocksMoved()
    requires IsGrid(CORRIDOR) && RocksPlaced(CORRIDOR, THREE_ROCKS)
    ensures Moved(CORRIDOR, 0, THREE_ROCKS) == THREE_MOVED
    ensures MoveOuts(CORRIDOR, 0, THREE_ROCKS) == {}
  {
    ThreeRocksMove();
  }

  /** The rocks that scenario eliminates: 0 and 1, not 2. */
  lemma ThreeRocksEliminated()
    ensures Eliminated(CORRIDOR, 0, THREE_ROCKS) == {0, 1}
  {
    ThreeRocksStart();
    ThreeRocksMoved();
    assert Positions(THREE_ROCKS) == [(0, 0), (2, 0), (1, 0)];
    ThreeRocksPairMarks();
    ThreeRocksNoDeadEnd();
  }

  lemma ThreeRocksNoDeadEnd()
    ensures IsGrid(CORRIDOR) && RocksPlaced(CORRIDOR, THREE_MOVED)
    ensures DeadEnds(CORRIDOR, THREE_MOVED) == {}
  {
  }

  /** Each of the three rocks moves one cell along the corridor. */
  lemma ThreeRocksMove()
    ensures forall i :: 0 <= i < 3 ==> MoveRock(CORRIDOR, 0, THREE_ROCKS[i]) == MovedTo(THREE_MOVED[i])
    ensures forall i :: 0 <= i < 3 ==> RockError(CORRIDOR, 0, Indy(0, 1, Top), Indy(0, 2, Top), THREE_ROCKS[i]) == None
  {
  }

  const THREE_ROCKS: seq<Rock> := [Rock(0, 0, Left, 0), Rock(2, 0, Right, 0), Rock(1, 0, Right, 0)]
  const THREE_MOVED: seq<Rock> := [Rock(1, 0, Left, 0), Rock(1, 0, Right, 0), Rock(0, 0, Right, 0)]

  /** In that scenario rocks 0 and 2 swapped cells, yet the pair loop marks
      only rocks 0 and 1. */
  lemma ThreeRocksPairMarks()
    ensures Collide(THREE_MOVED, [(0, 0), (2, 0), (1, 0)], 0, 2)
    ensures PairMarks(0, THREE_MOVED, [(0, 0), (2, 0), (1, 0)], 3) == {0, 1}
  {
    var m, p := THREE_MOVED, [(0, 0), (2, 0), (1, 0)];
    assert PairMarksOf(0, m, p, 0) == {0, 1} by {
      assert FirstPartner(0, m, p, 0, 1) == Some(1);
    }
    assert PairMarksOf(0, m, p, 1) == {} by {
      assert !Collide(m, p, 1, 2);
      assert FirstPartner(0, m, p, 1, 3) == None;
    }
    assert PairMarksOf(0, m, p, 2) == {};
    assert PairMarks(0, m, p, 1) == {0, 1};
    assert PairMarks(0, m, p, 2) == {0, 1};
  }

  /** An active rock moving down the middle room of the corridor is moved and
      kept. */
  lemma RockMovesScenario()
    ensures TickSpec(CORRIDOR, (2, 2), 0, Indy(0, 1, Top), [Rock(1, 0, Left, 0)]) == Continue(Indy(0, 2, Top), [Rock(2, 0, Left, 0)])
  {
    var rocks := [Rock(1, 0, Left, 0)];
    assert Moved(CORRIDOR, 0, rocks) == [Rock(2, 0, Left, 0)];
    assert Eliminated(CORRIDOR, 0, rocks) == {};
  }

  const DEAD_END: seq<seq<int>> := [[4, 2], [3, 3], [3, 3]]

  /** An active rock starting in a dead end (layout 4 entered from the left)
      makes the tick fail: the CRASH exit has no opposite. */
  lemma DeadEndRockScenario()
    ensures TickSpec(DEAD_END, (1, 2), 0, Indy(0, 1, Top), [Rock(0, 0, Left, 0)]) == TickFailed(NoOpposite(Crash))
  {
  }

  /** The same rock, not active until tick 5, is neither moved nor checked
      against Indy, but the dead-end sweep still removes it. */
  lemma InactiveDeadEndScenario()
    ensures TickSpec(DEAD_END, (1, 2), 0, Indy(0, 1, Top), [Rock(0, 0, Left, 5)]) == Continue(Indy(0, 2, Top), [])
  {
    var rocks := [Rock(0, 0, Left, 5)];
    assert Moved(DEAD_END, 0, rocks) == rocks;
    assert 0 in Eliminated(DEAD_END, 0, rocks);
  }

  /** A whole run: Indy falls from the top cell straight into the exit in
      turn 0 after the player waits; run_testcase returns true. */
  lemma ExitRunScenario()
    ensures Play([[3], [3]], (0, 1), Indy(0, 0, Top), [], [Wait], 0) == Run(ReachedExit(0), [Snapshot(Indy(0, 0, Top), [])])
    ensures Verdict(ReachedExit(0))
  {
  }

  /** The same run with a second decision that names a cell off the grid:
      it is never read, since the run ends in turn 0, so it changes
      nothing. */
  lemma UnreadDecisionScenario()
    ensures Play([[3], [3]], (0, 1), Indy(0, 0, Top), [], [Wait, Rotate(99, 99, "LEFT")], 0) ==
      Run(ReachedExit(0), [Snapshot(Indy(0, 0, Top), [])])
  {
  }

  /** A rotation of a cell off the grid, once read, aborts the run: the
      server would index past the maze. */
  lemma OffGridDecisionScenario()
    ensures Play([[3], [3]], (0, 1), Indy(0, 0, Top), [], [Rotate(99, 99, "LEFT")], 0) ==
      Run(Aborted(0), [Snapshot(Indy(0, 0, Top), [])])
  {
  }

  /** The same level with a player that has closed its output before its
      first answer: the empty line read in turn 0 fails the run, and
      run_testcase returns false. */
  lemma ClosedOutputScenario()
    ensures Play([[3], [3]], (0, 1), Indy(0, 0, Top), [], [], 0) == Run(Failed(MalformedDecision, 0), [Snapshot(Indy(0, 0, Top), [])])
    ensures !Verdict(Failed(MalformedDecision, 0))
  {
  }

  /** A rock that becomes active at tick 3 is not sent before then. */
  lemma HiddenRockScenario()
    ensures Visible([Rock(0, 0, Top, 0), Rock(1, 0, Top, 3)], 2) == [Rock(0, 0, Top, 0)]
    ensures Visible([Rock(0, 0, Top, 0), Rock(1, 0, Top, 3)], 3) == [Rock(0, 0, Top, 0), Rock(1, 0, Top, 3)]
  {
    var rocks := [Rock(0, 0, Top, 0), Rock(1, 0, Top, 3)];
    assert Hidden(rocks, 2) == {1};
    assert Hidden(rocks, 3) == {};
  }
}
