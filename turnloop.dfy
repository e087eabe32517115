/** The turn loop of `run_testcase`: up to 1000 turns of sending the state,
    reading one decision, applying it and ticking. The player's decisions are
    an input sequence; turn t reads the t-th of them. */
module TurnLoop {
  import opened Wrappers
  import opened Directions
  import opened World
  import opened Sequences
  import opened Rotation
  import opened Ticks
  import opened TickFacts

  /** The number of turns the server plays before giving up. */
  const TICK_BUDGET: nat := 1000

  /** What the server sends the player at the start of a turn: Indy and the
      rocks that are already active. */
  datatype Snapshot = Snapshot(indy: Indy, rocks: seq<Rock>)

  /** How a run ends. `Failed` and `ReachedExit` carry the turn it ended in.
      `Aborted` is a turn in which the server reads a cell off the grid, so
      that it raises IndexError (or wraps a negative index), which the model
      does not follow: a rotation that names a cell off the grid, or Indy's
      step leading off it. */
  datatype RunResult =
    | Failed(why: Failure, t: nat)
    | ReachedExit(t: nat)
    | Exhausted
    | Aborted(t: nat)

  /** A run: how it ended, and the snapshot sent at the start of each turn. */
  datatype Run = Run(result: RunResult, shown: seq<Snapshot>)

  /** The boolean `run_testcase` returns: false on a ValueError, true when
      Indy reached the exit and also when all turns were played. */
  function Verdict(r: RunResult): (pass: bool)
    requires !r.Aborted?
    ensures pass <==> r.ReachedExit? || r.Exhausted?
  {
    !r.Failed?
  }

  /** Indices of the rocks not yet active at tick t. */
  function Hidden(rocks: seq<Rock>, t: int): set<int>
  {
    set i | 0 <= i < |rocks| && t < rocks[i].fromT
  }

  /** The rocks sent to the player at tick t: those whose activation tick has
      come, in list order. */
  function Visible(rocks: seq<Rock>, t: int): seq<Rock>
  {
    KeepFrom(rocks, Hidden(rocks, t), 0)
  }

  /** A rock is sent exactly when it is in the list and active. */
  lemma VisibleMembers(rocks: seq<Rock>, t: int)
    ensures forall r :: r in Visible(rocks, t) <==> r in rocks && r.fromT <= t
  {
    var gone := Hidden(rocks, t);
    KeepFromSpec(rocks, gone, 0);
    KeepFromMembers(rocks, gone);
    var v, ix := Visible(rocks, t), KeptIndices(|rocks|, gone, 0);
    forall r | r in v
      ensures r.fromT <= t
    {
      var k :| 0 <= k < |v| && v[k] == r;
      assert ix[k] !in gone;
    }
  }

  /** The rocks sent are the active ones in list order: the k-th is
      rocks[ix[k]] for the increasing list ix of active indices. */
  lemma VisibleInOrder(rocks: seq<Rock>, t: int)
    ensures var ix := KeptIndices(|rocks|, Hidden(rocks, t), 0);
      (forall k :: 0 <= k < |ix| ==> ix[k] < |rocks| && rocks[ix[k]].fromT <= t) &&
      (forall k1, k2 :: 0 <= k1 < k2 < |ix| ==> ix[k1] < ix[k2]) &&
      (forall i :: 0 <= i < |rocks| && rocks[i].fromT <= t ==> i in ix) &&
      |Visible(rocks, t)| == |ix| &&
      (forall k :: 0 <= k < |ix| ==> Visible(rocks, t)[k] == rocks[ix[k]])
  {
    KeepFromSpec(rocks, Hidden(rocks, t), 0);
  }

  /** The decision read in turn t. The sequence ends where the player has
      closed its output while still reading the server's: from then on
      `readline` returns the empty line, which the server cannot unpack. */
  function DecisionAt(ds: seq<Decision>, t: nat): Decision
  {
    if t < |ds| then ds[t] else Malformed
  }

  /** What the loop needs at the start of every turn. */
  predicate RunReady(g: seq<seq<int>>, indy: Indy, rocks: seq<Rock>)
  {
    IsGrid(g) && Placed(g, indy.x, indy.y, indy.entry) && RocksPlaced(g, rocks)
  }

  /** A tick that goes on leaves Indy and the surviving rocks properly
      placed on the same grid. */
  lemma TickKeepsPlacement(g: seq<seq<int>>, mazeExit: (int, int), t: int, indy: Indy, rocks: seq<Rock>)
    requires TickReady(g, indy, rocks)
    requires TickSpec(g, mazeExit, t, indy, rocks).Continue?
    ensures var out := TickSpec(g, mazeExit, t, indy, rocks);
      Placed(g, out.indy.x, out.indy.y, out.indy.entry) && RocksPlaced(g, out.rocks)
  {
    TickSurvivors(g, mazeExit, t, indy, rocks);
  }

  /** The run of turns t, t + 1, ... of `run_testcase` on grid g: the
      snapshot sent at the start of turn t, then the rest of the run. */
  function Play(g: seq<seq<int>>, mazeExit: (int, int), indy: Indy, rocks: seq<Rock>, ds: seq<Decision>, t: nat): Run
    requires RunReady(g, indy, rocks) && t <= TICK_BUDGET
    decreases TICK_BUDGET - t, 1
  {
    if t == TICK_BUDGET then Run(Exhausted, [])
    else
      var rest := Rest(g, mazeExit, indy, rocks, ds, t);
      Run(rest.result, [Snapshot(indy, Visible(rocks, t))] + rest.shown)
  }

  /** The run once turn t's snapshot is sent: the t-th decision is applied,
      then the tick; a tick that goes on continues with turn t + 1 on the
      rotated grid. */
  function Rest(g: seq<seq<int>>, mazeExit: (int, int), indy: Indy, rocks: seq<Rock>, ds: seq<Decision>, t: nat): Run
    requires RunReady(g, indy, rocks) && t < TICK_BUDGET
    decreases TICK_BUDGET - t, 0
  {
    var d := DecisionAt(ds, t);
    if !DecisionInside(g, d) then Run(Aborted(t), [])
    else match ApplySpec(g, d, indy, rocks)
    case Err(e) => Run(Failed(e, t), [])
    case Ok(g') =>
      ApplyKeepsPlacement(g, d, indy, rocks);
      if !IndyStepInside(g', indy) then Run(Aborted(t), [])
      else
        match TickSpec(g', mazeExit, t, indy, rocks)
        case TickFailed(e) => Run(Failed(e, t), [])
        case AtExit => Run(ReachedExit(t), [])
        case Continue(indy', rocks') =>
          TickKeepsPlacement(g', mazeExit, t, indy, rocks);
          Play(g', mazeExit, indy', rocks', ds, t + 1)
  }

  /** How one turn ends: the run is over, or the next turn starts on the
      (possibly rotated) grid with Indy and the surviving rocks. */
  datatype TurnOutcome =
    | Ends(result: RunResult)
    | Next(g: seq<seq<int>>, indy: Indy, rocks: seq<Rock>)

  /** Turn t of two runs that read the same decision in that turn: both end
      there, in turn t and not by exhaustion, or both go on from the same
      state, on which Indy and every rock are placed. */
  lemma RestStep(g: seq<seq<int>>, mazeExit: (int, int), indy: Indy, rocks: seq<Rock>, ds: seq<Decision>, ds': seq<Decision>, t: nat)
    returns (o: TurnOutcome)
    requires RunReady(g, indy, rocks) && t < TICK_BUDGET
    requires DecisionAt(ds, t) == DecisionAt(ds', t)
    ensures o.Ends? ==>
      !o.result.Exhausted? && o.result.t == t &&
      Rest(g, mazeExit, indy, rocks, ds, t) == Run(o.result, []) &&
      Rest(g, mazeExit, indy, rocks, ds', t) == Run(o.result, [])
    ensures o.Next? ==>
      RunReady(o.g, o.indy, o.rocks) &&
      Rest(g, mazeExit, indy, rocks, ds, t) == Play(o.g, mazeExit, o.indy, o.rocks, ds, t + 1) &&
      Rest(g, mazeExit, indy, rocks, ds', t) == Play(o.g, mazeExit, o.indy, o.rocks, ds', t + 1)
  {
    var d := DecisionAt(ds, t);
    if !DecisionInside(g, d) {
      return Ends(Aborted(t));
    }
    match ApplySpec(g, d, indy, rocks)
    case Err(e) => o := Ends(Failed(e, t));
    case Ok(g') =>
      ApplyKeepsPlacement(g, d, indy, rocks);
      if !IndyStepInside(g', indy) {
        o := Ends(Aborted(t));
      } else {
        match TickSpec(g', mazeExit, t, indy, rocks)
        case TickFailed(e) => o := Ends(Failed(e, t));
        case AtExit => o := Ends(ReachedExit(t));
        case Continue(indy', rocks') =>
          TickKeepsPlacement(g', mazeExit, t, indy, rocks);
          o := Next(g', indy', rocks');
      }
  }

  /** The body of the turn loop after `send_state`: read the decision, apply
      it to the maze, tick. A turn that goes on leaves a maze on which Indy
      and the rocks are properly placed. */
  method PlayTurn(maze: Maze, mazeExit: (int, int), indy: Indy, rocks: seq<Rock>, ds: seq<Decision>, t: nat)
    returns (o: TurnOutcome)
    requires maze.Valid() && RunReady(maze.rows, indy, rocks) && t < TICK_BUDGET
    modifies maze
    ensures maze.Valid()
    ensures o.Ends? ==> Rest(old(maze.rows), mazeExit, indy, rocks, ds, t) == Run(o.result, [])
    ensures o.Next? ==>
      maze.rows == o.g && RunReady(o.g, o.indy, o.rocks) &&
      Rest(old(maze.rows), mazeExit, indy, rocks, ds, t) == Play(o.g, mazeExit, o.indy, o.rocks, ds, t + 1)
  {
    ghost var g := maze.rows;
    var d := DecisionAt(ds, t);
    if !DecisionInside(maze.rows, d) {
      return Ends(Aborted(t));
    }
    var failure := ApplyDecision(maze, d, indy, rocks);
    if failure.Some? {
      return Ends(Failed(failure.value, t));
    }
    ApplyKeepsPlacement(g, d, indy, rocks);
    if !IndyStepInside(maze.rows, indy) {
      return Ends(Aborted(t));
    }
    var outcome := Tick(maze, mazeExit, t, indy, rocks);
    match outcome {
      case TickFailed(e) => o := Ends(Failed(e, t));
      case AtExit => o := Ends(ReachedExit(t));
      case Continue(indy', rocks') =>
        TickKeepsPlacement(maze.rows, mazeExit, t, indy, rocks);
        o := Next(maze.rows, indy', rocks');
    }
  }

  /** The run `whole` is the snapshots `shown` sent so far followed by the
      run from turn t on grid g: the loop invariant of `run_testcase`. */
  ghost predicate Tracks(whole: Run, g: seq<seq<int>>, mazeExit: (int, int), indy: Indy, rocks: seq<Rock>, ds: seq<Decision>, t: nat, shown: seq<Snapshot>)
  {
    RunReady(g, indy, rocks) && t <= TICK_BUDGET &&
    var rest := Play(g, mazeExit, indy, rocks, ds, t);
    whole == Run(rest.result, shown + rest.shown)
  }

  /** One pass of the loop body: `send_state`, then the turn. */
  method PlayRound(maze: Maze, mazeExit: (int, int), indy: Indy, rocks: seq<Rock>, ds: seq<Decision>, t: nat,
                   shown: seq<Snapshot>, ghost whole: Run)
    returns (o: TurnOutcome, shown': seq<Snapshot>)
    requires maze.Valid() && t < TICK_BUDGET && Tracks(whole, maze.rows, mazeExit, indy, rocks, ds, t, shown)
    modifies maze
    ensures maze.Valid() && shown' == shown + [Snapshot(indy, Visible(rocks, t))]
    ensures o.Ends? ==> whole == Run(o.result, shown')
    ensures o.Next? ==> maze.rows == o.g && Tracks(whole, o.g, mazeExit, o.indy, o.rocks, ds, t + 1, shown')
  {
    var snapshot := Snapshot(indy, Visible(rocks, t));
    shown' := shown + [snapshot];
    ghost var rest := Rest(maze.rows, mazeExit, indy, rocks, ds, t);
    assert whole == Run(rest.result, shown + ([snapshot] + rest.shown));
    assert shown + ([snapshot] + rest.shown) == shown' + rest.shown;
    o := PlayTurn(maze, mazeExit, indy, rocks, ds, t);
    if o.Ends? {
      assert shown' + [] == shown';
    }
  }

  /** `run_testcase` from the point where the level is loaded and the maze
      has been sent: the `for t in range(1000)` loop. */
  method RunTestcase(maze: Maze, mazeExit: (int, int), indy0: Indy, rocks0: seq<Rock>, ds: seq<Decision>)
    returns (result: RunResult, shown: seq<Snapshot>)
    requires maze.Valid() && RunReady(maze.rows, indy0, rocks0)
    modifies maze
    ensures Run(result, shown) == Play(old(maze.rows), mazeExit, indy0, rocks0, ds, 0)
  {
    ghost var whole := Play(maze.rows, mazeExit, indy0, rocks0, ds, 0);
    var indy, rocks := indy0, rocks0;
    shown := [];
    var t: nat := 0;
    assert [] + whole.shown == whole.shown;
    while t < TICK_BUDGET
      invariant maze.Valid() && Tracks(whole, maze.rows, mazeExit, indy, rocks, ds, t, shown)
      decreases TICK_BUDGET - t
    {
      var o;
      o, shown := PlayRound(maze, mazeExit, indy, rocks, ds, t, shown, whole);
      if o.Ends? {
        return o.result, shown;
      }
      indy, rocks := o.indy, o.rocks;
      t := t + 1;
    }
    result := Exhausted;
    assert shown + [] == shown;
  }

  // ---------------------------------------------------------------------
  // Properties of the loop.

  /** A run from turn t that does not play out all turns ends in some turn
      in [t, 1000). */
  lemma {:induction false} PlayEndsInBudget(g: seq<seq<int>>, mazeExit: (int, int), indy: Indy, rocks: seq<Rock>, ds: seq<Decision>, t: nat)
    requires RunReady(g, indy, rocks) && t <= TICK_BUDGET
    ensures var r := Play(g, mazeExit, indy, rocks, ds, t).result;
      !r.Exhausted? ==> t <= r.t < TICK_BUDGET
    decreases TICK_BUDGET - t
  {
    if t < TICK_BUDGET {
      var o := RestStep(g, mazeExit, indy, rocks, ds, ds, t);
      if o.Next? {
        PlayEndsInBudget(o.g, mazeExit, o.indy, o.rocks, ds, t + 1);
      }
    }
  }

  /** Turn counts: a run from turn t sends one snapshot per turn it plays,
      that is every remaining turn when it plays them all, and the turns
      t .. t' when it ends in turn t'. */
  lemma {:induction false} PlayLength(g: seq<seq<int>>, mazeExit: (int, int), indy: Indy, rocks: seq<Rock>, ds: seq<Decision>, t: nat)
    requires RunReady(g, indy, rocks) && t <= TICK_BUDGET
    ensures var run := Play(g, mazeExit, indy, rocks, ds, t);
      |run.shown| == if run.result.Exhausted? then TICK_BUDGET - t else run.result.t - t + 1
    decreases TICK_BUDGET - t
  {
    if t < TICK_BUDGET {
      var run := Play(g, mazeExit, indy, rocks, ds, t);
      var o := RestStep(g, mazeExit, indy, rocks, ds, ds, t);
      if o.Next? {
        var later := Play(o.g, mazeExit, o.indy, o.rocks, ds, t + 1);
        PlayLength(o.g, mazeExit, o.indy, o.rocks, ds, t + 1);
        assert run.result == later.result && |run.shown| == 1 + |later.shown|;
      } else {
        assert run.result == o.result && |run.shown| == 1;
      }
    }
  }

  /** Every rock in the snapshot of turn t + k is active at that turn. */
  lemma {:induction false} PlayShowsActive(g: seq<seq<int>>, mazeExit: (int, int), indy: Indy, rocks: seq<Rock>, ds: seq<Decision>, t: nat)
    requires RunReady(g, indy, rocks) && t <= TICK_BUDGET
    ensures var run := Play(g, mazeExit, indy, rocks, ds, t);
      forall k, r :: 0 <= k < |run.shown| && r in run.shown[k].rocks ==> r.fromT <= t + k
    decreases TICK_BUDGET - t
  {
    if t < TICK_BUDGET {
      var run := Play(g, mazeExit, indy, rocks, ds, t);
      VisibleMembers(rocks, t);
      var o := RestStep(g, mazeExit, indy, rocks, ds, ds, t);
      var rest := Rest(g, mazeExit, indy, rocks, ds, t);
      assert run.shown == [Snapshot(indy, Visible(rocks, t))] + rest.shown;
      if o.Next? {
        PlayShowsActive(o.g, mazeExit, o.indy, o.rocks, ds, t + 1);
        forall k, r | 0 <= k < |run.shown| && r in run.shown[k].rocks
          ensures r.fromT <= t + k
        {
          if k > 0 {
            assert run.shown[k] == rest.shown[k - 1];
          }
        }
      }
    }
  }

  /** The run reads the decision of a turn only once that turn's snapshot
      is sent: two decision sequences that agree on the turns a run shows
      give the same run. */
  lemma {:induction false} ReadsOnlyShownTurns(g: seq<seq<int>>, mazeExit: (int, int), indy: Indy, rocks: seq<Rock>,
                                               ds: seq<Decision>, ds': seq<Decision>, t: nat)
    requires RunReady(g, indy, rocks) && RunReady(g, indy, rocks) && t <= TICK_BUDGET
    requires forall i :: t <= i < t + |Play(g, mazeExit, indy, rocks, ds, t).shown| ==> DecisionAt(ds, i) == DecisionAt(ds', i)
    ensures Play(g, mazeExit, indy, rocks, ds, t) == Play(g, mazeExit, indy, rocks, ds', t)
    decreases TICK_BUDGET - t
  {
    if t < TICK_BUDGET {
      var run := Play(g, mazeExit, indy, rocks, ds, t);
      assert DecisionAt(ds, t) == DecisionAt(ds', t);
      var o := RestStep(g, mazeExit, indy, rocks, ds, ds', t);
      if o.Next? {
        var later := Play(o.g, mazeExit, o.indy, o.rocks, ds, t + 1);
        assert |run.shown| == 1 + |later.shown|;
        ReadsOnlyShownTurns(o.g, mazeExit, o.indy, o.rocks, ds, ds', t + 1);
      }
    }
  }

  /** A player that closes its output after |ds| < 1000 decisions (and keeps
      reading its input): the run cannot play out all turns; it ends by turn
      |ds| at the latest, and if it gets that far the empty line fails it as
      a malformed decision. */
  lemma {:induction false} RunsOutOfDecisions(g: seq<seq<int>>, mazeExit: (int, int), indy: Indy, rocks: seq<Rock>, ds: seq<Decision>, t: nat)
    requires RunReady(g, indy, rocks) && t <= |ds| < TICK_BUDGET
    ensures var r := Play(g, mazeExit, indy, rocks, ds, t).result;
      !r.Exhausted? && r.t <= |ds| && (r.t == |ds| ==> r == Failed(MalformedDecision, |ds|))
    decreases |ds| - t
  {
    var o := RestStep(g, mazeExit, indy, rocks, ds, ds, t);
    if o.Next? {
      RunsOutOfDecisions(o.g, mazeExit, o.indy, o.rocks, ds, t + 1);
    }
  }
}
