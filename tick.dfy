/** `tick`: one step of the simulation. Indy moves first; unless that ends
    the run, every active rock moves, collisions are checked, and the rocks
    marked for elimination are removed from the list. */
module Ticks {
  import opened Wrappers
  import opened Directions
  import opened Rooms
  import opened World
  import opened Sequences

  /** What happens to one rock when it is asked to move. */
  datatype RockMove =
    | Idle                    // not active yet: t < fromT
    | Blocked(why: Failure)   // the server raises (exit CRASH has no opposite)
    | OffGrid                 // the step leaves the w x h grid
    | IntoWall                // the room entered has no mapping for the entry side
    | MovedTo(rock: Rock)

  datatype TickOutcome =
    | TickFailed(why: Failure)
    | AtExit
    | Continue(indy: Indy, rocks: seq<Rock>)

  predicate Active(t: int, rock: Rock)
  {
    rock.fromT <= t
  }

  /** The exit side Indy or a rock takes from its current room. */
  function ExitOf(g: seq<seq<int>>, x: int, y: int, entry: Dir): Dir
    requires IsGrid(g) && Placed(g, x, y, entry)
  {
    ExitDir(RoomAt(g, x, y), entry)
  }

  /** The cell Indy steps to lies on the grid whenever the server gets as far
      as reading it (otherwise it raises IndexError or wraps a negative
      index, which the model does not cover). */
  predicate IndyStepInside(g: seq<seq<int>>, indy: Indy)
    requires IsGrid(g) && Placed(g, indy.x, indy.y, indy.entry)
  {
    match Step(ExitOf(g, indy.x, indy.y, indy.entry), indy.x, indy.y)
    case None => true
    case Some(c) => Inside(g, c.0, c.1)
  }

  /** What `tick` needs of its inputs to raise nothing but ValueError. */
  predicate TickReady(g: seq<seq<int>>, indy: Indy, rocks: seq<Rock>)
  {
    IsGrid(g) && Placed(g, indy.x, indy.y, indy.entry) &&
    IndyStepInside(g, indy) && RocksPlaced(g, rocks)
  }

  /** Indy's move: a dead end or a wall fails the run; otherwise Indy stands
      in the neighbouring room, entered from the side facing the old cell. */
  function MoveIndy(g: seq<seq<int>>, indy: Indy): (r: Result<Indy, Failure>)
    requires IsGrid(g) && Placed(g, indy.x, indy.y, indy.entry) && IndyStepInside(g, indy)
    ensures r.Ok? ==> Placed(g, r.value.x, r.value.y, r.value.entry)
    ensures r.Ok? ==> r.value.entry != Crash && Neighbour(r.value.entry, r.value.x, r.value.y) == (indy.x, indy.y)
  {
    var e := ExitOf(g, indy.x, indy.y, indy.entry);
    if e == Crash then Err(IndyNoExit(indy.x, indy.y))
    else
      match Step(e, indy.x, indy.y)
      case None => Err(CannotExit(e))
      case Some(c) =>
        var entry := Opposite(e).value;
        if Opens(RoomAt(g, c.0, c.1), entry) then Ok(Indy(c.0, c.1, entry))
        else Err(IndyHitWall(c.0, c.1))
  }

  /** One rock's move, decided by that rock and the grid alone: a rock
      moves only once active, and then into a neighbouring room that it
      enters from the side facing its old cell, keeping its `fromT`. */
  function MoveRock(g: seq<seq<int>>, t: int, rock: Rock): (r: RockMove)
    requires IsGrid(g) && RockPlaced(g, rock)
    ensures r.Idle? <==> t < rock.fromT
    ensures r.MovedTo? ==>
      RockPlaced(g, r.rock) && r.rock.fromT == rock.fromT && r.rock.entry != Crash &&
      Neighbour(r.rock.entry, r.rock.x, r.rock.y) == (rock.x, rock.y)
  {
    if t < rock.fromT then Idle
    else
      var e := ExitOf(g, rock.x, rock.y, rock.entry);
      match Opposite(e)
      case None => Blocked(NoOpposite(e))
      case Some(entry) =>
        match Step(e, rock.x, rock.y)
        case None => Blocked(CannotExit(e))
        case Some(c) =>
          if !Inside(g, c.0, c.1) then OffGrid
          else if Opens(RoomAt(g, c.0, c.1), entry) then MovedTo(Rock(c.0, c.1, entry, rock.fromT))
          else IntoWall
  }

  /** The list entry of a rock after the move loop: a rock that is idle,
      left the grid or hit a wall keeps its old tuple. */
  function AfterMove(g: seq<seq<int>>, t: int, rock: Rock): (r: Rock)
    requires IsGrid(g) && RockPlaced(g, rock)
    ensures RockPlaced(g, r) && r.fromT == rock.fromT
    ensures t < rock.fromT ==> r == rock
  {
    match MoveRock(g, t, rock)
    case MovedTo(m) => m
    case _ => rock
  }

  /** Indy, moving from `before` to `after`, meets the rock that moved from
      `rock` to `moved`: same new cell, or the two swapped cells. */
  predicate HitsIndy(before: Indy, after: Indy, rock: Rock, moved: Rock)
  {
    (after.x == moved.x && after.y == moved.y) ||
    (before.x == moved.x && before.y == moved.y && after.x == rock.x && after.y == rock.y)
  }

  /** The ValueError, if any, raised while this rock is moved. */
  function RockError(g: seq<seq<int>>, t: int, before: Indy, after: Indy, rock: Rock): Option<Failure>
    requires IsGrid(g) && RockPlaced(g, rock)
  {
    match MoveRock(g, t, rock)
    case Blocked(e) => Some(e)
    case MovedTo(m) => if HitsIndy(before, after, rock, m) then Some(IndyHitRock(after.x, after.y)) else None
    case _ => None
  }

  /** The first error of the move loop, scanning from index `lo`. */
  function FirstRockError(g: seq<seq<int>>, t: int, before: Indy, after: Indy, rocks: seq<Rock>, lo: nat): Option<Failure>
    requires IsGrid(g) && RocksPlaced(g, rocks) && lo <= |rocks|
    decreases |rocks| - lo
  {
    if lo == |rocks| then None
    else
      match RockError(g, t, before, after, rocks[lo])
      case Some(e) => Some(e)
      case None => FirstRockError(g, t, before, after, rocks, lo + 1)
  }

  /** The rock list after the move loop. */
  function Moved(g: seq<seq<int>>, t: int, rocks: seq<Rock>): (m: seq<Rock>)
    requires IsGrid(g) && RocksPlaced(g, rocks)
    ensures |m| == |rocks| && RocksPlaced(g, m)
    ensures forall i :: 0 <= i < |rocks| ==> m[i] == AfterMove(g, t, rocks[i])
  {
    seq(|rocks|, i requires 0 <= i < |rocks| => AfterMove(g, t, rocks[i]))
  }

  /** `prev_rock_positions`: every rock's cell before the move loop. */
  function Positions(rocks: seq<Rock>): seq<(int, int)>
  {
    seq(|rocks|, i requires 0 <= i < |rocks| => (rocks[i].x, rocks[i].y))
  }

  /** Rocks marked while moving: they left the grid or hit a wall. */
  function MoveOuts(g: seq<seq<int>>, t: int, rocks: seq<Rock>): set<int>
    requires IsGrid(g) && RocksPlaced(g, rocks)
  {
    set i | 0 <= i < |rocks| && (MoveRock(g, t, rocks[i]).OffGrid? || MoveRock(g, t, rocks[i]).IntoWall?)
  }

  /** Rocks i and j, now at m[i] and m[j] and formerly at p[i] and p[j],
      share a cell or swapped cells. */
  predicate Collide(m: seq<Rock>, p: seq<(int, int)>, i: int, j: int)
    requires |m| == |p| && 0 <= i < |m| && 0 <= j < |m|
  {
    (m[i].x == m[j].x && m[i].y == m[j].y) ||
    ((m[i].x, m[i].y) == p[j] && p[i] == (m[j].x, m[j].y))
  }

  /** The first active rock k >= j that collides with rock i: the inner loop
      stops (`break`) at that partner. */
  function FirstPartner(t: int, m: seq<Rock>, p: seq<(int, int)>, i: int, j: nat): (k: Option<nat>)
    requires |m| == |p| && 0 <= i < |m| && j <= |m|
    ensures k.Some? ==> j <= k.value < |m| && Active(t, m[k.value]) && Collide(m, p, i, k.value)
    decreases |m| - j
  {
    if j == |m| then None
    else if Active(t, m[j]) && Collide(m, p, i, j) then Some(j)
    else FirstPartner(t, m, p, i, j + 1)
  }

  /** The indices the inner loop adds for rock i. */
  function PairMarksOf(t: int, m: seq<Rock>, p: seq<(int, int)>, i: int): set<int>
    requires |m| == |p| && 0 <= i < |m|
  {
    if !Active(t, m[i]) then {}
    else
      match FirstPartner(t, m, p, i, i + 1)
      case None => {}
      case Some(k) => {i, k}
  }

  /** The indices the rock-rock loop adds for r1 = 0 .. n-1. */
  function PairMarks(t: int, m: seq<Rock>, p: seq<(int, int)>, n: nat): set<int>
    requires |m| == |p| && n <= |m|
  {
    if n == 0 then {} else PairMarks(t, m, p, n - 1) + PairMarksOf(t, m, p, n - 1)
  }

  /** Rocks (active or not) whose current room sends their entry to CRASH. */
  function DeadEnds(g: seq<seq<int>>, m: seq<Rock>): set<int>
    requires IsGrid(g) && RocksPlaced(g, m)
  {
    set i | 0 <= i < |m| && ExitOf(g, m[i].x, m[i].y, m[i].entry) == Crash
  }

  /** `eliminated_rocks` at the end of a tick that did not fail. */
  function Eliminated(g: seq<seq<int>>, t: int, rocks: seq<Rock>): set<int>
    requires IsGrid(g) && RocksPlaced(g, rocks)
  {
    var m := Moved(g, t, rocks);
    MoveOuts(g, t, rocks) + PairMarks(t, m, Positions(rocks), |rocks|) + DeadEnds(g, m)
  }

  /** One tick, as a function of the grid, the exit cell, the tick index,
      Indy and the rocks. */
  function TickSpec(g: seq<seq<int>>, mazeExit: (int, int), t: int, indy: Indy, rocks: seq<Rock>): TickOutcome
    requires TickReady(g, indy, rocks)
  {
    match MoveIndy(g, indy)
    case Err(e) => TickFailed(e)
    case Ok(next) =>
      if (next.x, next.y) == mazeExit then AtExit
      else
        match FirstRockError(g, t, indy, next, rocks, 0)
        case Some(e) => TickFailed(e)
        case None => Continue(next, KeepFrom(Moved(g, t, rocks), Eliminated(g, t, rocks), 0))
  }

  // ---------------------------------------------------------------------
  // The tick as the server runs it: loops over the rock list.

  /** The body of the move loop for one rock: its new tuple, whether it is
      marked (left the grid or hit a wall), or the error it raises. */
  method MoveOne(g: seq<seq<int>>, t: int, before: Indy, after: Indy, rock: Rock)
    returns (next: Rock, out: bool, failure: Option<Failure>)
    requires IsGrid(g) && RockPlaced(g, rock)
    ensures failure == RockError(g, t, before, after, rock)
    ensures next == AfterMove(g, t, rock)
    ensures out <==> MoveRock(g, t, rock).OffGrid? || MoveRock(g, t, rock).IntoWall?
  {
    next, out, failure := rock, false, None;
    if t < rock.fromT {
      return;
    }
    var room := g[rock.y][rock.x];
    var exit := Layout(room)[rock.entry];
    var opposite := Opposite(exit);
    if opposite.None? {
      failure := Some(NoOpposite(exit));
      return;
    }
    var entry := opposite.value;
    var step := Step(exit, rock.x, rock.y);
    if step.None? {
      failure := Some(CannotExit(exit));
      return;
    }
    var (x, y) := step.value;
    if !Inside(g, x, y) {
      out := true;
      return;
    }
    var newRoom := g[y][x];
    if entry !in Layout(newRoom) {
      out := true;
      return;
    }
    next := Rock(x, y, entry, rock.fromT);
    if HitsIndy(before, after, rock, next) {
      failure := Some(IndyHitRock(after.x, after.y));
    }
  }

  /** The move loop: moves each active rock in list order, records every
      rock's previous cell, marks rocks that leave the grid or hit a wall,
      and stops at the first rock that raises. */
  method MoveRocks(g: seq<seq<int>>, t: int, before: Indy, after: Indy, rocks: seq<Rock>)
    returns (moved: seq<Rock>, prev: seq<(int, int)>, eliminated: set<int>, failure: Option<Failure>)
    requires IsGrid(g) && RocksPlaced(g, rocks)
    ensures failure == FirstRockError(g, t, before, after, rocks, 0)
    ensures failure.None? ==>
      moved == Moved(g, t, rocks) && eliminated == MoveOuts(g, t, rocks) &&
      |prev| == |rocks| && (forall i :: 0 <= i < |rocks| ==> prev[i] == (rocks[i].x, rocks[i].y)) &&
      prev == Positions(rocks)
  {
    moved, prev, eliminated := rocks, [], {};
    var r := 0;
    while r < |moved|
      invariant 0 <= r <= |rocks| == |moved| && |prev| == r
      invariant FirstRockError(g, t, before, after, rocks, 0) == FirstRockError(g, t, before, after, rocks, r)
      invariant forall i :: 0 <= i < r ==> moved[i] == AfterMove(g, t, rocks[i])
      invariant forall i :: r <= i < |rocks| ==> moved[i] == rocks[i]
      invariant forall i :: 0 <= i < r ==> prev[i] == (rocks[i].x, rocks[i].y)
      invariant forall i :: i in eliminated <==> 0 <= i < r && (MoveRock(g, t, rocks[i]).OffGrid? || MoveRock(g, t, rocks[i]).IntoWall?)
    {
      var rock := rocks[r];
      prev := prev + [(rock.x, rock.y)];
      var next, out, err := MoveOne(g, t, before, after, rock);
      if err.Some? {
        return moved, prev, eliminated, err;
      }
      moved := moved[r := next];
      if out {
        eliminated := eliminated + {r};
      }
      r := r + 1;
    }
    assert eliminated == MoveOuts(g, t, rocks);
    failure := None;
  }

  /** The rock-rock loop: for each active r1, scans later active rocks and
      marks r1 and the first one it collides with. */
  method MarkCollisions(t: int, rocks: seq<Rock>, prev: seq<(int, int)>, eliminated: set<int>) returns (marked: set<int>)
    requires |rocks| == |prev|
    ensures marked == eliminated + PairMarks(t, rocks, prev, |rocks|)
  {
    marked := eliminated;
    var r1 := 0;
    while r1 < |rocks| - 1
      invariant 0 <= r1 <= |rocks|
      invariant r1 < |rocks| || r1 == 0
      invariant marked == eliminated + PairMarks(t, rocks, prev, r1)
    {
      if Active(t, rocks[r1]) {
        var r2 := r1 + 1;
        while r2 < |rocks|
          invariant r1 + 1 <= r2 <= |rocks|
          invariant FirstPartner(t, rocks, prev, r1, r1 + 1) == FirstPartner(t, rocks, prev, r1, r2)
        {
          if Active(t, rocks[r2]) {
            if (rocks[r1].x, rocks[r1].y) == (rocks[r2].x, rocks[r2].y) {
              marked := marked + {r1, r2};
              break;
            }
            if (rocks[r1].x, rocks[r1].y) == prev[r2] && prev[r1] == (rocks[r2].x, rocks[r2].y) {
              marked := marked + {r1, r2};
              break;
            }
          }
          r2 := r2 + 1;
        }
      }
      r1 := r1 + 1;
    }
  }

  /** The last sweep: marks every rock, active or not, left in a dead end. */
  method MarkDeadEnds(g: seq<seq<int>>, rocks: seq<Rock>, eliminated: set<int>) returns (marked: set<int>)
    requires IsGrid(g) && RocksPlaced(g, rocks)
    ensures marked == eliminated + DeadEnds(g, rocks)
  {
    marked := eliminated;
    for r := 0 to |rocks|
      invariant marked == eliminated + set i | 0 <= i < r && ExitOf(g, rocks[i].x, rocks[i].y, rocks[i].entry) == Crash
    {
      var room := g[rocks[r].y][rocks[r].x];
      if Layout(room)[rocks[r].entry] == Crash {
        marked := marked + {r};
      }
    }
  }

  /** Pops the marked indices from the highest down, so that each pop leaves
      the indices still to be popped in place. */
  method RemoveMarked(rocks: seq<Rock>, eliminated: set<int>) returns (survivors: seq<Rock>)
    ensures survivors == KeepFrom(rocks, eliminated, 0)
  {
    survivors := rocks;
    var r := |rocks|;
    while r > 0
      invariant 0 <= r <= |rocks|
      invariant survivors == rocks[..r] + KeepFrom(rocks, eliminated, r)
    {
      r := r - 1;
      assert rocks[..r + 1] == rocks[..r] + [rocks[r]];
      if r in eliminated {
        survivors := survivors[..r] + survivors[r + 1..];
      }
    }
  }

  /** `tick(maze, maze_exit, t, indy, rocks)`. */
  method Tick(maze: Maze, mazeExit: (int, int), t: int, indy: Indy, rocks: seq<Rock>) returns (outcome: TickOutcome)
    requires maze.Valid() && TickReady(maze.rows, indy, rocks)
    ensures outcome == TickSpec(maze.rows, mazeExit, t, indy, rocks)
  {
    var g := maze.rows;
    var step := MoveIndy(g, indy);
    if step.Err? {
      return TickFailed(step.error);
    }
    var next := step.value;
    if (next.x, next.y) == mazeExit {
      return AtExit;
    }
    var moved, prev, eliminated, failure := MoveRocks(g, t, indy, next, rocks);
    if failure.Some? {
      return TickFailed(failure.value);
    }
    eliminated := MarkCollisions(t, moved, prev, eliminated);
    eliminated := MarkDeadEnds(g, moved, eliminated);
    var survivors := RemoveMarked(moved, eliminated);
    return Continue(next, survivors);
  }
}
