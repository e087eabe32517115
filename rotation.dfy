/** `apply_decision`: the agent's rotation command, checked and applied to
    one cell of the maze in place. */
module Rotation {
  import opened Wrappers
  import opened Directions
  import opened Rooms
  import opened World

  /** Some rock (active or not) stands on (x, y). */
  predicate RockAt(rocks: seq<Rock>, x: int, y: int)
  {
    exists r :: 0 <= r < |rocks| && rocks[r].x == x && rocks[r].y == y
  }

  /** The grid with the single cell (x, y) replaced by `room`. */
  function SetRoom(g: seq<seq<int>>, x: int, y: int, room: int): seq<seq<int>>
    requires IsGrid(g) && Inside(g, x, y)
  {
    g[y := g[y][x := room]]
  }

  /** The effect of one decision on the grid, or the ValueError it raises.
      The checks run in the server's order: parse, Indy's cell, the rocks'
      cells, a fixed room (value below 1), then the rotation token. */
  function ApplySpec(g: seq<seq<int>>, d: Decision, indy: Indy, rocks: seq<Rock>): Result<seq<seq<int>>, Failure>
    requires IsGrid(g) && DecisionInside(g, d)
  {
    match d
    case Wait => Ok(g)
    case Malformed => Err(MalformedDecision)
    case Rotate(x, y, token) =>
      if x == indy.x && y == indy.y then Err(IndyInRoom(x, y))
      else if RockAt(rocks, x, y) then Err(RockInRoom(x, y))
      else if RoomAt(g, x, y) < 1 then Err(FixedRoom(x, y, RoomAt(g, x, y)))
      else if token != "LEFT" && token != "RIGHT" then Err(BadRotation(token))
      else Ok(SetRoom(g, x, y, Rotated(RoomAt(g, x, y), token == "RIGHT")))
  }

  /** `apply_decision(maze, decision, indy, rocks)`: on success the maze holds
      the rotated grid, on failure it is untouched and the failure is
      returned. */
  method ApplyDecision(maze: Maze, d: Decision, indy: Indy, rocks: seq<Rock>) returns (failure: Option<Failure>)
    requires maze.Valid() && DecisionInside(maze.rows, d)
    modifies maze
    ensures maze.Valid()
    ensures var r := ApplySpec(old(maze.rows), d, indy, rocks);
      match r
      case Ok(g) => failure == None && maze.rows == g
      case Err(e) => failure == Some(e) && maze.rows == old(maze.rows)
  {
    if d.Wait? {
      return None;
    }
    if d.Malformed? {
      return Some(MalformedDecision);
    }
    var x, y, token := d.x, d.y, d.token;
    if x == indy.x && y == indy.y {
      return Some(IndyInRoom(x, y));
    }
    var i := 0;
    while i < |rocks|
      invariant 0 <= i <= |rocks|
      invariant forall j :: 0 <= j < i ==> !(rocks[j].x == x && rocks[j].y == y)
    {
      if rocks[i].x == x && rocks[i].y == y {
        return Some(RockInRoom(x, y));
      }
      i := i + 1;
    }
    var room := maze.rows[y][x];
    if room < 1 {
      return Some(FixedRoom(x, y, room));
    }
    if token != "LEFT" && token != "RIGHT" {
      return Some(BadRotation(token));
    }
    var newRoom := Rotated(room, token == "RIGHT");
    maze.rows := maze.rows[y := maze.rows[y][x := newRoom]];
    failure := None;
  }

  /** WAIT always succeeds and changes nothing. */
  lemma WaitChangesNothing(g: seq<seq<int>>, indy: Indy, rocks: seq<Rock>)
    requires IsGrid(g)
    ensures ApplySpec(g, Wait, indy, rocks) == Ok(g)
  {
  }

  /** A rotation of an occupied cell fails: Indy's cell first, then any
      rock's cell, whether that rock is active yet or not. */
  lemma OccupiedCellRejected(g: seq<seq<int>>, x: int, y: int, token: string, indy: Indy, rocks: seq<Rock>)
    requires IsGrid(g) && Inside(g, x, y)
    requires (x == indy.x && y == indy.y) || RockAt(rocks, x, y)
    ensures ApplySpec(g, Rotate(x, y, token), indy, rocks) ==
      if x == indy.x && y == indy.y then Err(IndyInRoom(x, y)) else Err(RockInRoom(x, y))
  {
  }

  /** A rotation succeeds exactly when the cell is free, its value is at
      least 1 and the token is LEFT or RIGHT; the new grid has the same shape,
      differs from the old one only at (x, y), and holds there the RIGHT
      (clockwise) or LEFT (counter-clockwise) target, which is again a
      positive room. */
  lemma RotationEffect(g: seq<seq<int>>, x: int, y: int, token: string, indy: Indy, rocks: seq<Rock>)
    requires IsGrid(g) && Inside(g, x, y)
    ensures var r := ApplySpec(g, Rotate(x, y, token), indy, rocks);
      r.Ok? <==>
        !(x == indy.x && y == indy.y) && !RockAt(rocks, x, y) &&
        g[y][x] >= 1 && (token == "LEFT" || token == "RIGHT")
    ensures var r := ApplySpec(g, Rotate(x, y, token), indy, rocks);
      r.Ok? ==>
        IsGrid(r.value) && SameShape(g, r.value) &&
        r.value[y][x] == ROTATIONS[g[y][x]][if token == "RIGHT" then 1 else 0] &&
        1 <= r.value[y][x] <= 13 &&
        forall i, j :: 0 <= i < Height(g) && 0 <= j < Width(g) && (i != y || j != x) ==>
          r.value[i][j] == g[i][j]
  {
  }

  /** A successful decision never touches a cell an entity stands on, so
      Indy and every rock stay properly placed: the grid keeps the invariant
      that each entity's room has a mapping for its entry side. */
  lemma ApplyKeepsPlacement(g: seq<seq<int>>, d: Decision, indy: Indy, rocks: seq<Rock>)
    requires IsGrid(g) && DecisionInside(g, d)
    requires Placed(g, indy.x, indy.y, indy.entry) && RocksPlaced(g, rocks)
    requires ApplySpec(g, d, indy, rocks).Ok?
    ensures var g' := ApplySpec(g, d, indy, rocks).value;
      IsGrid(g') && SameShape(g, g') &&
      Placed(g', indy.x, indy.y, indy.entry) && RocksPlaced(g', rocks)
  {
    var g' := ApplySpec(g, d, indy, rocks).value;
    if d.Rotate? {
      forall r | 0 <= r < |rocks|
        ensures RockPlaced(g', rocks[r])
      {
        assert !(rocks[r].x == d.x && rocks[r].y == d.y);
      }
    }
  }

  /** Rotating room 0 (or any negative room) is refused with the cell
      unchanged. */
  lemma FixedRoomScenario()
    ensures ApplySpec([[0, 3]], Rotate(0, 0, "RIGHT"), Indy(1, 0, Top), []) == Err(FixedRoom(0, 0, 0))
    ensures ApplySpec([[-6, 3]], Rotate(0, 0, "LEFT"), Indy(1, 0, Top), []) == Err(FixedRoom(0, 0, -6))
  {
  }
}
