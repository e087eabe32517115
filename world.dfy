/** The world state the server keeps between ticks: the maze grid, Indy,
    the rocks, the agent's decisions and the named failures. */
module World {
  import opened Directions
  import opened Rooms

  /** Indy: cell and the side the current room was entered from. */
  datatype Indy = Indy(x: int, y: int, entry: Dir)

  /** A rock: cell, entry side and the first tick `fromT` it moves at. */
  datatype Rock = Rock(x: int, y: int, entry: Dir, fromT: int)

  /** One decision read from the agent: `WAIT`, `x y LEFT|RIGHT` (any other
      token is kept so that the server can reject it), or a line that does not
      split into three fields with two integers. */
  datatype Decision = Wait | Rotate(x: int, y: int, token: string) | Malformed

  /** Each ValueError the server raises, with the values its message names. */
  datatype Failure =
    | NoOpposite(d: Dir)
    | CannotExit(d: Dir)
    | IndyNoExit(x: int, y: int)
    | IndyHitWall(x: int, y: int)
    | IndyHitRock(x: int, y: int)
    | IndyInRoom(x: int, y: int)
    | RockInRoom(x: int, y: int)
    | FixedRoom(x: int, y: int, room: int)
    | BadRotation(token: string)
    | MalformedDecision

  /** A rectangular grid of rows (row y, column x) with at least one row and
      every room value within the tables. */
  predicate IsGrid(g: seq<seq<int>>)
  {
    |g| >= 1 &&
    (forall i :: 0 <= i < |g| ==> |g[i]| == |g[0]|) &&
    (forall i, j :: 0 <= i < |g| && 0 <= j < |g[i]| ==> IsRoom(g[i][j]))
  }

  function Width(g: seq<seq<int>>): nat
    requires IsGrid(g)
  {
    |g[0]|
  }

  function Height(g: seq<seq<int>>): nat
    requires IsGrid(g)
  {
    |g|
  }

  predicate Inside(g: seq<seq<int>>, x: int, y: int)
    requires IsGrid(g)
  {
    0 <= x < Width(g) && 0 <= y < Height(g)
  }

  function RoomAt(g: seq<seq<int>>, x: int, y: int): (room: int)
    requires IsGrid(g) && Inside(g, x, y)
    ensures IsRoom(room)
  {
    g[y][x]
  }

  /** An entity at (x, y) that entered from `entry` is properly placed: the
      cell is on the grid and its room has a mapping for that entry. */
  predicate Placed(g: seq<seq<int>>, x: int, y: int, entry: Dir)
    requires IsGrid(g)
  {
    Inside(g, x, y) && Opens(RoomAt(g, x, y), entry)
  }

  predicate RockPlaced(g: seq<seq<int>>, rock: Rock)
    requires IsGrid(g)
  {
    Placed(g, rock.x, rock.y, rock.entry)
  }

  predicate RocksPlaced(g: seq<seq<int>>, rocks: seq<Rock>)
    requires IsGrid(g)
  {
    forall r :: 0 <= r < |rocks| ==> RockPlaced(g, rocks[r])
  }

  /** Two grids of the same width and height. */
  predicate SameShape(g: seq<seq<int>>, h: seq<seq<int>>)
    requires IsGrid(g) && IsGrid(h)
  {
    Width(g) == Width(h) && Height(g) == Height(h)
  }

  /** A rotation names a cell on the grid (the server would raise IndexError
      or wrap negative indices otherwise). */
  predicate DecisionInside(g: seq<seq<int>>, d: Decision)
    requires IsGrid(g)
  {
    d.Rotate? ==> Inside(g, d.x, d.y)
  }

  /** The maze: a list of rows that rotations update in place. */
  class Maze {
    var rows: seq<seq<int>>

    ghost predicate Valid()
      reads this
    {
      IsGrid(rows)
    }

    constructor (initial: seq<seq<int>>)
      requires IsGrid(initial)
      ensures Valid() && rows == initial
    {
      rows := initial;
    }
  }
}
