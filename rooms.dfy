/** The fixed room tables of the server: the turn mapping of each of the 14
    room layouts and the rotation targets of the 13 rotatable ones. */
module Rooms {
  import opened Directions

  /** Room layout `i` maps an entry side to an exit side; CRASH marks an entry
      whose path is a dead end, a missing key a side with a wall. Layout 0 is
      the empty room. */
  const TURNS: seq<map<Dir, Dir>> := [
    map[],
    map[Top := Bot, Left := Bot, Right := Bot],
    map[Left := Right, Right := Left],
    map[Top := Bot],
    map[Top := Left, Right := Bot, Left := Crash],
    map[Top := Right, Left := Bot, Right := Crash],
    map[Left := Right, Right := Left, Top := Crash],
    map[Top := Bot, Right := Bot],
    map[Left := Bot, Right := Bot],
    map[Top := Bot, Left := Bot],
    map[Top := Left, Left := Crash],
    map[Top := Right, Right := Crash],
    map[Right := Bot],
    map[Left := Bot]
  ]

  /** Room id to its [counter-clockwise, clockwise] rotation targets. */
  const ROTATIONS: map<int, seq<int>> := map[
    1 := [1, 1],
    2 := [3, 3],
    3 := [2, 2],
    4 := [5, 5],
    5 := [4, 4],
    6 := [9, 7],
    7 := [6, 8],
    8 := [7, 9],
    9 := [8, 6],
    10 := [13, 11],
    11 := [10, 12],
    12 := [11, 13],
    13 := [12, 10]
  ]

  function Abs(n: int): nat
  {
    if n < 0 then -n else n
  }

  /** A signed room value whose layout exists in TURNS. */
  predicate IsRoom(room: int)
  {
    -13 <= room <= 13
  }

  /** The layout of an on-grid room value: the sign is ignored. */
  function Layout(room: int): (m: map<Dir, Dir>)
    requires IsRoom(room)
  {
    TURNS[Abs(room)]
  }

  /** True when the room can be entered from `entry` (no wall on that side). */
  predicate Opens(room: int, entry: Dir)
    requires IsRoom(room)
  {
    entry in Layout(room)
  }

  /** The exit side for `entry`, possibly CRASH. */
  function ExitDir(room: int, entry: Dir): Dir
    requires IsRoom(room) && Opens(room, entry)
  {
    Layout(room)[entry]
  }

  /** The rotation target of a positive room: ROTATIONS[room][1] when
      rotating clockwise (the server's RIGHT), [0] otherwise. */
  function Rotated(room: int, clockwise: bool): (r: int)
    requires 1 <= room <= 13
    ensures 1 <= r <= 13
  {
    assert room in ROTATIONS;
    ROTATIONS[room][if clockwise then 1 else 0]
  }

  /** Nobody ever enters a room from below and no layout ever sends anyone
      upwards: keys are TOP, LEFT or RIGHT and exits are never TOP. */
  lemma LayoutShape(room: int, entry: Dir)
    requires IsRoom(room) && Opens(room, entry)
    ensures entry in {Top, Left, Right}
    ensures ExitDir(room, entry) in {Bot, Left, Right, Crash}
  {
  }

  /** Every room id 1..13 is rotatable and nothing else is. */
  lemma RotatableRooms(room: int)
    ensures room in ROTATIONS <==> 1 <= room <= 13
  {
  }

  /** Clockwise then counter-clockwise, and the reverse, give back the room:
      the two rotations are inverse bijections of 1..13. */
  lemma RotationsInverse(room: int)
    requires 1 <= room <= 13
    ensures Rotated(Rotated(room, true), false) == room
    ensures Rotated(Rotated(room, false), true) == room
  {
  }

  /** Rotation is injective, hence a permutation of 1..13. */
  lemma RotationInjective(a: int, b: int, clockwise: bool)
    requires 1 <= a <= 13 && 1 <= b <= 13
    requires Rotated(a, clockwise) == Rotated(b, clockwise)
    ensures a == b
  {
    RotationsInverse(a);
    RotationsInverse(b);
  }

  /** Four quarter turns in the same direction are the identity. */
  lemma FourRotationsIdentity(room: int, clockwise: bool)
    requires 1 <= room <= 13
    ensures Rotated(Rotated(Rotated(Rotated(room, clockwise), clockwise), clockwise), clockwise) == room
  {
  }
}
