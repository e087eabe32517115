/** The `Dir` enum of the test server: the four sides of a room plus the
    CRASH sentinel that marks "this entry has no exit". */
module Directions {
  import opened Wrappers

  datatype Dir = Top | Bot | Left | Right | Crash

  /** The side a room is entered from when it is reached by leaving the
      previous room towards `d`; CRASH has none (the server raises). */
  function Opposite(d: Dir): (r: Option<Dir>)
    ensures r.None? <==> d == Crash
    ensures r.Some? ==> r.value != Crash && r.value != d
  {
    match d
    case Top => Some(Bot)
    case Bot => Some(Top)
    case Left => Some(Right)
    case Right => Some(Left)
    case Crash => None
  }

  /** The cell reached by leaving (x, y) towards `d`. Rooms are only ever left
      downwards or sideways, so the server defines no step for TOP (nor for
      CRASH) and raises instead. */
  function Step(d: Dir, x: int, y: int): (r: Option<(int, int)>)
    ensures r.Some? <==> d in {Bot, Left, Right}
    ensures r.Some? ==> r.value == Neighbour(d, x, y)
  {
    match d
    case Bot => Some((x, y + 1))
    case Left => Some((x - 1, y))
    case Right => Some((x + 1, y))
    case _ => None
  }

  /** Reference geometry: the neighbouring cell on side `d` of (x, y), with
      rows numbered downwards. Defined for all four sides. */
  function Neighbour(d: Dir, x: int, y: int): (c: (int, int))
    requires d != Crash
  {
    match d
    case Top => (x, y - 1)
    case Bot => (x, y + 1)
    case Left => (x - 1, y)
    case Right => (x + 1, y)
  }

  /** `Opposite` is an involution on the four sides. */
  lemma OppositeInvolution(d: Dir)
    requires d != Crash
    ensures Opposite(d).Some? && Opposite(Opposite(d).value) == Some(d)
  {
  }

  /** A step changes exactly one coordinate, by exactly one. */
  lemma StepIsUnit(d: Dir, x: int, y: int)
    requires Step(d, x, y).Some?
    ensures var (nx, ny) := Step(d, x, y).value;
      (nx == x && ny == y + 1) || (ny == y && (nx == x - 1 || nx == x + 1))
  {
  }

  /** Leaving towards `d` and then looking back through the side the new room
      was entered from leads to the cell just left: the entry direction the
      server records is the side facing the previous room. */
  lemma EntrySideFacesPrevious(d: Dir, x: int, y: int)
    requires Step(d, x, y).Some?
    ensures var (nx, ny) := Step(d, x, y).value;
      Neighbour(Opposite(d).value, nx, ny) == (x, y)
  {
  }
}
