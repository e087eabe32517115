/** What one tick guarantees: the outcomes of Indy's move, the fate of each
    rock, the collision rules and the list of surviving rocks. */
module TickFacts {
  import opened Wrappers
  import opened Directions
  import opened Rooms
  import opened World
  import opened Sequences
  import opened Ticks

  /** Indy's move never meets the undefined TOP step: a CRASH exit is a dead
      end, and otherwise Indy either enters the neighbour from the side facing
      the old cell or hits that room's wall. */
  lemma MoveIndyCases(g: seq<seq<int>>, indy: Indy)
    requires TickReady(g, indy, [])
    ensures var e := ExitOf(g, indy.x, indy.y, indy.entry);
      e == Crash ==> MoveIndy(g, indy) == Err(IndyNoExit(indy.x, indy.y))
    ensures var e := ExitOf(g, indy.x, indy.y, indy.entry);
      e != Crash ==>
        var c := Neighbour(e, indy.x, indy.y);
        var entry := Opposite(e).value;
        Step(e, indy.x, indy.y) == Some(c) && Inside(g, c.0, c.1) &&
        MoveIndy(g, indy) ==
          if Opens(RoomAt(g, c.0, c.1), entry) then Ok(Indy(c.0, c.1, entry))
          else Err(IndyHitWall(c.0, c.1))
  {
    LayoutShape(RoomAt(g, indy.x, indy.y), indy.entry);
  }

  /** A tick whose Indy move fails reports that failure; a tick reports the
      exit exactly when Indy's accepted new cell is the exit cell, whatever
      the rocks (they are not moved). */
  lemma TickIndyOutcome(g: seq<seq<int>>, mazeExit: (int, int), t: int, indy: Indy, rocks: seq<Rock>, others: seq<Rock>)
    requires TickReady(g, indy, rocks) && TickReady(g, indy, others)
    ensures MoveIndy(g, indy).Err? ==> TickSpec(g, mazeExit, t, indy, rocks) == TickFailed(MoveIndy(g, indy).error)
    ensures TickSpec(g, mazeExit, t, indy, rocks) == AtExit <==>
      MoveIndy(g, indy).Ok? && (MoveIndy(g, indy).value.x, MoveIndy(g, indy).value.y) == mazeExit
    ensures TickSpec(g, mazeExit, t, indy, rocks) == AtExit <==> TickSpec(g, mazeExit, t, indy, others) == AtExit
  {
  }

  /** A rock that is not active yet stays idle. An active rock: a CRASH exit
      raises (CRASH has no opposite); otherwise it leaves the grid, hits the
      wall of the room it enters, or moves there keeping its `fromT`, entered
      from the side facing its old cell. The undefined TOP step never occurs. */
  lemma MoveRockCases(g: seq<seq<int>>, t: int, rock: Rock)
    requires IsGrid(g) && RockPlaced(g, rock)
    ensures t < rock.fromT <==> MoveRock(g, t, rock) == Idle
    ensures var e := ExitOf(g, rock.x, rock.y, rock.entry);
      Active(t, rock) && e == Crash ==> MoveRock(g, t, rock) == Blocked(NoOpposite(Crash))
    ensures var e := ExitOf(g, rock.x, rock.y, rock.entry);
      Active(t, rock) && e != Crash ==>
        var c := Neighbour(e, rock.x, rock.y);
        var entry := Opposite(e).value;
        MoveRock(g, t, rock) ==
          if !Inside(g, c.0, c.1) then OffGrid
          else if !Opens(RoomAt(g, c.0, c.1), entry) then IntoWall
          else MovedTo(Rock(c.0, c.1, entry, rock.fromT))
    ensures !MoveRock(g, t, rock).Blocked? || MoveRock(g, t, rock).why == NoOpposite(Crash)
  {
    LayoutShape(RoomAt(g, rock.x, rock.y), rock.entry);
  }

  /** The move loop's first error, read declaratively: none exactly when no
      rock raises, otherwise the error of the lowest-indexed rock that does. */
  lemma {:induction false} FirstRockErrorSpec(g: seq<seq<int>>, t: int, before: Indy, after: Indy, rocks: seq<Rock>, lo: nat)
    requires IsGrid(g) && RocksPlaced(g, rocks) && lo <= |rocks|
    ensures FirstRockError(g, t, before, after, rocks, lo).None? <==>
      forall r :: lo <= r < |rocks| ==> RockError(g, t, before, after, rocks[r]).None?
    ensures FirstRockError(g, t, before, after, rocks, lo).Some? ==>
      exists r :: lo <= r < |rocks| &&
        RockError(g, t, before, after, rocks[r]) == FirstRockError(g, t, before, after, rocks, lo) &&
        forall j :: lo <= j < r ==> RockError(g, t, before, after, rocks[j]).None?
    decreases |rocks| - lo
  {
    if lo < |rocks| {
      FirstRockErrorSpec(g, t, before, after, rocks, lo + 1);
      if RockError(g, t, before, after, rocks[lo]).None? && FirstRockError(g, t, before, after, rocks, lo).Some? {
        var r :| lo + 1 <= r < |rocks| &&
          RockError(g, t, before, after, rocks[r]) == FirstRockError(g, t, before, after, rocks, lo + 1) &&
          forall j :: lo + 1 <= j < r ==> RockError(g, t, before, after, rocks[j]).None?;
        assert forall j :: lo <= j < r ==> RockError(g, t, before, after, rocks[j]).None?;
      }
    }
  }

  /** Once Indy has moved without reaching the exit, the tick fails exactly
      when some active rock raises (a CRASH exit) or, having moved, lands on
      Indy's new cell or swaps cells with Indy. Rock-rock collisions never
      fail the tick. */
  lemma TickFailsExactly(g: seq<seq<int>>, mazeExit: (int, int), t: int, indy: Indy, rocks: seq<Rock>)
    requires TickReady(g, indy, rocks)
    requires MoveIndy(g, indy).Ok? && (MoveIndy(g, indy).value.x, MoveIndy(g, indy).value.y) != mazeExit
    ensures var next := MoveIndy(g, indy).value;
      TickSpec(g, mazeExit, t, indy, rocks).TickFailed? <==>
        exists r :: 0 <= r < |rocks| && Active(t, rocks[r]) &&
          (ExitOf(g, rocks[r].x, rocks[r].y, rocks[r].entry) == Crash ||
           (MoveRock(g, t, rocks[r]).MovedTo? && HitsIndy(indy, next, rocks[r], MoveRock(g, t, rocks[r]).rock)))
  {
    var next := MoveIndy(g, indy).value;
    FirstRockErrorSpec(g, t, indy, next, rocks, 0);
    forall r | 0 <= r < |rocks|
      ensures RockError(g, t, indy, next, rocks[r]).Some? <==>
        Active(t, rocks[r]) &&
        (ExitOf(g, rocks[r].x, rocks[r].y, rocks[r].entry) == Crash ||
         (MoveRock(g, t, rocks[r]).MovedTo? && HitsIndy(indy, next, rocks[r], MoveRock(g, t, rocks[r]).rock)))
    {
      MoveRockCases(g, t, rocks[r]);
    }
  }

  /** Every index the rock-rock loop marks belongs to an active rock that
      collides with another active rock; no other index is marked. */
  lemma {:induction false} PairMarksSound(t: int, m: seq<Rock>, p: seq<(int, int)>, n: nat, k: int)
    requires |m| == |p| && n <= |m|
    requires k in PairMarks(t, m, p, n)
    ensures 0 <= k < |m| && Active(t, m[k])
    ensures exists j :: 0 <= j < |m| && j != k && Active(t, m[j]) && Collide(m, p, k, j)
  {
    if k in PairMarks(t, m, p, n - 1) {
      PairMarksSound(t, m, p, n - 1, k);
    } else {
      var i := n - 1;
      var j := FirstPartner(t, m, p, i, i + 1).value;
      if k == i {
        assert Collide(m, p, k, j);
      } else {
        assert k == j && Collide(m, p, i, j);
        assert Collide(m, p, k, i);
      }
    }
  }

  /** Once marked, always marked: PairMarks only grows with n. */
  lemma {:induction false} PairMarksGrow(t: int, m: seq<Rock>, p: seq<(int, int)>, n: nat, n': nat)
    requires |m| == |p| && n <= n' <= |m|
    ensures PairMarks(t, m, p, n) <= PairMarks(t, m, p, n')
    decreases n' - n
  {
    if n < n' {
      PairMarksGrow(t, m, p, n, n' - 1);
    }
  }

  /** The search for rock i's partner from j finds k whenever k is an active
      colliding rock from j on and no active rock between j and k collides. */
  lemma {:induction false} FirstPartnerFinds(t: int, m: seq<Rock>, p: seq<(int, int)>, i: int, j: nat, k: int)
    requires |m| == |p| && 0 <= i < |m| && j <= k < |m|
    requires Active(t, m[k]) && Collide(m, p, i, k)
    ensures FirstPartner(t, m, p, i, j).Some? && FirstPartner(t, m, p, i, j).value <= k
    ensures (forall l :: j <= l < k && Active(t, m[l]) ==> !Collide(m, p, i, l)) ==>
      FirstPartner(t, m, p, i, j) == Some(k)
    decreases k - j
  {
    if j < k && !(Active(t, m[j]) && Collide(m, p, i, j)) {
      FirstPartnerFinds(t, m, p, i, j + 1, k);
    }
  }

  /** Two active rocks i < j that share a cell or swapped cells: the lower one
      is always marked, and the higher one is marked when no active rock in
      between collides with the lower one first (the inner loop's `break`). */
  lemma PairCollisionMarked(t: int, m: seq<Rock>, p: seq<(int, int)>, i: int, j: int)
    requires |m| == |p| && 0 <= i < j < |m|
    requires Active(t, m[i]) && Active(t, m[j]) && Collide(m, p, i, j)
    ensures i in PairMarks(t, m, p, |m|)
    ensures (forall l :: i < l < j && Active(t, m[l]) ==> !Collide(m, p, i, l)) ==> j in PairMarks(t, m, p, |m|)
  {
    FirstPartnerFinds(t, m, p, i, i + 1, j);
    assert PairMarksOf(t, m, p, i) <= PairMarks(t, m, p, i + 1);
    PairMarksGrow(t, m, p, i + 1, |m|);
  }

  /** Why a rock is eliminated: it left the grid or hit a wall while moving,
      it collided with another active rock, or it now sits in a dead end.
      Every such rock is eliminated (the collision reason only as the pair
      loop finds it, see PairCollisionMarked). */
  lemma EliminationReasons(g: seq<seq<int>>, t: int, rocks: seq<Rock>, i: int)
    requires IsGrid(g) && RocksPlaced(g, rocks)
    ensures var m := Moved(g, t, rocks);
      i in Eliminated(g, t, rocks) ==>
        0 <= i < |rocks| &&
        (MoveRock(g, t, rocks[i]).OffGrid? || MoveRock(g, t, rocks[i]).IntoWall? ||
         ExitOf(g, m[i].x, m[i].y, m[i].entry) == Crash ||
         (Active(t, m[i]) && exists j :: 0 <= j < |m| && j != i && Active(t, m[j]) && Collide(m, Positions(rocks), i, j)))
    ensures var m := Moved(g, t, rocks);
      0 <= i < |rocks| &&
      (MoveRock(g, t, rocks[i]).OffGrid? || MoveRock(g, t, rocks[i]).IntoWall? ||
       ExitOf(g, m[i].x, m[i].y, m[i].entry) == Crash) ==>
        i in Eliminated(g, t, rocks)
  {
    var m := Moved(g, t, rocks);
    if i in PairMarks(t, m, Positions(rocks), |rocks|) {
      PairMarksSound(t, m, Positions(rocks), |rocks|, i);
    }
  }

  /** After a tick that continues, the new rock list is the moved list with
      exactly the eliminated indices removed, survivors in their old relative
      order; a rock not yet active is unchanged; every survivor is properly
      placed and none sits in a room that sends its entry to CRASH; Indy is
      properly placed. */
  lemma TickSurvivors(g: seq<seq<int>>, mazeExit: (int, int), t: int, indy: Indy, rocks: seq<Rock>)
    requires TickReady(g, indy, rocks)
    requires TickSpec(g, mazeExit, t, indy, rocks).Continue?
    ensures var out := TickSpec(g, mazeExit, t, indy, rocks);
      var ix := KeptIndices(|rocks|, Eliminated(g, t, rocks), 0);
      ListsKept(ix, |rocks|, Eliminated(g, t, rocks), 0) &&
      |out.rocks| == |ix| &&
      (forall k :: 0 <= k < |ix| ==> out.rocks[k] == AfterMove(g, t, rocks[ix[k]])) &&
      (forall k :: 0 <= k < |ix| && t < rocks[ix[k]].fromT ==> out.rocks[k] == rocks[ix[k]])
    ensures var out := TickSpec(g, mazeExit, t, indy, rocks);
      Placed(g, out.indy.x, out.indy.y, out.indy.entry) &&
      RocksPlaced(g, out.rocks) &&
      forall k :: 0 <= k < |out.rocks| ==> ExitOf(g, out.rocks[k].x, out.rocks[k].y, out.rocks[k].entry) != Crash
  {
    var m := Moved(g, t, rocks);
    var gone := Eliminated(g, t, rocks);
    KeepFromSpec(m, gone, 0);
    var ix := KeptIndices(|rocks|, gone, 0);
    var out := KeepFrom(m, gone, 0);
    forall k | 0 <= k < |out|
      ensures RockPlaced(g, out[k]) && ExitOf(g, out[k].x, out[k].y, out[k].entry) != Crash
    {
      assert out[k] == m[ix[k]] && ix[k] !in DeadEnds(g, m);
    }
  }
}
