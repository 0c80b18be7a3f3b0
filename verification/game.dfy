/**
  The state of one game session as an immutable record, the reset performed
  when a difficulty level is chosen, and the invariant every reachable state
  keeps.
 */
module GameState {
  import opened Grid
  import opened Formation

  /** The two versions of the game logic: `Release` is index.ts and its
      compiled twin index.js; `Prototype` is the earlier app.js. */
  datatype Variant = Release | Prototype

  /** Playing, or one of the two end states (formation ticker cancelled). */
  datatype Status = Playing | Won | Lost

  datatype Game = Game(
    positions: seq<int>,  // cell of every slot, removed slots included (`alienPositions`)
    removed: seq<int>,    // slots shot down, in order (`alienRemovedPositions`)
    direction: int,       // lateral step of the formation: 1 or -1
    goingRight: bool,     // heading flag read by the edge tests
    shooter: int,         // the shooter's cell (`currentShooterIndex`)
    score: int,           // `scores` / `results`
    status: Status)

  /** Whether slot `i` is still alive. */
  predicate Alive(g: Game, i: int) {
    0 <= i < |g.positions| && i !in g.removed
  }

  /** Whether some alive invader occupies `cell`: the "invader" tag of that
      cell, derived from the state rather than stored. */
  predicate AliveAt(g: Game, cell: int) {
    exists i | 0 <= i < |g.positions| :: i !in g.removed && g.positions[i] == cell
  }

  /** Whether some alive invader has gone past the last row invaders may use. */
  predicate Breached(g: Game) {
    exists i | 0 <= i < |g.positions| :: i !in g.removed && g.positions[i] > LastAlienCell
  }

  /** Whether the keyboard handlers are attached. index.ts detaches them on a
      win or a loss; app.js never detaches them. */
  predicate InputAttached(v: Variant, g: Game) {
    v == Prototype || g.status == Playing
  }

  /** The shooter's starting cell: `width ** 2 - Math.ceil(width / 2)`. */
  const ShooterStart: int := Cells - CeilHalf(Width)

  /** A fresh game (`gameStarter` in index.ts, `startGame` in app.js). */
  function Reset(): (g: Game)
    ensures Valid(g)
    ensures g.status == Playing && g.score == 0
    ensures forall i | 0 <= i < Slots :: Alive(g, i)
    ensures g.goingRight && g.direction == 1
    ensures Row(g.shooter) == Width - 1 && Column(g.shooter) == Width / 2
    ensures forall i | 0 <= i < Slots ::
      Row(g.positions[i]) == i / RowLength && Column(g.positions[i]) == i % RowLength
  {
    FixedLayoutIsThreeRowsOfTen();
    var g := Game(FixedAlienPositions, [], 1, true, ShooterStart, 0, Playing);
    assert forall i | 0 <= i < Slots :: Row(g.positions[i]) == i / RowLength && Column(g.positions[i]) == i % RowLength by {
      forall i | 0 <= i < Slots
        ensures Row(g.positions[i]) == i / RowLength && Column(g.positions[i]) == i % RowLength
      {
        DivModUnique(g.positions[i], i / RowLength, i % RowLength);
      }
    }
    g
  }

  /** The invariant of every reachable state. */
  ghost predicate Valid(g: Game) {
    // the formation is a rigid translate of the starting layout ...
    && Rigid(g.positions)
    // ... whose left column stays far enough from either edge that no row wraps
    && 0 <= g.positions[0] < Cells
    && Column(g.positions[0]) <= Width - RowLength
    && (g.direction == 1 || g.direction == -1)
    && (g.goingRight <==> g.direction == 1)
    && Row(g.shooter) == Width - 1 && InGrid(g.shooter)
    && SlotList(g.removed)
    && g.score == |g.removed|
    && (forall i | 0 <= i < Slots && i !in g.removed :: g.positions[i] < Cells)
    && (g.status == Won <==> g.score == Slots)
    && (g.status == Playing ==> !Breached(g))
    && (g.status == Lost ==> Breached(g))
  }

  /** In a valid state every slot sits in row `Row(slot 0) + i / 10` and
      column `Column(slot 0) + i % 10`: the formation never wraps around a
      row edge. */
  lemma SlotCell(g: Game, i: int)
    requires Valid(g)
    requires 0 <= i < Slots
    ensures Row(g.positions[i]) == Row(g.positions[0]) + i / RowLength
    ensures Column(g.positions[i]) == Column(g.positions[0]) + i % RowLength
    ensures g.positions[i] >= 0
  {
    CellOffset(g.positions[0], i / RowLength, i % RowLength);
  }

  /** Every slot, alive or removed, stays within 263 (cell 224 plus the
      offset of the last slot), even after all of them are shot down. */
  lemma PositionsBounded(g: Game)
    requires Valid(g)
    ensures forall i | 0 <= i < Slots :: 0 <= g.positions[i] <= Cells - 1 + SlotOffset(Slots - 1)
  {
    forall i | 0 <= i < Slots
      ensures 0 <= g.positions[i] <= Cells - 1 + SlotOffset(Slots - 1)
    {
      assert SlotOffset(i) <= SlotOffset(Slots - 1);
    }
  }

  /** The score counts the slots shot down, so it never exceeds thirty, and it
      is thirty exactly when no invader is left. */
  lemma ScoreCountsRemoved(g: Game)
    requires Valid(g)
    ensures 0 <= g.score <= Slots
    ensures g.score == Slots <==> forall i | 0 <= i < Slots :: !Alive(g, i)
  {
    AllRemovedIffFull(g.removed);
    if g.score > Slots {
      MissingIndexBound(g.removed[..Slots], Slots, g.removed[Slots]);
    }
    if forall i | 0 <= i < Slots :: !Alive(g, i) {
      forall j | 0 <= j < Slots
        ensures j in g.removed
      {
        assert !Alive(g, j);
      }
    }
  }
}
