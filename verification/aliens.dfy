/**
  One tick of the formation ticker (`moveAliens`): edge bounce, lateral
  step, breach check and shooter-collision check.
 */
module Aliens {
  import opened Grid
  import opened Formation
  import opened GameState

  /** `isOnLeftEdge`: slot 0, removed or not, is in column 0. */
  predicate OnLeftEdge(g: Game)
    requires |g.positions| == Slots
  {
    JsRem(g.positions[0], Width) == 0
  }

  /** `isOnRightEdge`: the last slot, removed or not, is in the last column. */
  predicate OnRightEdge(g: Game)
    requires |g.positions| == Slots
  {
    JsRem(g.positions[Slots - 1], Width) == Width - 1
  }

  /** Whether this tick turns the formation around. */
  predicate Bounces(g: Game)
    requires |g.positions| == Slots
  {
    (OnRightEdge(g) && g.goingRight) || (OnLeftEdge(g) && !g.goingRight)
  }

  /** Turn at the right edge: every slot moves `width + 1` and the heading
      becomes left. */
  function TurnAtRight(g: Game): Game {
    g.(positions := Shift(g.positions, Width + 1), direction := -1, goingRight := false)
  }

  /** Turn at the left edge: every slot moves `width - 1` and the heading
      becomes right. */
  function TurnAtLeft(g: Game): Game {
    g.(positions := Shift(g.positions, Width - 1), direction := 1, goingRight := true)
  }

  /** The two edge tests. index.ts and index.js chain them with `else if`;
      app.js runs them as two independent `if`s, the second one reading the
      heading the first may just have flipped. */
  function Bounce(v: Variant, g: Game, left: bool, right: bool): Game {
    match v
    case Release =>
      if right && g.goingRight then TurnAtRight(g)
      else if left && !g.goingRight then TurnAtLeft(g)
      else g
    case Prototype =>
      var h := if right && g.goingRight then TurnAtRight(g) else g;
      if left && !h.goingRight then TurnAtLeft(h) else h
  }

  /** One formation tick. An ended game has its ticker cancelled, so a tick
      changes nothing. */
  function Tick(v: Variant, g: Game): (r: Game)
    requires |g.positions| == Slots
    ensures |r.positions| == Slots
    ensures r.removed == g.removed && r.shooter == g.shooter && r.score == g.score
    ensures g.status != Playing ==> r == g
    ensures g.status == Playing ==>
      forall i | 0 <= i < Slots :: r.positions[i] - g.positions[i] == r.positions[0] - g.positions[0]
    ensures g.status == Playing && (g.direction == 1 || g.direction == -1) && (g.goingRight <==> g.direction == 1) ==>
      (r.direction == 1 || r.direction == -1) && (r.goingRight <==> r.direction == 1)
    ensures g.status == Playing ==>
      r.status != Won && (r.status == Lost <==> Breached(r) || AliveAt(r, r.shooter))
  {
    if g.status != Playing then g
    else
      var b := Bounce(v, g, OnLeftEdge(g), OnRightEdge(g));
      var moved := b.(positions := Shift(b.positions, b.direction));
      moved.(status := if Breached(moved) || AliveAt(moved, moved.shooter) then Lost else Playing)
  }

  /** In a valid state the edge tests read the column of slot 0: the left
      test fires at column 0, the right test at column `width - 10`. */
  lemma EdgesAreColumns(g: Game)
    requires Valid(g)
    ensures OnLeftEdge(g) <==> Column(g.positions[0]) == 0
    ensures OnRightEdge(g) <==> Column(g.positions[0]) == Width - RowLength
  {
    SlotCell(g, Slots - 1);
  }

  /** The edge tests on the first and last slot are bounding-box tests: they
      fire exactly when some slot, removed or not, is in the edge column. */
  lemma EdgeTestsAreBoundingBox(g: Game)
    requires Valid(g)
    ensures OnLeftEdge(g) <==> exists i | 0 <= i < Slots :: Column(g.positions[i]) == 0
    ensures OnRightEdge(g) <==> exists i | 0 <= i < Slots :: Column(g.positions[i]) == Width - 1
  {
    EdgesAreColumns(g);
    SlotCell(g, Slots - 1);
    forall i | 0 <= i < Slots
      ensures Column(g.positions[i]) == Column(g.positions[0]) + i % RowLength
    {
      SlotCell(g, i);
    }
  }

  /** Slot 0 cannot be in column 0 while the last slot is in the last column,
      so the two edge tests never fire together. */
  lemma EdgesExclusive(g: Game)
    requires Valid(g)
    ensures !(OnLeftEdge(g) && OnRightEdge(g))
  {
    EdgesAreColumns(g);
  }

  /** When the two edge tests do not both hold, the sequential `if`s of app.js
      behave like the `else if` of index.ts. */
  lemma BounceVariantsAgree(g: Game, left: bool, right: bool)
    requires !(left && right)
    ensures Bounce(Prototype, g, left, right) == Bounce(Release, g, left, right)
  {
  }

  /** In every valid state app.js and index.ts tick identically. */
  lemma PrototypeTickAgrees(g: Game)
    requires Valid(g)
    ensures Tick(Prototype, g) == Tick(Release, g)
  {
    EdgesExclusive(g);
    BounceVariantsAgree(g, OnLeftEdge(g), OnRightEdge(g));
  }

  /** The per-tick displacement: a turn at either edge nets `width` (one row
      down, same column) and flips the heading; otherwise every slot moves one
      column in the current direction. */
  lemma TickDisplacement(v: Variant, g: Game)
    requires Valid(g) && g.status == Playing
    ensures var r := Tick(v, g);
      && (Bounces(g) ==>
            && r.positions[0] == g.positions[0] + Width
            && r.direction == -g.direction && r.goingRight == !g.goingRight)
      && (!Bounces(g) ==>
            && r.positions[0] == g.positions[0] + g.direction
            && r.direction == g.direction && r.goingRight == g.goingRight)
  {
    PrototypeTickAgrees(g);
  }

  /** Every slot follows slot 0: a turn moves each one down a row in the same
      column, any other tick moves each one a column sideways in its row. */
  lemma TickMovesEachSlot(v: Variant, g: Game, i: int)
    requires Valid(g) && g.status == Playing
    requires 0 <= i < Slots
    ensures var r := Tick(v, g);
      && (Bounces(g) ==>
            Row(r.positions[i]) == Row(g.positions[i]) + 1 && Column(r.positions[i]) == Column(g.positions[i]))
      && (!Bounces(g) ==>
            Row(r.positions[i]) == Row(g.positions[i]) && Column(r.positions[i]) == Column(g.positions[i]) + g.direction)
  {
    var r := Tick(v, g);
    TickDisplacement(v, g);
    EdgesAreColumns(g);
    SlotCell(g, i);
    if Bounces(g) {
      CellOffset(g.positions[i], 1, 0);
    } else {
      assert g.direction == 1 ==> Column(g.positions[0]) != Width - RowLength;
      assert g.direction == -1 ==> Column(g.positions[0]) != 0;
      CellOffset(g.positions[i], 0, g.direction);
    }
  }

  /** An alive invader on the shooter's cell is in the bottom row, so it has
      already breached: the collision check never decides a loss alone. */
  lemma CollisionImpliesBreach(g: Game)
    requires Row(g.shooter) == Width - 1 && InGrid(g.shooter)
    requires AliveAt(g, g.shooter)
    ensures Breached(g)
  {
    var i :| 0 <= i < |g.positions| && i !in g.removed && g.positions[i] == g.shooter;
    assert g.positions[i] > LastAlienCell;
  }

  /** A tick from a valid playing state loses exactly when an alive invader
      goes past the row above the shooter, and it leaves every alive invader
      on the board. */
  lemma TickLossIffBreach(v: Variant, g: Game)
    requires Valid(g) && g.status == Playing
    ensures var r := Tick(v, g);
      && (r.status == Lost <==> Breached(r))
      && forall i | 0 <= i < Slots && i !in r.removed :: InGrid(r.positions[i])
  {
    var r := Tick(v, g);
    TickDisplacement(v, g);
    if AliveAt(r, r.shooter) {
      CollisionImpliesBreach(r);
    }
    forall i | 0 <= i < Slots && i !in r.removed
      ensures InGrid(r.positions[i])
    {
      SlotCell(g, i);
      assert g.positions[i] <= LastAlienCell;
    }
  }

  /** A tick keeps every state invariant. */
  lemma TickPreservesValid(v: Variant, g: Game)
    requires Valid(g)
    ensures Valid(Tick(v, g))
  {
    if g.status == Playing {
      var r := Tick(v, g);
      TickDisplacement(v, g);
      TickLossIffBreach(v, g);
      EdgesAreColumns(g);
      ShiftKeepsRigid(g.positions, r.positions[0] - g.positions[0]);
      // a playing game still has an alive slot, and it has not breached, so
      // slot 0 is at most cell 209 before the move
      ScoreCountsRemoved(g);
      var k :| 0 <= k < Slots && Alive(g, k);
      assert g.positions[k] <= LastAlienCell;
      assert r.positions == Shift(g.positions, r.positions[0] - g.positions[0]);
      if Bounces(g) {
        CellOffset(g.positions[0], 1, 0);
      } else {
        CellOffset(g.positions[0], 0, g.direction);
      }
    }
  }
}
