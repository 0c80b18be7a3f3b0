/** The shooter's horizontal moves (`moveShooter`). */
module Shooter {
  import opened Grid
  import opened Formation
  import opened GameState

  /** The two arrow keys the handler reacts to. */
  datatype Key = ArrowLeft | ArrowRight

  /** One key press: a step of one cell inside the shooter's row, ignored at
      the row's edge. Nothing but the shooter's cell changes. */
  function MoveShooter(g: Game, key: Key): (r: Game)
    requires InGrid(g.shooter)
    ensures r == g.(shooter := r.shooter)
    ensures InGrid(r.shooter) && Row(r.shooter) == Row(g.shooter)
    ensures key == ArrowLeft ==>
      if Column(g.shooter) == 0 then r.shooter == g.shooter
      else r.shooter == g.shooter - 1 && Column(r.shooter) == Column(g.shooter) - 1
    ensures key == ArrowRight ==>
      if Column(g.shooter) == Width - 1 then r.shooter == g.shooter
      else r.shooter == g.shooter + 1 && Column(r.shooter) == Column(g.shooter) + 1
  {
    match key
    case ArrowLeft =>
      if JsRem(g.shooter, Width) != 0 then
        CellOffset(g.shooter, 0, -1);
        g.(shooter := g.shooter - 1)
      else g
    case ArrowRight =>
      if JsRem(g.shooter, Width) < Width - 1 then
        CellOffset(g.shooter, 0, 1);
        g.(shooter := g.shooter + 1)
      else g
  }

  /** Moves keep every state invariant. */
  lemma MoveShooterPreservesValid(g: Game, key: Key)
    requires Valid(g)
    ensures Valid(MoveShooter(g, key))
  {
    var r := MoveShooter(g, key);
    assert AliveAt(r, 0) == AliveAt(g, 0);
    assert Breached(r) == Breached(g);
  }

  /** A step left away from the row's left edge is undone by a step right. */
  lemma LeftThenRightRestores(g: Game)
    requires InGrid(g.shooter) && Column(g.shooter) != 0
    ensures MoveShooter(MoveShooter(g, ArrowLeft), ArrowRight) == g
  {
  }

  /** A step right away from the row's right edge is undone by a step left. */
  lemma RightThenLeftRestores(g: Game)
    requires InGrid(g.shooter) && Column(g.shooter) != Width - 1
    ensures MoveShooter(MoveShooter(g, ArrowRight), ArrowLeft) == g
  {
  }

  /** Holding a key long enough parks the shooter at that edge of its row:
      `n` presses move it `min(n, distance to edge)` cells. */
  function Presses(g: Game, key: Key, n: nat): (r: Game)
    requires InGrid(g.shooter)
    ensures InGrid(r.shooter) && Row(r.shooter) == Row(g.shooter)
    ensures r == g.(shooter := r.shooter)
    ensures key == ArrowLeft ==>
      Column(r.shooter) == if n <= Column(g.shooter) then Column(g.shooter) - n else 0
    ensures key == ArrowRight ==>
      Column(r.shooter) == if n <= Width - 1 - Column(g.shooter) then Column(g.shooter) + n else Width - 1
    decreases n
  {
    if n == 0 then g else Presses(MoveShooter(g, key), key, n - 1)
  }
}
