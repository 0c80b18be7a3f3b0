/** One step of an in-flight laser (`moveLaser`) and the scoring it does. */
module Laser {
  import opened Grid
  import opened Formation
  import opened GameState

  /** What became of the laser after one step. */
  datatype Shot =
    | Exited            // left the top of the board; its timer is cleared
    | Exploded(slot: int)  // hit the invader of that slot; its timer is cleared
    | Rising(cell: int)    // still flying, now at that cell

  datatype Flight = Flight(game: Game, shot: Shot)

  /** The laser moves up one row; it then leaves the board, hits the alive
      invader on its new cell, or keeps flying. A hit records the slot found
      by `indexOf`, adds one to the score, and wins at thirty. The laser's
      timer runs independently of the formation's, so a step is taken
      whatever the game's status. */
  function LaserStep(g: Game, laser: int): (r: Flight)
    requires InGrid(laser)
    ensures r.game.positions == g.positions && r.game.shooter == g.shooter
    ensures r.game.direction == g.direction && r.game.goingRight == g.goingRight
    ensures r.shot.Exited? <==> laser < Width
    ensures r.shot.Rising? ==>
      r.game == g && InGrid(r.shot.cell) && r.shot.cell + Width == laser && !AliveAt(g, r.shot.cell)
    ensures r.shot.Exploded? <==> laser >= Width && AliveAt(g, laser - Width)
    ensures r.shot.Exploded? ==>
      && 0 <= r.shot.slot < |g.positions| && g.positions[r.shot.slot] == laser - Width
      && (forall j | 0 <= j < r.shot.slot :: g.positions[j] != laser - Width)
      && r.game.removed == g.removed + [r.shot.slot]
      && r.game.score == g.score + 1
      && r.game.status == (if r.game.score == Slots then Won else g.status)
    ensures !r.shot.Exploded? ==> r.game == g
  {
    var next := laser - Width;
    if next < 0 then
      Flight(g, Exited)
    else if AliveAt(g, next) then
      var slot := IndexOf(g.positions, next);
      var score := g.score + 1;
      Flight(g.(removed := g.removed + [slot], score := score,
                status := if score == Slots then Won else g.status),
             Exploded(slot))
    else
      Flight(g, Rising(next))
  }

  /** In a valid state the slot a hit records is the only alive slot on that
      cell, so the first-match lookup of `indexOf` names the invader hit. */
  lemma HitSlotIsUnique(g: Game, laser: int)
    requires Valid(g) && InGrid(laser)
    requires LaserStep(g, laser).shot.Exploded?
    ensures var slot := LaserStep(g, laser).shot.slot;
      && Alive(g, slot)
      && forall j | 0 <= j < Slots && g.positions[j] == laser - Width :: j == slot
  {
    RigidIsDistinct(g.positions);
  }

  /** A laser can only reach cells above the shooter's row, so it can never
      hit an invader that has breached. */
  lemma LaserNeverHitsBreacher(g: Game, laser: int, i: int)
    requires InGrid(laser)
    requires Alive(g, i) && g.positions[i] > LastAlienCell
    ensures LaserStep(g, laser).shot.Exploded? ==> LaserStep(g, laser).shot.slot != i
  {
  }

  /** A laser step keeps every state invariant; in particular a lost game
      stays lost, because the invader that breached can no longer be hit. */
  lemma LaserStepPreservesValid(g: Game, laser: int)
    requires Valid(g) && InGrid(laser)
    ensures Valid(LaserStep(g, laser).game)
    ensures g.status == Lost ==> LaserStep(g, laser).game.status == Lost
  {
    var f := LaserStep(g, laser);
    if f.shot.Exploded? {
      var slot := f.shot.slot;
      var r := f.game;
      ScoreCountsRemoved(g);
      HitSlotIsUnique(g, laser);
      assert slot !in g.removed;
      assert SlotList(r.removed);
      assert g.status != Won;
      if g.status == Lost {
        var j :| 0 <= j < |g.positions| && j !in g.removed && g.positions[j] > LastAlienCell;
        LaserNeverHitsBreacher(g, laser, j);
        assert j !in r.removed;
        MissingIndexBound(r.removed, Slots, j);
        assert Breached(r);
      }
      if g.status == Playing && r.status == Playing {
        assert !Breached(r);
      }
      if r.score == Slots {
        assert r.status == Won;
      }
    }
  }
}
