/**
  A whole session: the game plus every laser still in flight, driven by an
  arbitrary interleaving of the events the browser delivers (level buttons,
  key presses, laser timers, formation timer).
 */
module Session {
  import opened Grid
  import opened Formation
  import opened GameState
  import opened Shooter
  import opened Aliens
  import opened Laser

  /** The events that change the state. A level button starts a game with the
      formation timer's period in milliseconds; the period only schedules
      `FormationTimer` events and never enters the state. */
  datatype Command =
    | Start(period: int)   // a level button (`gameStarter` / `startGame`)
    | Move(key: Key)       // ArrowLeft / ArrowRight (`moveShooter`)
    | Shoot                // ArrowUp (`shoot`)
    | LaserTimer(k: nat)   // the timer of the `k`-th laser in flight fires
    | FormationTimer       // the formation timer fires (`moveAliens`)

  /** Each `shoot` starts its own laser timer, so several lasers may fly at once. */
  datatype Session = Session(game: Game, lasers: seq<int>)

  /** What the source guarantees by construction: thirty slots, and the
      shooter and every laser in flight on the board. */
  predicate WellFormed(s: Session) {
    && |s.game.positions| == Slots
    && InGrid(s.game.shooter)
    && forall k | 0 <= k < |s.lasers| :: InGrid(s.lasers[k])
  }

  ghost predicate SessionValid(s: Session) {
    && Valid(s.game)
    && forall k | 0 <= k < |s.lasers| :: InGrid(s.lasers[k])
  }

  /** The state right after the first level button is pressed. */
  function Initial(): (s: Session)
    ensures SessionValid(s) && s.lasers == []
  {
    Session(Reset(), [])
  }

  function Remove(s: seq<int>, k: nat): (r: seq<int>)
    requires k < |s|
    ensures |r| == |s| - 1
    ensures forall j | 0 <= j < |r| :: r[j] == if j < k then s[j] else s[j + 1]
  {
    s[..k] + s[k + 1..]
  }

  /** One event. Starting a game resets the game but does not cancel lasers
      already in flight; key presses reach the game only while its handlers
      are attached; a laser whose step ends its flight drops its timer. */
  function Apply(v: Variant, s: Session, c: Command): (r: Session)
    requires WellFormed(s)
    ensures WellFormed(r)
    ensures !c.Start? ==> s.game.score <= r.game.score <= s.game.score + 1
    ensures !c.Start? && c != FormationTimer ==> r.game.positions == s.game.positions
    ensures c.Start? ==> r.game == Reset() && r.lasers == s.lasers
    ensures c.Move? && InputAttached(v, s.game) ==> r == s.(game := MoveShooter(s.game, c.key))
    ensures c.Shoot? && InputAttached(v, s.game) ==> r == s.(lasers := s.lasers + [s.game.shooter])
    ensures c.FormationTimer? ==> r == s.(game := Tick(v, s.game))
    ensures c.LaserTimer? && c.k < |s.lasers| ==>
      var f := LaserStep(s.game, s.lasers[c.k]);
      && r.game == f.game
      && r.lasers == if f.shot.Rising? then s.lasers[c.k := f.shot.cell] else Remove(s.lasers, c.k)
    ensures c.LaserTimer? && c.k >= |s.lasers| ==> r == s
    ensures (c.Move? || c.Shoot?) && !InputAttached(v, s.game) ==> r == s
  {
    match c
    case Start(_) =>
      Session(Reset(), s.lasers)
    case Move(key) =>
      if InputAttached(v, s.game) then s.(game := MoveShooter(s.game, key)) else s
    case Shoot =>
      if InputAttached(v, s.game) then s.(lasers := s.lasers + [s.game.shooter]) else s
    case LaserTimer(k) =>
      if k >= |s.lasers| then s
      else
        var f := LaserStep(s.game, s.lasers[k]);
        if f.shot.Rising? then Session(f.game, s.lasers[k := f.shot.cell])
        else Session(f.game, Remove(s.lasers, k))
    case FormationTimer =>
      s.(game := Tick(v, s.game))
  }

  /** No event of `cs` is a level button. */
  predicate NoStart(cs: seq<Command>) {
    forall j | 0 <= j < |cs| :: !cs[j].Start?
  }

  /** A sequence of events, in order. */
  function Run(v: Variant, s: Session, cs: seq<Command>): (r: Session)
    requires WellFormed(s)
    ensures WellFormed(r)
    ensures NoStart(cs) ==> s.game.score <= r.game.score <= s.game.score + |cs|
    decreases |cs|
  {
    if |cs| == 0 then s else Run(v, Apply(v, s, cs[0]), cs[1..])
  }

  /** Every event keeps the invariant. */
  lemma ApplyPreservesValid(v: Variant, s: Session, c: Command)
    requires SessionValid(s)
    ensures SessionValid(Apply(v, s, c))
  {
    match c
    case Start(_) =>
    case Move(key) =>
      MoveShooterPreservesValid(s.game, key);
    case Shoot =>
    case LaserTimer(k) =>
      if k < |s.lasers| {
        LaserStepPreservesValid(s.game, s.lasers[k]);
      }
    case FormationTimer =>
      TickPreservesValid(v, s.game);
  }

  /** Every event sequence keeps the invariant. */
  lemma {:induction false} RunPreservesValid(v: Variant, s: Session, cs: seq<Command>)
    requires SessionValid(s)
    ensures SessionValid(Run(v, s, cs))
    decreases |cs|
  {
    if |cs| > 0 {
      ApplyPreservesValid(v, s, cs[0]);
      RunPreservesValid(v, Apply(v, s, cs[0]), cs[1..]);
    }
  }

  /** Whatever the player does and however the timers interleave, the score
      counts the distinct slots shot down, never exceeds thirty, and the game
      is won exactly when it reaches thirty. */
  lemma EveryGameIsValid(v: Variant, cs: seq<Command>)
    ensures var g := Run(v, Initial(), cs).game;
      && Valid(g)
      && 0 <= g.score <= Slots
      && (g.status == Won <==> g.score == Slots)
      && forall i | 0 <= i < Slots :: 0 <= g.positions[i] <= Cells - 1 + SlotOffset(Slots - 1)
  {
    RunPreservesValid(v, Initial(), cs);
    ScoreCountsRemoved(Run(v, Initial(), cs).game);
    PositionsBounded(Run(v, Initial(), cs).game);
  }

  /** One event other than a start leaves a won game won, its formation
      frozen and every invader gone. */
  lemma WonStaysWon(v: Variant, s: Session, c: Command)
    requires SessionValid(s) && s.game.status == Won && !c.Start?
    ensures Apply(v, s, c).game.status == Won
    ensures Apply(v, s, c).game.positions == s.game.positions
    ensures Apply(v, s, c).game.score == Slots
  {
    ScoreCountsRemoved(s.game);
    ApplyPreservesValid(v, s, c);
  }

  /** A won game is over for good until the next start: whatever events
      follow, the formation no longer moves and every invader is gone. */
  lemma {:induction false} WonIsFinal(v: Variant, s: Session, cs: seq<Command>)
    requires SessionValid(s) && s.game.status == Won && NoStart(cs)
    ensures Run(v, s, cs).game.status == Won
    ensures Run(v, s, cs).game.positions == s.game.positions
    ensures Run(v, s, cs).game.score == Slots
    decreases |cs|
  {
    if |cs| == 0 {
      ScoreCountsRemoved(s.game);
    } else {
      WonStaysWon(v, s, cs[0]);
      ApplyPreservesValid(v, s, cs[0]);
      assert NoStart(cs[1..]);
      WonIsFinal(v, Apply(v, s, cs[0]), cs[1..]);
    }
  }

  /** One event other than a start leaves a lost game lost and its formation
      frozen. */
  lemma LostStaysLost(v: Variant, s: Session, c: Command)
    requires SessionValid(s) && s.game.status == Lost && !c.Start?
    ensures Apply(v, s, c).game.status == Lost
    ensures Apply(v, s, c).game.positions == s.game.positions
  {
    if c.LaserTimer? && c.k < |s.lasers| {
      LaserStepPreservesValid(s.game, s.lasers[c.k]);
    }
  }

  /** A lost game stays lost until the next start: the formation no longer
      moves, and lasers still in flight (or, in app.js, fired after the loss)
      cannot turn it into a win. */
  lemma {:induction false} LostIsFinal(v: Variant, s: Session, cs: seq<Command>)
    requires SessionValid(s) && s.game.status == Lost && NoStart(cs)
    ensures Run(v, s, cs).game.status == Lost
    ensures Run(v, s, cs).game.positions == s.game.positions
    decreases |cs|
  {
    if |cs| > 0 {
      LostStaysLost(v, s, cs[0]);
      ApplyPreservesValid(v, s, cs[0]);
      assert NoStart(cs[1..]);
      LostIsFinal(v, Apply(v, s, cs[0]), cs[1..]);
    }
  }

  /** Once the game has ended, index.ts ignores every arrow key, both moves
      and fire; app.js keeps moving the shooter and firing. */
  lemma InputAfterGameEnd(s: Session, key: Key)
    requires SessionValid(s) && s.game.status != Playing
    ensures Apply(Release, s, Move(key)) == s
    ensures Apply(Release, s, Shoot) == s
    ensures Apply(Prototype, s, Move(key)).game == MoveShooter(s.game, key)
    ensures Apply(Prototype, s, Shoot).lasers == s.lasers + [s.game.shooter]
  {
  }
}
