# Space Invaders game logic in Dafny

This project models the game-state transitions of a browser Space Invaders
clone. The DOM is stripped away. What remains is a small integer state machine
on a 15 × 15 board, flattened row-major (cell = row · 15 + column). A
formation of 30 invader slots marches sideways. It drops a row at each edge
and must be shot down before it reaches the row above the shooter.

The game logic exists in three copies. `index.ts` is the source and
`index.js` is its compiled twin; the model calls both the `Release`
variant. `app.js` is an earlier version; the model calls it the `Prototype`
variant.

## Structure

| file | module | contents |
|---|---|---|
| `grid.dfy` | `Grid` | `width`, the board, rows and columns, JavaScript's truncating `%` |
| `formation.dfy` | `Formation` | `fixedAlienPositions`, rigid layouts, `indexOf`, counting of removed slots |
| `game.dfy` | `GameState` | the `Game` record, `Reset`, derived occupancy, the invariant `Valid` |
| `shooter.dfy` | `Shooter` | `moveShooter` |
| `aliens.dfy` | `Aliens` | `moveAliens`: edge tests, bounce, lateral step, breach and collision |
| `laser.dfy` | `Laser` | one step of `moveLaser`, with hit and scoring |
| `session.dfy` | `Session` | sessions driven by any interleaving of level buttons, keys, laser timers and the formation timer |

The state is one immutable record:
- `positions` is `alienPositions`: 30 cells, one per slot, removed slots included.
- `removed` is `alienRemovedPositions`.
- `direction` and `goingRight` hold the formation's heading.
- `shooter` is `currentShooterIndex`.
- `score` is `scores` in `index.ts` and `results` in `app.js`.
- `status` is Playing, Won or Lost. Won and Lost stand for the cancelled formation timer and, in `index.ts`, the detached key handlers.

The source stores cell occupancy as CSS class strings. The model derives it
from the state instead:
- `AliveAt(g, cell)` is the "invader" tag of a cell.
- The shooter and each in-flight laser are indices.

Each press of the up arrow starts an independent laser timer (index.ts:88-92). A `Session`
therefore keeps a list of in-flight lasers. Any interleaving of timer events
is a sequence of `Command`s.

Every `%` in the game logic is modelled by `JsRem`, which is JavaScript's
truncating remainder. In every valid state its operands are non-negative, and
there it agrees with Dafny's Euclidean `%`.

### Behaviour the model follows
- **Every slot moves, removed ones included** (index.ts:156-175). So the formation is a rigid translate of the starting layout (`Formation.Rigid`, part of `GameState.Valid`).
- **The edge tests read slot 0 and slot 29 whatever their status** (index.ts:141-142). They are therefore bounding-box tests on the full formation (`Aliens.EdgeTestsAreBoundingBox`). A formation whose edge columns are all shot down still turns where the lost columns would have touched the edge.
- **The hit test differs between versions.**
  - `index.ts` and `index.js` hit only when the cell's class string is exactly `"invader laser"` (index.ts:106).
  - `app.js` hits whenever the cell `contains("invader")` (app.js:74).
  - The model states the hit for both versions as "an alive slot sits on the laser's new cell". For `index.ts` this counts some hits the source misses (see `Laser.LaserStep` under "## Left out").
- **The collision test** is `=== "shooter invader"` in `index.ts` (index.ts:195). In `app.js` it is `contains("invader", "shooter")`, which reads only its first token (app.js:161). Both are modelled as "an alive slot sits on the shooter's cell". `Aliens.CollisionImpliesBreach` shows the collision test never decides a loss on its own, so the difference in string matching cannot change the outcome.
- **The bounce tests.** `app.js` runs two independent `if`s (app.js:131-145), while `index.ts` uses `else if`. `Aliens.PrototypeTickAgrees` proves the two behave the same in every valid state.
- **After a win or a loss**, `index.ts` detaches the key handlers, but `app.js` keeps them (`GameState.InputAttached`, `Session.InputAfterGameEnd`).
- **Laser timers outlive the game.** They are not cancelled by a loss or by a new start (index.ts:209-235 clears only the formation timer). `Session.Apply` keeps in-flight lasers across `Start`. `Session.LostIsFinal` shows that such lasers cannot turn a loss into a win.

## Model

| member | source | states |
|---|---|---|
| `Formation.FixedLayoutIsThreeRowsOfTen` | index.ts:46-48 | the starting layout is 30 cells in three contiguous rows of ten, slot `i` at row `i / 10`, column `i % 10` |
| `Formation.IndexOf` | index.ts:117 | `indexOf` returns -1 exactly when the value is absent, and otherwise the first index holding it |
| `Formation.RigidIsDistinct` | index.ts:156-175 | a formation translated as a whole never puts two slots on one cell |
| `GameState.Reset` | index.ts:209-218 | a reset gives a valid state: score 0, nothing removed, heading right, every slot in its starting row and column, and the shooter in the centre column of the bottom row (cell 217) |
| `GameState.SlotCell` | index.ts:152-175 | in every valid state slot `i` is `i / 10` rows below and `i % 10` columns right of slot 0, so the formation never wraps across a row edge |
| `GameState.PositionsBounded` | index.ts:177-191 | in every valid state every slot, alive or removed, lies in cells 0..263: a tick only happens while some alive invader is at or above cell 209, and it moves slot 0 by at most 15 |
| `GameState.ScoreCountsRemoved` | index.ts:117-124 | the score counts distinct removed slots, lies in 0..30, and is 30 exactly when no invader is alive |
| `Shooter.MoveShooter` | index.ts:68-85 | left moves one column left unless in column 0, right moves one column right unless in column 14; the row and every other field are unchanged |
| `Shooter.LeftThenRightRestores` | index.js:61-78 | a left step away from the left edge is undone by a right step |
| `Shooter.RightThenLeftRestores` | app.js:41-58 | a right step away from the right edge is undone by a left step |
| `Shooter.Presses` | app.js:44-55 | `n` presses of one arrow move the shooter `n` columns, or to the edge of its row if that is nearer, without leaving the row |
| `Shooter.MoveShooterPreservesValid` | index.ts:72-82 | shooter moves keep every state invariant |
| `Aliens.Tick` | index.ts:140-206 | an ended game does not move; otherwise every slot, alive or removed, moves by the same amount, the heading stays a consistent ±1, the score and removed list are untouched, and the tick loses exactly on a breach or a collision |
| `Aliens.EdgesAreColumns` | index.ts:141-142 | in a valid state the left edge test fires at slot 0's column 0 and the right one at slot 0's column 5 |
| `Aliens.EdgeTestsAreBoundingBox` | index.js:123-124 | the tests on the first and last slot fire exactly when some slot of the formation, removed or not, is in the edge column |
| `Aliens.EdgesExclusive` | app.js:122-123 | the left and right edge tests never hold together |
| `Aliens.BounceVariantsAgree` | app.js:131-145 | when the two edge tests do not both hold, the sequential `if`s and the `else if` turn the formation identically |
| `Aliens.PrototypeTickAgrees` | app.js:121-165 | in every valid state a tick of `app.js` equals a tick of `index.ts` |
| `Aliens.TickDisplacement` | index.ts:152-175 | a turn at either edge moves slot 0 by exactly `width` and flips direction and heading; otherwise it moves by `direction` and the heading is kept |
| `Aliens.TickMovesEachSlot` | index.js:132-153 | on a turn every slot goes one row down in the same column; otherwise every slot stays in its row and moves one column in the current direction |
| `Aliens.CollisionImpliesBreach` | index.ts:194-205 | an alive invader on the shooter's cell has already passed cell 209 |
| `Aliens.TickLossIffBreach` | index.ts:177-191 | from a valid playing state a tick loses exactly when an alive invader passes cell 209, and every alive invader stays on the board |
| `Aliens.TickPreservesValid` | index.js:122-179 | formation ticks keep every state invariant, including the column bounds that stop rows wrapping |
| `Laser.LaserStep` | index.ts:96-135 | the laser rises one row and then does one of three things. It exits when it was in the top row. It hits when an alive invader is on its new cell, recording the first slot there, adding exactly 1 to the score and winning at 30. Otherwise it keeps flying and changes nothing |
| `Laser.HitSlotIsUnique` | index.js:104 | in a valid state the slot found by `indexOf` is alive and is the only slot on the hit cell |
| `Laser.LaserNeverHitsBreacher` | index.ts:91-103 | a laser on the board never reaches an invader below cell 209 |
| `Laser.LaserStepPreservesValid` | index.ts:106-132 | laser steps keep every state invariant, and a lost game stays lost |
| `Session.Apply` | index.ts:247-254 | each event keeps every index on the board. A start resets the game and keeps the lasers already in flight. A key press moves the shooter when the handlers are attached and is ignored otherwise. Fire adds a laser at the shooter's cell. A laser timer takes one laser step, keeping the laser if it is still rising and dropping it otherwise. A formation timer applies one `Tick` and leaves the lasers alone. Firing leaves the game unchanged. Apart from a start, the score rises by at most one and only a formation tick moves the formation |
| `Session.Run` | index.ts:119 | without a start in between, the score never drops and rises by at most one per event |
| `Session.ApplyPreservesValid` | index.ts:68-235 | every event keeps the session invariant |
| `Session.RunPreservesValid` | index.js:61-203 | every event sequence keeps the session invariant |
| `Session.EveryGameIsValid` | index.ts:123-132 | after any events from a start, the score lies in 0..30, the game is won exactly when it is 30, and every slot position lies in 0..263 |
| `Session.WonIsFinal` | index.js:108-115 | after any sequence of events without a start, a won game is still won, at score 30, with its formation where it was |
| `Session.LostIsFinal` | app.js:151-164 | after any sequence of events without a start, a lost game is still lost with its formation where it was, even with lasers still flying or, in app.js, fired after the loss |
| `Session.InputAfterGameEnd` | app.js:89-92 | after the game ends, `index.ts` ignores both arrow moves and fire; `app.js` still applies `moveShooter` to either key and still adds a laser at the shooter's cell on fire |

## Left out
- DOM construction, class-list manipulation, score and status text, the tutorial modal and level-button enabling: these are presentation only. Occupancy is derived from the state instead.
- The `Sound` class and every `playSound` call (index.ts:13-37): audio with no effect on the game state.
- Timer periods. The formation timer period (1000/600/300 ms in app.js:28-36, a halving sequence in index.ts:258-262) is carried by `Start` but never read. The 100 ms laser period and the 200 ms `boom` clean-up are not modelled either. Each of these only affects timing, and timing is modelled as an arbitrary interleaving of timer events.
- The state before the first level button is pressed. `currentShooterIndex` is still undefined then, and `app.js` already listens to keys. Sessions start from `Session.Initial`.
- JavaScript number width: positions are unbounded integers. `Session.EveryGameIsValid` proves that every reachable slot position lies in 0..263, far from the 2^53 limit of exact integers in a JavaScript number.
- Laser.LaserStep: for the `Release` variant the model counts hits that index.ts and index.js miss. Their hit test at index.ts:106 needs the class string to be exactly `"invader laser"`, and two situations break that:
  - A hit less than 200 ms earlier left a `boom` tag on the cell (index.ts:109,113), and a tick then moved an invader in. The cell then reads `"boom invader laser"`.
  - Another laser was already on the cell when the invader arrived. The cell then reads `"laser invader"`, and the second `add("laser")` changes nothing.
  - In both situations the source lets the invader survive and the laser fly on, while the model removes the slot and adds 1 to the score. Class strings are presentation state the model does not keep; `app.js`'s `contains("invader")` test hits in both situations, as the model does.
