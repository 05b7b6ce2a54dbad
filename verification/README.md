# Tridice in Dafny

Tridice is a two-player board game. It is played with four-sided dice on a
triangular board of triangular cells. The game has three parts, and this
project models each of them as pure functions over immutable data.

- **Die orientation** (`DiceFaces`). A die has five slots: left, top,
  right, up and down. The numbers 1..4 fill four of them. The fifth is a
  `0` sentinel in the up or the down slot, and which of the two holds it is
  the direction the die points. The model covers the tip (`move`) and the
  in-place turn (`rotate`).
- **The board and the turn engine** (`Topology`, `Pieces`, `Players`,
  `Engine`).
  - The sixteen cells are numbered `row * 10 + slot`. Their neighbour links
    are built arithmetically.
  - A die keeps a committed orientation and a speculative one. Its undo log
    records the tried moves.
  - The game is one record. It holds a map of cells by id and a map of dice
    by id; cells and dice refer to each other by id.
  - Every engine call returns the state it leaves behind, whether it
    returned or threw. A JavaScript exception does not undo the mutations
    made before it.
- **The AI** (`Reach`, `Ai`). It works on its own arithmetic board.
  - `reachFrom` is a depth-first search that never steps straight back. It
    records a path for every cell it meets.
  - The capture rule and the escape rule are built on that search.

The reach map is a JavaScript `Map`, so its iteration order decides ties.
It is therefore modelled as an insertion-ordered list of entries (module
`OrderedMaps`).

Main results:

- **Orientation.** A tip and a turn each keep the faces a valid
  orientation, and each flips the pointing direction. A tip followed by the
  inverse tip restores the faces.
- **Construction.** The constructor never throws. It builds exactly the
  sixteen cells, and a link is resolved exactly when its arithmetic target
  exists.
- **Turn engine.** Every engine call keeps the game well formed. A tried
  move followed by `undoMove` gives back the original die.
- **Reach.** A key's recorded path has the full length exactly when a
  non-backtracking walk of that length reaches the key.
- **Capture.** `tryCapture` takes the first of the offered captures that
  shows the greatest top number.
- **Escape.** `moveOutOfRange` walks to the first full-length destination
  that some enemy die cannot reach.
- **Game over.** Because `loseDice` never records a lost die, no sequence
  of calls from a new game ever ends it.

The model follows the code as written. Points where the code departs from
the game's evident rules:

- `captureDiceAt` hands the captured die to the next player's `loseDice`.
  `loseDice` adds the die to the dice on the board and deletes it again, and
  never writes `lostDice`. But `didPlayerLose` (tridice.ts:202-204) decides a
  loss by the size of `lostDice`, so a capture is evidently meant to fill it.
  As written, `isGameOver` can never become true (`Engine.NeverGameOver`).
- `moveOutOfRange` accepts a destination when *some* die of the attacker's
  owner cannot reach it, not only when none can (`Ai.Escapes`). The ruleset
  comment at ai.ts:9 asks to move out of capture range, which such a
  destination does not guarantee.
- A logged move records the cell moved to, not the cell left. Each move
  looks up its neighbour from the die's committed cell, not from the cell
  the previous move reached (`Ai.Logged`).
- A captured die leaves the on-board dice of the player whose turn it is
  not. That player need not be the die's owner.

## Model

| member | source | states |
|---|---|---|
| DiceFaces.MoveNumberToNullZone | tridice.js:122-129 | On valid faces, the new number goes into the null slot and the null goes into the other secondary slot. The number that slot held is returned. Left, top and right are untouched. |
| DiceFaces.Move | tridice.js:130-155 | A tip fails with `IllegalTip` exactly for down without a null in the down slot, or up without a null in the up slot. On valid faces, a tip that succeeds yields valid faces with the null moved to the other secondary slot. |
| DiceFaces.Rotate | tridice.js:103-121 | On valid faces, a turn yields valid faces with the same top number and the null in the other secondary slot, whatever direction is asked for. |
| DiceFaces.InitialValid | tridice.js:31-48 | The default orientation `[1,2,3,4,0]` is valid, points up and shows 2 on top. |
| DiceFaces.MoveLegality | tridice.js:145-147 | On valid faces, the only refused tips are down on a die pointing down and up on a die pointing up. Left and right never fail. |
| DiceFaces.MoveClosedForm | tridice.js:130-155 | Gives the closed form of each legal tip. Right and left cycle the left, top and right numbers through the secondary slot. Up and down swap the top number with the secondary number. |
| DiceFaces.MoveRoundTrip | tridice.js:23-29 | A legal tip followed by a tip in the inverted direction gives back exactly the original faces. |
| DiceFaces.RotateIgnoresDirection | tridice.js:103-105 | Turning left and turning right give the same faces: the requested direction is overridden by the null position. |
| Topology.CellIds | tridice.js:5-10 | The id generator yields exactly 11, 21-24, 31-35 and 41-46, in that order. |
| Topology.NewCell | tridice.ts:41-50 | A new cell's neighbour in each direction is the pending id `id - 11`, `id + 11`, `id - 1` or `id + 1`. |
| Topology.InitialCells | tridice.ts:40-58 | The first constructor loop's map holds exactly the generated ids, each mapped to a fresh cell. |
| Topology.SetNeighbor | tridice.js:384-393 | Keeps the set of cells. It throws `NeighborAlreadySet` on a resolved link and `InvalidNeighbor` when the target id is not the id the link expects. |
| Topology.SetNeighborSucceeds | tridice.js:384-393 | On an empty board with consistent links and mirrored left/right links, resolving a pending link succeeds. The board stays shaped and mirrored, no resolved link is lost, and the link ends up resolved. |
| Topology.LinkCellSucceeds | tridice.ts:62-71 | The inner constructor loop never throws on such a board. It resolves every visited direction that leads to a cell. |
| Topology.LinkAllSucceeds | tridice.ts:61-72 | The outer constructor loop never throws. It leaves every visited cell with all of its links towards existing cells resolved. |
| Topology.BoardFrom | tridice.ts:60-72 | For any id list, construction succeeds. Each link is resolved exactly when its arithmetic target is a cell; otherwise it keeps the numeric id. |
| Topology.BuildShape | tridice.ts:30-73 | The constructor's board has exactly the sixteen generated cells, each empty and pointing as its id's parity says. A link is resolved exactly when its target exists, so left/right links are mutual. Neither construction error occurs. |
| Pieces.NewDice | tridice.js:239-248 | A new die is off the board with valid initial faces. Its temporary faces equal the committed faces, its log is empty and its move count is its top number. |
| Pieces.TryMoveTo | tridice.js:287-299 | A try fails with `NoMovesLeft` at count 0. It fails with `InvalidDirection` when the committed cell's neighbour is missing or still numeric, and with `IllegalTip` exactly when the tip is refused. On success it tips the temporary faces, logs the neighbour and the inverse direction, and decrements the count. Log length plus move count is unchanged. |
| Pieces.UndoMove | tridice.js:300-306 | An undo fails with `NoMoves` exactly on an empty log. Otherwise it pops first, so a refused tip leaves the shortened log. On success it returns the logged cell and increments the count. Log length plus move count is unchanged. |
| Pieces.ResetTemporaryMoves | tridice.js:268-272 | Clears the log and resets the count to the committed top. It makes a die with valid faces sound and changes nothing else. |
| Pieces.Roll | tridice.js:310-314 | On a die with nothing logged, a valid roll gives a sound die whose committed faces are the roll and whose count is the new top. Only the two orientations and the count change. |
| Pieces.RollIsReset | tridice.js:310-314 | With nothing logged, rolling is replacing the committed faces and then dropping the tried moves with `resetTemporaryMoves`. |
| Pieces.RotateDice | tridice.js:258-261 | Turning a die keeps its faces valid and its top number. It flips its pointing direction and copies the faces to the temporary ones. |
| Pieces.TryThenUndo | tridice.js:287-306 | A successful try followed by an undo returns the original die and reports the cell the move went to. |
| Pieces.TryMoveToKeepsSound | tridice.js:287-299 | A try keeps a die sound: undoing its whole log leads back from the temporary faces to the committed ones. |
| Pieces.UndoMoveOnSound | tridice.js:300-306 | On a sound die with a non-empty log, an undo never throws and keeps the die sound. |
| Players.NewPlayer | tridice.js:400-409 | A new player with `n` dice holds `n` pairwise distinct ids, and no dice lost or on the board. |
| Players.NewPlayerDiceIds | tridice.js:403-406 | With at most ten dice, an id belongs to the new player exactly when its tens name the player and its units are below the count. |
| Players.NewPlayersDisjoint | tridice.js:403-406 | With at most ten dice each, two players with different ids share no die id. |
| Players.PlaceDice | tridice.js:414-416 | Adds the die to the dice on the board. It keeps the others and their uniqueness, and changes nothing else. |
| Players.LoseDice | tridice.js:410-413 | The die leaves the dice on the board, the others stay, and `lostDice` is unchanged. |
| Players.LoseDiceIsDelete | tridice.js:410-413 | Setting then deleting the die is the same as deleting it from the on-board order. |
| Engine.Facing | tridice.ts:53-55 | A facing list holds exactly the ids pointing the given way. |
| Engine.StartingDice | tridice.js:400-406 | A player's starting dice are keyed by exactly their ids. Each is owned by the player, is off the board, is sound and has as many moves as its top number. |
| Engine.NewGame | tridice.ts:30-73 | The constructed game is well formed. |
| Engine.NewGameStart | tridice.ts:30-73 | The new game has the sixteen resolved, empty cells, the first player to move and nothing selected. Its dice are 10-13 and 20-23, all off the board and owned by the player their id names. Nobody has lost a die or placed one. |
| Engine.FacingPartition | tridice.ts:48-55 | Up-facing cells are exactly the odd ids and down-facing cells exactly the even ones. The two lists partition the board and agree with each cell's pointing direction. |
| Engine.SelectDice | tridice.ts:95-98 | Selects the die. The previously selected die loses its tried moves: empty log, count equal to its committed top, temporary faces equal to its committed faces. Every other die is unchanged and the game stays well formed. |
| Engine.NextTurn | tridice.ts:100-103 | The turn index changes, and nothing else does. |
| Engine.NextTurnInvolution | tridice.ts:100-103 | Two turns give back the game. |
| Engine.RemoveDice | tridice.js:374-380 | Fails with `EmptyCell` exactly on an empty cell. Otherwise it returns the occupant, empties the cell and clears that die's cell. |
| Engine.MoveTo | tridice.js:262-267 | Fails with `AlreadyFull` on an occupied cell and with `DiceDoesntFit` on a mismatched pointing direction; otherwise it succeeds. The die then occupies the new cell with a cleared log, and its old cell is emptied. Nothing else changes and the game stays well formed. |
| Engine.PlaceSelectedDiceAt | tridice.ts:105-122 | Checks `NoSelectedDice` before `UndefinedCell`, then throws exactly what the cell entry throws. On success the selected die is in the cell with a cleared log, and the cell it left is empty. The current player's record is `placeDice` of the old one. The other player, every other cell and every other die are unchanged. |
| Engine.CaptureDiceAt | tridice.ts:124-137 | Fails with `UndefinedCell` for an unknown id and with `EmptyCell` for an empty cell; otherwise it succeeds. The cell is then empty and the die is in no cell. The next player's record is `loseDice` of the old one, so the die has left their on-board dice and no lost die was recorded. The current player, the turn, the selection, every other cell and every other die are unchanged. |
| Engine.MoveDice | tridice.ts:182-196 | Fails with `NoSelectedDice`, then with `WrongTurnMove` for a die of the other player. Otherwise it has exactly the effect of the die's `tryMoveTo` from its committed cell. |
| Engine.UndoSelected | tridice.ts:144-146 | With nothing selected it does nothing. Otherwise the result is the selected die's undo, including what an undo that throws leaves behind. |
| Engine.FixTemporaryFaces | tridice.js:276-283 | With moves left it throws `HasMovesLeft` and changes nothing. With an empty log it commits the faces, then fails on the missing last move. With moves logged it returns exactly when `moveTo` of the faces-committed die to the last logged cell returns, and a throw leaves that faces-committed state. On success the committed faces become the temporary ones, the die sits in the last logged cell with a cleared log, and its count is the new top. The cell it left is empty. The players, every other cell and every other die are unchanged. |
| Engine.FixTemporaryFacesAtHome | tridice.js:276-283 | A die whose last logged cell is its own committed cell cannot commit: the cell is occupied by the die itself (`AlreadyFull`). |
| Engine.EndTurn | tridice.ts:212-216 | With `placingDice` or no selection, it clears the selection and passes the turn. Otherwise it first commits the selected die and passes any throw on; on `HasMovesLeft` the game is unchanged. |
| Engine.RotateUntilFits | tridice.ts:238-240 | The rotate loop ends with the wanted pointing direction and the same top number, after at most one turn. |
| Engine.RollDiceToFit | tridice.ts:222-241 | Checks `NoSelectedDice` first. The roll happens before `UndefinedCell`, which leaves the rolled die behind. On success the die points as the cell does, its count is its top, and its faces are the roll or the roll turned once. The cells and every other die are unchanged. |
| Engine.Board | tridice.ts:243-253 | The snapshot has exactly the occupied cells. Each shows its occupant's committed faces, which form a valid orientation, and its occupant's owner, which is player 1 or 2. |
| Engine.BoardAfterCapture | tridice.ts:124-137 | After a capture the captured cell drops out of the board, and every other cell shows what it showed before. |
| Engine.BoardAfterMoveTo | tridice.js:262-267 | After a successful `moveTo` the destination shows the moving die's committed faces and owner, the cell it left drops out of the board, and every other cell shows what it showed before. |
| Engine.Winner | tridice.ts:206-210 | A winner exists exactly when the game is over. The first player's loss is checked first. |
| Engine.ApplyKeeps | tridice.ts:95-241 | Any engine call, returning or throwing, keeps the game well formed and leaves `lostDice` unchanged. |
| Engine.RunKeepsLost | tridice.js:410-413 | Over any sequence of calls the game stays well formed and no lost die is ever recorded. |
| Engine.NeverGameOverFrom | tridice.ts:198-210 | From a game where nobody has lost a die, no sequence of calls makes `isGameOver` true or `winner` defined. |
| Engine.NeverGameOver | tridice.ts:198-204 | A game started by the constructor never ends. |
| Reach.NeighborsOf | ai.ts:167-182 | The neighbours are exactly those of `c - 1`, `c + 1` and the vertical neighbour that are on the AI board. The vertical neighbour is `c - 11` for an even units digit and `c + 11` for an odd one. The AI board has a positive id, units digit 1..2·tens−1, and tens at most the height. |
| Reach.NeighborsSymmetric | ai.ts:167-182 | On the AI board, being neighbours is symmetric. |
| Reach.StepDirection | ai.ts:160-165 | For a step to one of the four arithmetic neighbours, the direction's offset leads from origin to destination. Any other destination gives down. |
| Reach.ReachIsFold | ai.ts:194-216 | The search equals the left fold of its recording rule over the depth-first sequence of visits. |
| Reach.ReachUnique | ai.ts:201-204 | No cell is recorded twice: an overwrite keeps the entry's position. |
| Reach.ReachKeys | ai.ts:194-216 | A cell is a key exactly when a non-backtracking walk of at most `m` steps leads there from the start. |
| Reach.ReachPaths | ai.ts:194-216 | Every recorded path, followed by its key, is such a walk from the start of at most `m` steps. |
| Reach.ReachFull | ai.ts:201-204 | A key's recorded path has exactly `m` steps iff some non-backtracking walk of exactly `m` steps ends there. |
| Reach.ReachZero | ai.ts:194-216 | With no steps allowed, the map is exactly the start cell with the empty path. |
| Ai.DiceCanReachCell | ai.ts:151-158 | For a die in no cell it fails with a TypeError. Otherwise it is true exactly when a non-backtracking walk of exactly the die's top number of steps reaches the cell. |
| Ai.Steps | ai.ts:90-98 | One direction per consecutive pair of the path, each the direction of that step. |
| Ai.MoveThroughPath | ai.ts:90-98 | Changes only dice and keeps the game well formed. A path shorter than two cells does nothing. The only throws are the move errors of `moveDice`. |
| Ai.MoveDiceStep | tridice.ts:182-196 | A `moveDice` that returns has tipped the selected die, which is in a cell, and logged the neighbour of its committed cell. |
| Ai.MoveThroughPathFrame | ai.ts:90-98 | A walk that returns changes only the selected die, which is in a cell. |
| Ai.MoveThroughPathEffect | ai.ts:90-98 | A walk that returns spends one move per step, tips the temporary faces through the steps' directions, and logs each step against the committed cell. |
| Ai.MoveThroughPathTooLong | ai.ts:90-98 | A die of the current player with fewer moves left than the path has steps makes the walk throw. |
| Ai.EntryCaptures | ai.ts:58-73 | The captures a reach map offers are exactly its full-length entries whose cell holds another player's die. Each replays its path followed by the target. |
| Ai.DiceCaptures | ai.ts:51-74 | Fails with `UndefinedCell` exactly when one of the dice is in no cell. Every capture found belongs to one of the dice. |
| Ai.DiceCapturesSpec | ai.ts:51-74 | The captures found are exactly those the dice offer. |
| Ai.PickBest | ai.ts:63-72 | The loop keeps a capture exactly when there is one, and the kept capture is one of those found. |
| Ai.PickBestIsFirstMax | ai.ts:63-72 | The kept capture has the greatest top number, and no earlier capture has as great a one: ties go to the first found. |
| Ai.TryCapture | ai.ts:38-88 | With no dice on the board it returns false unchanged. With a die in no cell it throws `UndefinedCell` unchanged. A false result never changes the game. |
| Ai.TryCaptureDeclines | ai.ts:38-88 | With all dice placed, it returns false without change exactly when no capture is offered. |
| Ai.TryCaptureChoice | ai.ts:76-87 | A successful capture took an offered target showing the greatest top on offer. That cell was occupied and is now empty, and the capturing die is selected. |
| Ai.CaptureAndMove | ai.ts:80-85 | Selecting and capturing an offered target always succeeds, and a replay that returns leaves the target cell empty. |
| Ai.EnemyScan | ai.ts:133-137 | Fails with a TypeError exactly when an enemy die is in no cell. |
| Ai.EnemyScanSpec | ai.ts:133-137 | The route is set once, to the path plus its cell, when some enemy die cannot reach the cell, and is never changed after that. |
| Ai.EntryScanErr | ai.ts:130-138 | The scan throws exactly when a full-length entry exists and an enemy die is in no cell. |
| Ai.EntryScanFirst | ai.ts:130-138 | Started with no route, the scan finds the first full-length entry that some enemy cannot reach, or nothing when none exists. |
| Ai.MoveOutOfRange | ai.ts:121-149 | It selects first. When the attacker or the die is in no cell it throws after the selection. A false result only selected and deselected. A true result keeps the die selected and changes no cell. |
| Ai.MoveOutOfRangeThrows | ai.ts:121-138 | For placed dice, it throws a TypeError exactly when a full-length destination exists and a die of the attacker's owner is in no cell. |
| Ai.MoveOutOfRangeDeclines | ai.ts:140-149 | It deselects and returns false exactly when it does not throw and every full-length destination is reachable by every enemy die. |
| Ai.MoveOutOfRangeEscapes | ai.ts:130-144 | When it returns true, it has walked the path of the first full-length destination that some enemy die cannot reach. |

## Left out

- script.js, the canvas and mouse front end, is not part of this model.
  examples.ts and the `tester`, `placeDice` and `moveDice` drivers in
  ai.ts are not part of it either. All logging is dropped.
- board.ts, board.js and ne.ts are superseded drafts and are not part of
  this model. cell.ts is not part of this model; `Dice`, `Cell`, `Player`
  and `cellIDIterator` follow tridice.js, except for the board snapshot
  below.
- `board()` and its snapshot follow tridice.ts:243-253. Empty cells are left
  out of the map; tridice.js:568-573 maps them to `undefined`. The
  snapshot's `owner` is taken from the TypeScript `SimplifiedDice` type,
  which cell.ts defines (imported at tridice.ts:10). `simplified()` in
  tridice.js:323-331 has no owner. `Ai.DiceCaptures` relies on that owner,
  because ai.ts:62 compares it with the player.
- `AI.makeTurn` and `AI.tryMoveOutOfRange` drive the rules above but are
  not modelled.
- Randomness is not modelled. `roll` takes the rolled orientation as a
  parameter (`Pieces.Roll`, `Engine.RollDiceToFit`), and that orientation
  must be valid. `randomMove`, `randomRotation` and `simulatedRoll` are
  not modelled.
- Error messages, `throwCustomError` and the shared error objects are
  replaced by an error kind. `toString`, `facesString`, `simplified` beyond
  `board()`, and the query helpers (`moveHistory`, `lastMoveMade`,
  `selectedDiceNeighbors`, `neighborIDsOfCell`, `getCellsFitting…`) are
  not modelled.
- `dice.topFace` belongs to the `Dice` class that ai.ts imports from cell.ts
  (ai.ts:1), which is not part of this model. It is taken to be the
  committed top number.
- Ai.MoveOutOfRange: the false branch calls `game.deselectDice()`
  (ai.ts:146), but the `Tridice` class of tridice.ts:13-273 has no such
  method, so as written that call would throw a `TypeError`. The model
  takes the evident intent, clearing the selection, and returns false with
  the selection cleared. `Ai.MoveOutOfRangeDeclines` states its result
  under the same assumption.
- Dice ids are integers `player * 10 + i`. The source keys dice by the
  decimal string of that number (tridice.js:404). The mapping from numbers
  to strings is injective, so no two dice share an id in either form.
- The AI's board height is a parameter `h`; the source defaults it to 4.
- Reading a property of `null` is modelled as the error `NullDereference`.
  This covers `attacker.cell!.id`, `dice.cell!.id` and the missing last move
  in `fixTemporaryFaces`.
- Topology.SetNeighbor: when the mirrored link throws, it returns `Err`
  without the half-linked cells. By then tridice.js:388 has already written
  the first link. The constructor never takes that path
  (`Topology.LinkAllSucceeds`), and nothing else calls `setNeighbor`.
- Ai.MoveThroughPathTooLong: states the throw only for a non-negative move
  count, because a negative count never arises from the engine's calls.
- Pieces.RotateDice and DiceFaces.Rotate: state validity and the pointing
  flip only for valid faces. On invalid faces they compute the same slots
  as the source but promise nothing.
