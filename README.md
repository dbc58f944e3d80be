# TetrECS board engine in Dafny

TetrECS is a block-placement puzzle game. A 3x3 piece is dropped, centred on a
cell, onto a `cols x rows` grid of integer cells. A full column or row is
cleared, and clearing scores `lines x 10 x blocks x multiplier`. A repeating
game-loop timer takes a life each time it fires without a placement. The
multiplayer variant has these differences:

- pieces come from a queue fed by the server;
- the board, the score, the lives and the death are reported to the server;
- the opponents' `name:score` entries are kept in a list.

A high-score list is ordered by a stable selection sort.

This project models that engine and proves properties of the model:

- `text.dfy` (module `Text`) covers the string plumbing of the board wire format:
  - `Integer.toString`;
  - `Integer.parseInt` in radix 10;
  - `String.split(" ")`;
  - `String.trim`.
- `boards.dfy` (module `Boards`) is the value-level board.
  - A board is a column-major `seq<seq<Int32>>`.
  - It defines the placement, wire-format and line-clearing rules and the lemmas about them.
- `grid.dfy` (module `Grids`) holds the class `Grid`.
  - It keeps the cells in an `array2<Int32>`, updated in place.
  - A ghost `board` is the array's abstract value.
- `game.dfy` (module `Games`) holds the class `Game`, the single-player session.
  - Its state: score, level, lives, multiplier, current and next piece, aim, timer state, and the calls made to the game-loop listener.
- `multiplayer.dfy` (module `Multiplayer`) holds the class `MultiplayerGame`.
  - It owns a `Game`, a piece queue, the opponents' score list and an outbox of the messages sent to the server.
- `scores_list.dfy` (module `Scores`) holds `orderByScore`.

## Model

| member | source | states |
|---|---|---|
| Grids.Grid.constructor | tetrecs/src/main/java/uk/ac/soton/comp1206/game/Grid.java:43-56 | a new `cols x rows` grid has every cell 0 |
| Grids.Grid.Get | tetrecs/src/main/java/uk/ac/soton/comp1206/game/Grid.java:84-92 | the stored value for an on-grid coordinate, -1 for any other, negative ones included (`Boards.At`) |
| Grids.Grid.Set | tetrecs/src/main/java/uk/ac/soton/comp1206/game/Grid.java:74-76 | exactly cell (x, y) takes the value; all other cells keep theirs |
| Boards.Surrounding3x3 | tetrecs/src/main/java/uk/ac/soton/comp1206/game/Grid.java:117-122 | piece cell (i, j) lands on board cell (x-1+j, y+1-i) |
| Boards.Surrounding3x3Covers | tetrecs/src/main/java/uk/ac/soton/comp1206/game/Grid.java:117-122 | the nine coordinates are exactly the cells at most one step from the centre |
| Grids.Grid.CanPlayPiece | tetrecs/src/main/java/uk/ac/soton/comp1206/game/Grid.java:132-154 | changes nothing; true iff every nonzero block lands on an on-grid cell holding 0 (`Fits`) |
| Grids.Grid.PlayPiece | tetrecs/src/main/java/uk/ac/soton/comp1206/game/Grid.java:164-175 | requires every nonzero block to land on the grid; the new board is `Placed(old board)` |
| Boards.PlacedCells | tetrecs/src/main/java/uk/ac/soton/comp1206/game/Grid.java:164-175 | placing sets each nonzero block's cell to the block's value and leaves every other cell unchanged |
| Boards.FitsOnBoard | tetrecs/src/main/java/uk/ac/soton/comp1206/game/Grid.java:132-175 | a piece that fits lies wholly on the board, so `playPiece` after a passing `canPlayPiece` writes only on-grid cells |
| Boards.PlacedPieceBlocksItself | tetrecs/src/main/java/uk/ac/soton/comp1206/game/Grid.java:132-175 | after a successful placement, the same piece (with a block) no longer fits at the same centre |
| Grids.Grid.CheckIfCoordsOnGrid | tetrecs/src/main/java/uk/ac/soton/comp1206/game/Grid.java:185-194 | true iff 0 <= aim.0+x <= rows-1 and 0 <= aim.1+y <= cols-1 (rows and cols swapped as in the source) |
| Grids.AimCheckOnSquareGrid | tetrecs/src/main/java/uk/ac/soton/comp1206/game/Grid.java:185-194 | on a square grid the aim test equals the bounds test of the moved aim |
| Grids.Grid.ResetGrid | tetrecs/src/main/java/uk/ac/soton/comp1206/game/Grid.java:199-205 | on a square grid, every cell is 0 afterwards |
| Grids.Grid.GetGridState | tetrecs/src/main/java/uk/ac/soton/comp1206/game/Grid.java:211-225 | the state string is the cell values, columns outer and rows inner, as decimal tokens joined by single spaces (`Encode(Flatten(board))`) |
| Grids.Grid.CellValues | tetrecs/src/main/java/uk/ac/soton/comp1206/game/Grid.java:212-217 | the collected list is the column-major flattening of the board |
| Grids.Render | tetrecs/src/main/java/uk/ac/soton/comp1206/game/Grid.java:218-221 | the accumulated string is the joined tokens plus one trailing space (empty for no values) |
| Boards.EncodeTrimmed | tetrecs/src/main/java/uk/ac/soton/comp1206/game/Grid.java:218-223 | `trim` removes exactly that trailing space |
| Boards.EncodeTokens | tetrecs/src/main/java/uk/ac/soton/comp1206/game/Grid.java:211-225 | a non-empty state string splits into exactly one token per cell, so `cols*rows` values |
| Boards.FlattenLength | tetrecs/src/main/java/uk/ac/soton/comp1206/game/Grid.java:212-217 | the flattening of a `cols x rows` board has `cols*rows` values |
| Boards.FlattenInjective | tetrecs/src/main/java/uk/ac/soton/comp1206/game/Grid.java:212-217 | boards of equal shape with equal flattenings are equal |
| Grids.Grid.SetGridState | tetrecs/src/main/java/uk/ac/soton/comp1206/game/Grid.java:230-238 | tokens are read into the cells column by column; reading stops at the first missing or unparsable token, the cells before it already written; ok iff all `cols*rows` tokens parsed |
| Grids.Grid.ReadColumns | tetrecs/src/main/java/uk/ac/soton/comp1206/game/Grid.java:233-237 | the outer loop: the cells end up as the tokens read over them up to the first missing or unparsable one, and ok iff every cell got a token |
| Grids.Grid.ReadColumn | tetrecs/src/main/java/uk/ac/soton/comp1206/game/Grid.java:233-236 | the inner loop reads one column or stops the whole read at a bad token |
| Boards.DecodeEncode | tetrecs/src/main/java/uk/ac/soton/comp1206/game/Grid.java:211-238 | reading an encoded list of `n` values over `n` cells accepts every token and yields exactly those values |
| Text.IntToString | tetrecs/src/main/java/uk/ac/soton/comp1206/game/Grid.java:220 | `Integer.toString`: non-empty, a leading `-` exactly for negative values, decimal digits otherwise |
| Text.ParseInt | tetrecs/src/main/java/uk/ac/soton/comp1206/game/Grid.java:235 | `Integer.parseInt`: a result only for a string that ends in a digit, is all digits after its first character, and starts with `-` when the value is negative; a plain digit string within int range always reads as its decimal value |
| Text.ParseIntAccepts | tetrecs/src/main/java/uk/ac/soton/comp1206/game/Grid.java:235 | a string `parseInt` accepts starts with a sign or a digit and is digits after that; its value is the decimal value of the digits, negated after `-` |
| Text.Split | tetrecs/src/main/java/uk/ac/soton/comp1206/game/Grid.java:231 | `split(" ")`: the tokens hold no space; a string without a space is its own token; trailing empty tokens are dropped |
| Text.Trim | tetrecs/src/main/java/uk/ac/soton/comp1206/game/Grid.java:223 | `trim`: the result is no longer, starts and ends with a character above `' '`, and a string already like that is returned as is |
| Text.ParseIntToString | tetrecs/src/main/java/uk/ac/soton/comp1206/game/Grid.java:220 | `parseInt(toString(n)) == n` for every int |
| Text.SplitJoin | tetrecs/src/main/java/uk/ac/soton/comp1206/game/Grid.java:231 | splitting a single-space join of non-empty, space-free tokens gives the tokens back |
| Grids.RewriteOwnState | tetrecs/src/main/java/uk/ac/soton/comp1206/game/Grid.java:211-238 | `setGridState(getGridState())` leaves the grid unchanged |
| Grids.ReloadState | tetrecs/src/main/java/uk/ac/soton/comp1206/game/Grid.java:211-238 | `getGridState()` after `setGridState(s)` returns `s` for a well-formed `s` (one canonical token per cell) |
| Grids.MirrorBoard | tetrecs/src/main/java/uk/ac/soton/comp1206/game/Grid.java:211-238 | one grid's state read into another grid of the same size makes the two boards equal |
| Games.Game.constructor | tetrecs/src/main/java/uk/ac/soton/comp1206/game/Game.java:106-118 | lives 3, score 0, level 0, multiplier 1, empty grid |
| Games.Game.Start | tetrecs/src/main/java/uk/ac/soton/comp1206/game/Game.java:163-183 | deals the two pieces, aim (0, 0), starts the loop at the level's period and signals (false, false) |
| Games.Game.BlockClicked | tetrecs/src/main/java/uk/ac/soton/comp1206/game/Game.java:203-218 | places iff `Fits`; when placed, the board is the cleared placement, and score, multiplier (m+1 when cells are cleared, else 1), pieces, timer, the (false, false) signal, lives and aim are as after `afterPiece`; otherwise nothing changes |
| Games.Game.PlacePieceAtAim | tetrecs/src/main/java/uk/ac/soton/comp1206/game/Game.java:223-233 | the same as `BlockClicked`, at the aim: places iff the piece fits there; when placed, board, score, multiplier, pieces, timer, signal, lives and aim as after `afterPiece`; otherwise nothing changes |
| Games.Game.ChangeCurrentAim | tetrecs/src/main/java/uk/ac/soton/comp1206/game/Game.java:240-254 | the aim moves by (x, y) iff `checkIfCoordsOnGrid` holds, otherwise stays; the aim stays in `[0,rows-1] x [0,cols-1]` (`Valid`) |
| Games.Game.AfterPiece | tetrecs/src/main/java/uk/ac/soton/comp1206/game/Game.java:259-271 | restarts the loop at the old level's period with a (false, false) signal, clears lines (score and multiplier as `clearLines` sets them), the old next piece becomes current and the generated piece next |
| Games.Game.RestartTimeLoop | tetrecs/src/main/java/uk/ac/soton/comp1206/game/Game.java:261-263 | cancel, reschedule at the level's period, signal (false, false) |
| Games.Game.FindFullLines | tetrecs/src/main/java/uk/ac/soton/comp1206/game/Game.java:279-314 | the collected set is every cell on a full column or row; the count is the number of full lines |
| Games.Game.ClearLines | tetrecs/src/main/java/uk/ac/soton/comp1206/game/Game.java:277-335 | with L full lines, C cleared cells and multiplier m: score grows by `L*10*C*m` when C > 0, multiplier becomes m+1 (or 1 when C = 0), level is score/1000, and the board is the old one with the cleared cells emptied |
| Games.Game.ScoreLines | tetrecs/src/main/java/uk/ac/soton/comp1206/game/Game.java:319-329 | the scoring branch of clearLines keeps score >= 0 and level = score/1000 |
| Games.Game.ClearBlocks | tetrecs/src/main/java/uk/ac/soton/comp1206/game/Game.java:318-333 | every collected cell is emptied, in any iteration order, and no other cell changes |
| Games.Game.ClearBlock | tetrecs/src/main/java/uk/ac/soton/comp1206/game/Game.java:368-379 | empties one on-grid cell |
| Games.Game.UpdateScore | tetrecs/src/main/java/uk/ac/soton/comp1206/game/Game.java:342-345 | score grows by lines x 10 x blocks x multiplier |
| Games.Game.ShouldLineBeCleared | tetrecs/src/main/java/uk/ac/soton/comp1206/game/Game.java:352-362 | true iff no cell of the line reads 0 (off-grid cells read -1) |
| Boards.ClearedCellsMembers | tetrecs/src/main/java/uk/ac/soton/comp1206/game/Game.java:279-314 | a cell is cleared iff it is on the board and on a full column or a full row |
| Boards.ClearedBoard | tetrecs/src/main/java/uk/ac/soton/comp1206/game/Game.java:277-335 | after clearing, every cell of a previously full line is 0 and every other cell is unchanged |
| Boards.ClearedHasNoFullLine | tetrecs/src/main/java/uk/ac/soton/comp1206/game/Game.java:277-335 | after clearing no column and no row is full |
| Boards.ClearIsIdempotent | tetrecs/src/main/java/uk/ac/soton/comp1206/game/Game.java:277-335 | a second clear finds no line and no cell and leaves the board unchanged |
| Boards.ClearsCellsIffLines | tetrecs/src/main/java/uk/ac/soton/comp1206/game/Game.java:279-319 | some cell is cleared iff some line is full |
| Games.ClearScorePositive | tetrecs/src/main/java/uk/ac/soton/comp1206/game/Game.java:319-320 | a clear never loses points and earns some iff a line is full |
| Games.SecondClearScoresNothing | tetrecs/src/main/java/uk/ac/soton/comp1206/game/Game.java:277-345 | clearing again right after a clear earns nothing and changes nothing (and `ClearLines` then sets the multiplier to 1) |
| Games.TimerDelay | tetrecs/src/main/java/uk/ac/soton/comp1206/game/Game.java:482-490 | the period is `max(2500, 12000 - 500*level)`: at least 2500, exactly 2500 iff level >= 19, at most 12000 for level >= 0 |
| Games.TimerDelayAtStart | tetrecs/src/main/java/uk/ac/soton/comp1206/game/Game.java:482-490 | 12000 at level 0 |
| Games.TimerDelayNonIncreasing | tetrecs/src/main/java/uk/ac/soton/comp1206/game/Game.java:482-490 | a higher level never gives a longer period |
| Games.Game.GameLoop | tetrecs/src/main/java/uk/ac/soton/comp1206/game/Game.java:495-523 | multiplier 1, the old next piece becomes current; with 0 lives the game stays at 0 lives, the timer is cancelled and not restarted, and the signal is (true, true); otherwise lives - 1, loop restarted, signal (true, false) |
| Games.Game.StartTimeLoop | tetrecs/src/main/java/uk/ac/soton/comp1206/game/Game.java:529-540 | the loop is scheduled at the level's period |
| Games.Game.CancelTimer | tetrecs/src/main/java/uk/ac/soton/comp1206/game/Game.java:545-547 | the loop is cancelled |
| Games.Game.SwapCurrentPiece | tetrecs/src/main/java/uk/ac/soton/comp1206/game/Game.java:453-460 | current and next are exchanged |
| Games.SwapTwice | tetrecs/src/main/java/uk/ac/soton/comp1206/game/Game.java:453-460 | two swaps restore both pieces |
| Multiplayer.MultiplayerGame.constructor | tetrecs/src/main/java/uk/ac/soton/comp1206/game/MultiplayerGame.java:33-39 | a new game with an empty queue, no scores and nothing sent |
| Multiplayer.MultiplayerGame.Start | tetrecs/src/main/java/uk/ac/soton/comp1206/game/MultiplayerGame.java:54-70 | sends ten PIECE requests then `BOARD <state>`, aim (0, 0), loop started |
| Multiplayer.MultiplayerGame.ReportBoard | tetrecs/src/main/java/uk/ac/soton/comp1206/game/MultiplayerGame.java:157 | sends `BOARD ` followed by the grid state |
| Multiplayer.MultiplayerGame.UpdateScores | tetrecs/src/main/java/uk/ac/soton/comp1206/game/MultiplayerGame.java:77-102 | the list becomes `Upserted(old list, entry)`: the last entry with the same name is replaced at its first textual occurrence, or the entry is appended |
| Multiplayer.UpsertedKeepsOneEntryPerName | tetrecs/src/main/java/uk/ac/soton/comp1206/game/MultiplayerGame.java:77-102 | with distinct names: exactly one entry has the name and it is the update; the other entries stay in place; the list grows by one iff the name was absent; the names stay distinct |
| Multiplayer.UpsertedKeepsOthers | tetrecs/src/main/java/uk/ac/soton/comp1206/game/MultiplayerGame.java:77-102 | an entry of another name survives the update |
| Multiplayer.BeforeColon | tetrecs/src/main/java/uk/ac/soton/comp1206/game/MultiplayerGame.java:86 | the name is the colon-free prefix ending at the first colon, or the whole string |
| Multiplayer.LastMatch | tetrecs/src/main/java/uk/ac/soton/comp1206/game/MultiplayerGame.java:85-91 | the last entry with the given name, or none |
| Multiplayer.IndexOf | tetrecs/src/main/java/uk/ac/soton/comp1206/game/MultiplayerGame.java:87 | the first position holding the string |
| Multiplayer.MultiplayerGame.UpdatePiecesQueue | tetrecs/src/main/java/uk/ac/soton/comp1206/game/MultiplayerGame.java:272-285 | appends the piece; when the queue becomes two long, current = queue[0] and next = queue[1], otherwise both are untouched |
| Multiplayer.MultiplayerGame.SendPiecesRequest | tetrecs/src/main/java/uk/ac/soton/comp1206/game/MultiplayerGame.java:252-256 | sends exactly ten PIECE messages |
| Multiplayer.MultiplayerGame.CheckIfNeedToUpdateQueue | tetrecs/src/main/java/uk/ac/soton/comp1206/game/MultiplayerGame.java:262-266 | sends the ten requests iff fewer than five pieces are queued, otherwise nothing |
| Multiplayer.RequestsFor | tetrecs/src/main/java/uk/ac/soton/comp1206/game/MultiplayerGame.java:262-266 | the ten requests exactly when fewer than five are queued, none otherwise |
| Multiplayer.MultiplayerGame.NextFromQueue | tetrecs/src/main/java/uk/ac/soton/comp1206/game/MultiplayerGame.java:166-171 | requires three queued pieces; drops the two heads, current becomes the old next and next the new head, then refills when low |
| Multiplayer.MultiplayerGame.BlockClicked | tetrecs/src/main/java/uk/ac/soton/comp1206/game/MultiplayerGame.java:118-135 | places iff `Fits`; when placed, the board, score, multiplier, queue, pieces, timer, signal and the exact `BOARD`/`SCORE`/`PIECE` messages are those of `afterPiece` on the placed board; otherwise nothing changes |
| Multiplayer.MultiplayerGame.PlacePieceAtAim | tetrecs/src/main/java/uk/ac/soton/comp1206/game/MultiplayerGame.java:138-149 | the same as `BlockClicked`, at the aim: the full `afterPiece` outcome on the placed board when the piece fits there, and no change to the game, the queue or the outbox otherwise |
| Multiplayer.MultiplayerGame.AfterPiece | tetrecs/src/main/java/uk/ac/soton/comp1206/game/MultiplayerGame.java:155-176 | sends `BOARD` with the uncleared board, then `SCORE` when cells are cleared, then the refill requests; the loop restarts with a (false, false) signal; the board is cleared, score and multiplier updated as `clearLines` does, and the queue advanced |
| Multiplayer.MultiplayerGame.ClearAndAdvance | tetrecs/src/main/java/uk/ac/soton/comp1206/game/MultiplayerGame.java:165-171 | the clearing and queue half of afterPiece: cleared board, score, multiplier, `SCORE` report, then the queue advanced and refilled |
| Multiplayer.MultiplayerGame.ClearLines | tetrecs/src/main/java/uk/ac/soton/comp1206/game/MultiplayerGame.java:182-185 | single-player clearing with the overriding `updateScore`: the same increment and multiplier update (m+1, or 1 when nothing is cleared), then `SCORE <new score>` exactly when cells were cleared |
| Multiplayer.ScoreReport | tetrecs/src/main/java/uk/ac/soton/comp1206/game/MultiplayerGame.java:182-185 | no report iff nothing was cleared, otherwise `SCORE <score>` |
| Multiplayer.MultiplayerGame.GameLoop | tetrecs/src/main/java/uk/ac/soton/comp1206/game/MultiplayerGame.java:190-229 | multiplier 1, the queue advances; with 0 lives it sends `DIE` and lives stay 0; otherwise lives - 1 and `LIVES <new lives>` is sent after any refill requests |
| Multiplayer.MultiplayerGame.Die | tetrecs/src/main/java/uk/ac/soton/comp1206/game/MultiplayerGame.java:195-211 | `DIE`, timer cancelled, signal (true, true), queue advanced |
| Multiplayer.MultiplayerGame.LoseLife | tetrecs/src/main/java/uk/ac/soton/comp1206/game/MultiplayerGame.java:213-227 | queue advanced, loop restarted, lives - 1, `LIVES <lives>` |
| Scores.OrderByScore | tetrecs/src/main/java/uk/ac/soton/comp1206/component/ScoresList.java:90-107 | the result has non-increasing scores, is a permutation of the input (same multiset, same length, so an empty list stays empty) and keeps equal-score entries in their input order |
| Scores.Highest | tetrecs/src/main/java/uk/ac/soton/comp1206/component/ScoresList.java:95-100 | the selected pair is the first one holding the highest score (strict `>`) |
| Scores.RemoveFirst | tetrecs/src/main/java/uk/ac/soton/comp1206/component/ScoresList.java:102 | `remove(o)` drops exactly one entry (the first one equal to o), so the list shrinks by one |
| Scores.RemoveFirstAt | tetrecs/src/main/java/uk/ac/soton/comp1206/component/ScoresList.java:102 | `remove(o)` of the first maximal pair removes that same occurrence |
| Scores.SelectStep | tetrecs/src/main/java/uk/ac/soton/comp1206/component/ScoresList.java:94-103 | moving the selected pair keeps each score's entries in their order across output and remainder |
| Scores.SelectKeepsOrder | tetrecs/src/main/java/uk/ac/soton/comp1206/component/ScoresList.java:94-103 | the output stays sorted and ahead of every remaining pair |
| Scores.OrderedUnique | tetrecs/src/main/java/uk/ac/soton/comp1206/component/ScoresList.java:90-107 | two score-ordered lists with the same entries per score, in the same order, are equal, so the stable order is unique |
| Scores.OrderTwice | tetrecs/src/main/java/uk/ac/soton/comp1206/component/ScoresList.java:90-107 | ordering an already ordered list returns it unchanged (idempotence) |

## Left out

- Rendering and I/O are not modelled: JavaFX scenes, `GameBlock`/`GameBoard`/`PieceBoard` painting, audio (`Multimedia`), logging and score-file reading.
- Listener callbacks are not modelled as calls.
  - Only the game-loop listener's arguments are recorded, in `Game.loopSignals`.
  - The next-piece, aim-changed and line-cleared notifications are not recorded.
  - `communicator.clearListeners()` in the multiplayer death branch is not modelled.
- `java.util.Timer` threads are not modelled. The timer is the state `Unscheduled`, `Scheduled(period)` or `Cancelled`, and a tick is an explicit `GameLoop` call. There is no concurrency between a tick and a placement.
- Random piece generation is not modelled. The generated piece is a parameter of `Start`, `BlockClicked`, `AfterPiece` and `GameLoop`.
- `GamePiece` is not part of this model.
  - A piece is its 3x3 block matrix.
  - `createPiece`, the fifteen templates and `rotateCurrentPieceLeft/Right` are left out.
- `updatePiecesQueue` takes the piece itself. The `PIECE n` message text is not parsed.
- Before start, the current and next pieces are `None`, where the source has null. The aim starts at (0, 0), where the source has null until `initialiseGame`.
- `MultiplayerGame` extends `Game` in the source. Here it owns a `Game` and reaches its fields directly.
  - The overriding `updateScore` is modelled by `MultiplayerGame.ClearLines`. This is `Game.ClearLines` followed by the `SCORE` message whenever cells were cleared.
  - `updateScore` is called exactly then, so the message has the same content and position.
- `clearLines` collects `"[x, y]"` strings in a `HashSet` and parses them back in `clearBlocks`. Here they are coordinate pairs in a set. `ClearBlocks` empties them in an arbitrary order, which stands for the hash set's iteration order.
- Several methods are split into helper methods that are phases of one source method:
  - `CellValues` and `Render` (getGridState);
  - `ReadColumns` and `ReadColumn` (setGridState's outer and inner loops);
  - `FindFullLines`, `ScoreLines` and `ClearBlocks` (clearLines);
  - `NextFromQueue`, `ClearAndAdvance`, `Die`, `LoseLife` and `ReportBoard` (multiplayer afterPiece and gameLoop).
- Games.Game.ClearLines requires a square grid.
  - The source sizes each line array with one dimension and fills it with the other.
  - It therefore scans correctly only when `rows == cols`; the game always uses 5x5.
  - `BlockClicked`, `PlacePieceAtAim` and `AfterPiece` inherit the requirement.
- Grids.Grid.ResetGrid requires a square (or empty) grid, because its loops bound the first index by the row count.
- Games.Game.UpdateScore: score, level, lives and the multiplier are unbounded integers. The 32-bit overflow of the score property is not modelled.
  - Cells and parsed values are 32-bit (`Int32`), as `Integer.parseInt` demands.
- Grids.Grid.Set and Grids.Grid.PlayPiece require their cells to be on the grid. The source's `ArrayIndexOutOfBoundsException` for an off-grid cell is not modelled; `CanPlayPiece` guarantees the requirement before every placement.
- Games.Game.BlockClicked and Games.Game.PlacePieceAtAim require a current piece (`current.Some?`). A click before `start`, where the source throws a `NullPointerException`, is not modelled.
- Games.Game.ScoreLines computes the level as `score / 1000`. This equals the source's `Math.floor((double) score / 1000)` because the score is never negative.
- Text.ParseInt accepts only ASCII digits. `Integer.parseInt` also accepts other Unicode decimal digits.
- Grids.Grid.SetGridState models a missing or unparsable token (`NoSuchElementException` / `NumberFormatException`) as an early stop with `ok == false`. The cells written before it keep their new values.
- Multiplayer.MultiplayerGame.UpdateScores requires every entry and the update to have a name, when the list is non-empty. `split(":")[0]` throws on a non-empty string made only of colons.
- Multiplayer.MultiplayerGame.NextFromQueue, AfterPiece, ClearAndAdvance, BlockClicked, PlacePieceAtAim, GameLoop, Die and LoseLife require three queued pieces when they advance the queue. The source would throw on a shorter queue.
- Scores.OrderByScore is modelled on values: it returns a new sequence.
  - The source empties the argument list and refills it in place, then returns that same list.
  - Aliasing of the argument is not captured.
