# Gomoku rules engine and game records, in Dafny

This project models the logic of a browser Gomoku game written in React and
TypeScript. Two players take turns placing Black and White stones on a square
board. A placement that makes five or more in a row wins. A board filled with
no winner is a draw. A finished game can be saved to a list of records. A
saved game can be opened again, and its board is redrawn with move numbers.

Modules, following the source files:

- `Stones` (`stones.dfy`): the `StoneColor` values, boards as immutable
  `seq<seq<Stone>>`, placing a stone, and the `isDraw` full-board scan as a
  loop method.
- `Lines` (`lines.dfy`): `checkWin`. It has a run-length specification
  (`Run`, `AxisCount`, `WinsAt`) and a while-loop method (`CheckWin`) proved
  against it. There is also a geometric reading: the placed cell lies on five
  consecutive cells of its colour. One lemma proves that checking only the
  placed cell is enough.
- `Records` (`records.dfy`): moves and records (`IGameDetails`), the stored
  `games` collection with a missing entry read as empty, `saveGameDetails`, and
  the lookups the log page does.
- `Session` (`session.dfy`): the live page `src/pages/Game/index.tsx`. It
  covers the initial state, the click handler, `resetGame` and `saveGame`. The
  invariant `Consistent` describes a game played by clicks with no reset, and
  every click keeps it.
- `Classic` (`classic.dfy`): the earlier page `src/pages/Game.tsx`, fixed at
  15×15 with a boolean `checkWin`. It is proved to agree with `Session` at
  size 15.
- `Replay` (`replay.dfy`): the log page `src/pages/GameLog/index.tsx`. It
  covers lookup by game number, the drawn stone and move number of each cell,
  and the result line. Replaying a saved game gives back the live board.

`Stone.Empty` is the enum value `StoneColor.None` (0). `Option.None` is
JavaScript's `null`. They must stay apart: `checkWin` can return
`StoneColor.None`, which is falsy but not `null`.

Behaviour of the code that a reader may not expect:

- Sizes are not validated. Any positive stored size is used as it is, and a
  missing size, 0 or a value that is not a number gives 15.
- An off-board column is a click that is ignored. An off-board row throws.
  Neither is an error result.
- A record is built when the player leaves, not when the game ends. It is built
  only if `checkWin` or `isDraw` still holds at that moment.
- Record numbers are timestamps and may repeat. The log page shows the first
  record with the requested number.
- The log page always replays every move. There is no replay up to a chosen
  move.
- An unreadable stored collection is not recovered from.

## Model

| member | source | states |
|---|---|---|
| Stones.Place | src/pages/Game/index.tsx:84-88 | the placed cell holds the mover's colour, every other cell is unchanged, and the board stays n×n |
| Stones.IsDraw | src/pages/Game/index.tsx:160-169 | the row-by-row scan returns true exactly when no cell of the board is empty |
| Lines.RunIsMaximal | src/pages/Game/index.tsx:125-150 | each while loop counts a maximal run: every counted cell is on the board and equals the placed stone, and the next cell along the axis is off the board or different |
| Lines.RunAtLeast | src/pages/Game/index.tsx:125-135 | a run of m matching cells is counted in full |
| Lines.AxisCountBounds | src/pages/Game/index.tsx:120-150 | each axis count lies between 1 and the board size |
| Lines.CheckWin | src/pages/Game/index.tsx:112-158 | the loops return the colour of the placed cell exactly when one of the four axis counts (1 plus forward run plus backward run) reaches 5, and null otherwise |
| Lines.WinsAtIffOnFive | src/pages/Game/index.tsx:112-158 | an axis count reaches 5 exactly when the cell lies on five consecutive in-bounds cells of its own colour along one of the four axes |
| Lines.PlacedCellSuffices | src/pages/Game.tsx:62-75 | if no line of five stood on the board before a stone goes on an empty cell, a line of five exists afterwards exactly when the check at the placed cell succeeds |
| Records.FirstMoveAt | src/pages/GameLog/index.tsx:36-53 | returns the index of the first move on the cell, and nothing exactly when no move is there |
| Records.FirstMoveAtAppend | src/pages/Game/index.tsx:91 | appending a move changes the first-move answer only for a cell that had no move, and only for the new move's own cell |
| Records.SaveGameDetails | src/pages/Game/index.tsx:212-229 | the saved collection is one longer, keeps every earlier record in place, and ends with the new record; a missing collection counts as empty |
| Records.FindIn | src/pages/GameLog/index.tsx:15 | returns the first record with the number, and nothing exactly when no record has it |
| Records.Find | src/pages/GameLog/index.tsx:14-15 | the same lookup on the stored collection; a missing collection finds nothing |
| Records.FindAfterSave | src/pages/Game/index.tsx:222-228 | after an append, a lookup that already succeeded returns the same record; a number not used before finds the new record |
| Session.Init | src/pages/Game/index.tsx:30-34 | an n×n all-empty board, Black to move, both flags false, no moves |
| Session.Start | src/pages/Game/index.tsx:28-34 | the size is the stored number, or 15 when it is missing, 0 or not a number; otherwise the page is the initial state |
| Session.Click | src/pages/Game/index.tsx:71-110 | a click after the game is over, on an occupied cell or off the board changes nothing; otherwise exactly the target cell becomes the mover's colour and the move is appended, also on the final move; a win is checked before a draw; a win or draw ends the game and keeps the turn; any other move passes the turn |
| Session.Reset | src/pages/Game/index.tsx:203-210 | an all-empty board, Black to move, the game on again; the size, the moves and the finished flag are unchanged |
| Session.SaveGame | src/pages/Game/index.tsx:231-247 | an unfinished game saves nothing and goes home; a save appends exactly one record with the page's size, number, date and moves, whose result is Black, White or Draw; going home never changes the store |
| Session.InitConsistent | src/pages/Game/index.tsx:28-34 | the initial page satisfies the single-game invariant |
| Session.ClickPreservesConsistent | src/pages/Game/index.tsx:84-108 | every click keeps the single-game invariant: moves on distinct board cells, alternating from Black, exactly what the board shows; no line of five while the game is on; a finished game's last move won or filled the board |
| Session.OccupiedCountsMoves | src/pages/Game/index.tsx:84-91 | during one game the number of stones on the board equals the number of moves |
| Session.SavedResultIsOutcome | src/pages/Game/index.tsx:231-240 | leaving a finished game with no reset since appends one record with all the moves; its result names the last mover when that move made five, and otherwise is Draw on a full board |
| Session.EmptyBoardWins | src/pages/Game/index.tsx:120-153 | on an empty board of size at least 5, the check returns None (0) at every cell, because the whole row is a run of None |
| Session.ResetThenLeaveSavesWhite | src/pages/Game/index.tsx:231-236 | Reset then Leave on a finished game of size at least 5 saves a record whose result is White, whatever the outcome was |
| Session.ResetMislabelsBlackWin | src/pages/Game/index.tsx:203-236 | a game Black won is saved as Black, but as White if the board was reset before leaving |
| Session.Restart | src/pages/Game/index.tsx:203-210 | the corrected reset is exactly the initial state of the page |
| Session.RestartKeepsRecordsFaithful | src/pages/Game/index.tsx:203-210 | after the corrected reset the single-game invariant holds again, and leaving at once saves nothing |
| Classic.Init | src/pages/Game.tsx:11-13 | a 15×15 all-empty board, Black to move, game on |
| Classic.CheckWin | src/pages/Game.tsx:88-128 | true exactly when some axis count reaches 5; this is the same as the parametrised check at size 15 returning a colour |
| Classic.Click | src/pages/Game.tsx:50-86 | the board stays 15×15; an ignored click changes nothing; otherwise exactly the target cell becomes the mover's colour; a win comes before a draw, and only a move that neither wins nor draws passes the turn |
| Classic.Reset | src/pages/Game.tsx:174-181 | an empty 15×15 board, Black to move, game on |
| Classic.InitAgrees | src/pages/Game.tsx:11-13 | the fixed page starts as the newer page does at size 15 |
| Classic.ClickAgrees | src/pages/Game.tsx:62-84 | at size 15 both click handlers give the same board, turn, flag and shown outcome |
| Replay.CellAt | src/pages/GameLog/index.tsx:36-53 | a cell shows a stone exactly when some move is on it; its colour is Black exactly when the first such move is Black's, and White otherwise; its number is the 1-based index of that first move, between 1 and the move count |
| Replay.Grid | src/pages/GameLog/index.tsx:29-36 | the replayed board has the record's size and derives each cell from the moves |
| Replay.Status | src/pages/GameLog/index.tsx:83 | the text is "Game is a draw" exactly when the result is Draw, and "Winner: " followed by the result otherwise |
| Replay.Show | src/pages/GameLog/index.tsx:74-83 | not found exactly when no record has the number, so always when the collection is missing; otherwise the first such record's result line and board |
| Replay.LabelsDistinct | src/pages/GameLog/index.tsx:53 | two different cells never show the same move number |
| Replay.OffBoardMoveHidden | src/pages/GameLog/index.tsx:29-30 | a move outside the board never has its number shown |
| Replay.ReplayShowsBoard | src/pages/GameLog/index.tsx:36-46 | replaying the moves of one game gives the live board: a stone exactly where the board has one, in the same colour, numbered with a move on that cell |
| Replay.SavedGameReplays | src/pages/GameLog/index.tsx:14-46 | after leaving a finished game, opening its log finds it (when no earlier record has its number) and shows the final board |

## Left out

- Drawing on the canvas and updating DOM text: `drawBoard`, the drawing calls of `drawGameDetails`, `updateTurnStatus`, `updateWinStatus`, `updateDrawStatus` and `updateClearStatus`, and the `console.log` of the finished flag in `leaveGame`. These are presentation only. `Session.Outcome` records which status message a click shows.
- Turning a mouse position into a cell. It uses floating-point division. A click is given as integer row and column.
- `localStorage` and JSON text. The stored collection is an `Option<seq<Record>>`, and a missing entry is `None`. An unreadable collection would throw in the code, so it is not modelled.
- Timestamps and `toLocaleString`. The game number and date are parameters.
- Parsing the route parameter of the log page. The requested number is an integer. A non-numeric parameter never matches, which is the same as a number no record has.
- Session.Init: requires a size of at least 1. Only a hand-edited stored size can be negative or fractional; such a board either cannot be played or throws while being built.
- Session.Start: requires the chosen size to be at least 1, as Session.Init does. The home page only ever stores sizes from 5 to 11.
- Session.SaveGame: requires a finished game to have a last move on the board. The code would throw without one, and every click-built state has one.
- Session.SavedResultIsOutcome: stated only for a game with no reset since it finished. After a reset the saved result can be wrong; see Findings.
- Classic.ClickAgrees: stated only when the colour to move is not None. No reachable state has None to move.
- React state batching, stale closures and the navigation targets beyond the two destinations. The home page, the history list, the routes and the navigation bar are not part of this model.

## Findings

| source | as written | input that shows it | evidently intended | confidence | as-written member | corrected member |
|---|---|---|---|---|---|---|
| src/pages/Game/index.tsx:203-236 | `resetGame` clears the board but keeps `moves` and `gameFinished`. Leave then re-runs `checkWin` on the cleared board and gets None (0). That is not `null`, so the game is saved as a White win. | size 5: Black (0,0), White (1,0), Black (0,1), White (1,1), Black (0,2), White (1,2), Black (0,3), White (1,3), Black (0,4) wins; then Reset Game; then Leave | reset starts a new game: moves and the finished flag are cleared too, so nothing from the abandoned game is saved under a wrong result | high, not executed | Session.ResetMislabelsBlackWin | Session.Restart (property: Session.RestartKeepsRecordsFaithful) |
