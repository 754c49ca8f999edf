# Tri-Tactics core in Dafny

A model of the core of Tri-Tactics, a browser game where three players
(X, O and ▲) take turns marking cells of a 5×5 grid and the first to get
four marks in a row (horizontally, vertically or diagonally) wins. The
model covers three pieces:

- **The win/draw evaluator** (`checkWin`, `GameLogic.dfy`). It scans the
  occupied cells in row-major order. From each one it tries the directions
  horizontal, vertical, down-right and down-left in that order. It reports
  the first run of `WIN_LENGTH` equal marks whose every step stays on the
  grid. With no run, it reports a draw when no cell is empty and an ongoing
  game otherwise. `CheckWin` keeps the source's nested loops, early exits
  and step-by-step line building. It is proved equal to `Evaluate`, which
  is defined by a recursive scan `ScanFrom` over (row, column, direction).
  The lemmas then say what `Evaluate` means: the winner is the mark of the
  first run in scan order, a winner is reported exactly when a run exists,
  lines never wrap past an edge, and draw and ongoing are decided by empty
  cells. The grid size and the run length are parameters.
- **The game session** (`App.dfy`). The class `App.Game` holds the board,
  the turn counter, the match status and the last win result. `Click`
  places the current player's mark and then applies the status/win update
  that the source runs as an effect after each board change: idle becomes
  playing, and a winner or draw finishes the match. `Reset` starts over.
  The invariant `Valid()` says the board keeps its 25 cells, the counter
  equals the number of marks, the stored result is always the evaluation of
  the board, and the match is finished exactly when that result is a win or
  a draw.
- **The board-to-text serialiser of the hint request** (`GeminiService.dfy`).
  Each row is its cells' texts (the symbol, or `.` when empty) separated by
  single spaces, and the rows are joined by line breaks. `SerializeBoard`
  keeps the source's row loop. A decoder `ParseBoard` reads the text back,
  and `ParseBoardText` proves that reading the text gives the board again.
  `GetGeminiHint` models the missing-key guard, with key presence as a
  boolean input.

`Types.dfy` holds the declarations of `types.ts` and `constants.ts`: the
marks and their symbols, the players, `GRID_SIZE = 5`, `WIN_LENGTH = 4`,
the empty initial board, the win result and the match status. The
triangle's symbol in types.ts:4 is the three-character string U+00E2
U+2013 U+00B2 (the UTF-8 bytes of ▲ read as Windows-1252), and the model
keeps that string. The serialiser and its round trip need only what holds
for it too: the symbols are distinct, and none is empty, holds a space or a
line break, or is the dot.

`Reset` always returns to PLAYING, never to IDLE (App.tsx:63).

## Model

| member | source | states |
|---|---|---|
| `Types.Symbol` | types.ts:1-5 | every mark's symbol is a non-empty string without a space or a line break and other than the empty-cell dot |
| `Types.SymbolsDistinct` | types.ts:1-5 | two marks with the same symbol are the same mark |
| `GameLogic.CellIndexInRange` | utils/gameLogic.ts:9 | for an on-grid row and column, the row-major index r*size+c lies on the board |
| `GameLogic.GetCell` | utils/gameLogic.ts:9 | the cell at (r, c) is the board's cell r*size+c, and that index lies on the board |
| `GameLogic.CellOfIndex` | utils/gameLogic.ts:9 | every board index i is reached: it is the cell at row i / size and column i % size, which is on the grid |
| `GameLogic.ScanFrom` | utils/gameLogic.ts:12-56 | a run the scan returns is a real run: on the grid, non-empty, all steps match; it never lies before the scan start |
| `GameLogic.Evaluate` | utils/gameLogic.ts:12-63 | a winner and a line are reported together and never with a draw, and a reported line has exactly `len` indices; its meaning (first run in scan order, else draw iff no empty cell) is proved in `EvaluateWinner` and `EvaluateNoRun` |
| `GameLogic.CheckWin` | utils/gameLogic.ts:4-64 | the loops, the bound checks, the early return and the line building compute exactly `Evaluate` of the board |
| `GameLogic.NoRunFromEmpty` | utils/gameLogic.ts:14-15 | an empty cell starts no run: the scan goes straight on to the next cell |
| `GameLogic.ScanFindsEarliest` | utils/gameLogic.ts:12-52 | every run at or after the scan start is found, and the scan returns no run later than it. So the first run in row, column, direction order wins |
| `GameLogic.EvaluateWinner` | utils/gameLogic.ts:12-56 | a winner is reported iff some run exists. It is then the mark of the run that no other run precedes, the line is that run's cells, and the result is not a draw |
| `GameLogic.EvaluateNoRun` | utils/gameLogic.ts:59-63 | without any run: no winner, no line, and a draw exactly when no cell is empty |
| `GameLogic.RunLine` | utils/gameLogic.ts:30-44 | step k of a run has index start + k*(dr*size+dc), its row and column stay on the grid (no wrap past an edge), its index is on the board, and it holds the start's mark |
| `GameLogic.WinningLineCells` | utils/gameLogic.ts:27-51 | a reported line has exactly `len` indices, each on the board and each holding the winning mark |
| `GameLogic.EmptyBoardOngoing` | utils/gameLogic.ts:12-63 | a board with no marks (and at least one cell) evaluates to no winner, no line, no draw |
| `GameLogic.TopRowWins` | utils/gameLogic.ts:47-52 | X at indices 0..3 of an empty 5×5 board wins with line [0, 1, 2, 3] |
| `GameLogic.WrappedRowIsNoWin` | utils/gameLogic.ts:35-38 | X at indices 3..6, which wrap from row 0 into row 1, is no win: the game is ongoing |
| `App.OccupiedZero` | App.tsx:10-11 | a board has no marks exactly when every cell is empty |
| `App.OccupiedPlace` | App.tsx:37-44 | writing a mark into an empty cell adds exactly one to the number of marks |
| `App.OccupiedBelow` | App.tsx:35 | a board with an empty cell holds fewer marks than cells |
| `App.Game.constructor` | App.tsx:10-13 | a new session has the empty 25-cell board, counter 0, status IDLE and the cleared result, and satisfies the invariant |
| `App.Game.CurrentPlayer` | App.tsx:32 | the current player is the one of the three whose id is the counter mod 3 |
| `App.Game.Accepts` | App.tsx:35 | a click is acted on iff the cell is empty and the match is not finished; in a valid session the board then holds fewer than 25 marks and the stored result is the cleared one |
| `App.Game.Click` | App.tsx:34-58 | keeps the invariant. On an occupied cell or a finished match nothing changes. Otherwise the current player's symbol is written at the index and only there, the counter goes up by one, the result is the new board's evaluation, and the status is FINISHED on a winner or draw, else PLAYING |
| `App.Game.Reset` | App.tsx:60-66 | from any state: the empty 25-cell board, counter 0, status PLAYING, the cleared result, and the invariant |
| `GeminiService.CellText` | services/geminiService.ts:22 | a cell's text is non-empty, holds no space or line break, and is `.` exactly for an empty cell |
| `GeminiService.SplitJoin` | services/geminiService.ts:22-25 | splitting at the separator undoes joining with it when no piece contains it |
| `GeminiService.RowCellAt` | services/geminiService.ts:22 | cell c of row r's slice is the board's cell r*size+c |
| `GeminiService.SerializeBoard` | services/geminiService.ts:20-25 | the row loop and the final join build exactly `BoardText`: the rows' texts joined by line breaks |
| `GeminiService.GetGeminiHint` | services/geminiService.ts:15-25 | without a key the answer is "API Key missing. Cannot fetch hint." and nothing is serialised; with a key the request goes on with the board's text |
| `GeminiService.CellTextRoundTrip` | services/geminiService.ts:22 | each cell's text reads back as that cell: `.` as empty, a symbol as its mark |
| `GeminiService.ParseCellTexts` | services/geminiService.ts:22 | a list of cell texts reads back as those cells |
| `GeminiService.RowTokens` | services/geminiService.ts:22 | a row's text splits at spaces into exactly the texts of the row's GRID_SIZE cells, in index order |
| `GeminiService.BoardLines` | services/geminiService.ts:21-25 | the board's text splits at line breaks into exactly `size` lines, line r being row r's text |
| `GeminiService.ParseRowsFrom` | services/geminiService.ts:21-25 | reading back lines i.. of the text gives the board's cells from row i on |
| `GeminiService.ParseBoardText` | services/geminiService.ts:20-25 | reading back the board's text gives the board: the text lists every cell, row by row, in index order |

## Left out

- Rendering and styling are not modelled. This covers the JSX of App.tsx:84-216, components/Square.tsx, components/RulesModal.tsx and the players' colour fields in constants.ts. None of it is logic beyond display.
- The theme toggle and its change to the page's root element (App.tsx:18-30) are not modelled. They are DOM I/O.
- The hint text state (`aiHint`, `isAiThinking`, `handleAskAI` at App.tsx:68-82) and the clearing of the hint on a move or reset (App.tsx:43, 65) are not modelled. Neither is the client setup, prompt text, model call and error fallback of services/geminiService.ts:8, 27-56. These are asynchronous network I/O through a foreign library.
- The key lookup in the process environment is not modelled: its presence is the boolean `apiKeyPresent`.
- React's state batching and effect scheduling are not modelled. `Click` performs the placement and the post-move status/win update as one step. The effect's re-run after its own status change gives the same evaluation and so changes nothing.
- `App.Game.Click`: requires `index < |board|`, because the code does not check the index (App.tsx:35). Its only caller passes the indices of `board.map` (App.tsx:136-140).
- `GameLogic.CheckWin`: requires a board of exactly size×size cells, as the session always supplies; a shorter array in the source would read missing cells as undefined. It also requires a run length of at least 1, because the source's line always starts with the origin cell.
- `GeminiService.GetGeminiHint`: requires a 25-cell board, which is the only board the session holds.
- The turn counter is an unbounded natural number. In the source it is a JavaScript number, which is exact far beyond the 25 moves a match can have.
