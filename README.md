# Minesweeper board engine in Dafny

This project models the board engine of the browser Minesweeper game in
`static/js/main.js`:

- the `columns` matrix of `Cell` records that `init` builds;
- the clipped 3×3 window that `getSurroundingCells` enumerates;
- bomb placement by rejection sampling in `createBombs`, which adds one to the
  `bombCount` of each cell in a new bomb's window;
- the player actions `click` (the guarded reveal with its recursive cascade),
  `reveal` and `rightClick`;
- the win test `checkIfWin` and the single `gameHasStopped` flag;
- `initGame` and the restart and difficulty handlers, with their three presets.

The project has three modules:

- `Neighbourhood` (`neighbourhood.dfy`) holds coordinates and the window as a
  pure function. Its two nested loops become `Span`, `Row` and `Block`.
- `Mines` (`mines.dfy`) holds the window count and placement as a function of
  the random draws. It also holds the heap-free facts that the cascade and the
  win test rely on.
- `Minesweeper` (`board.dfy`) holds the class `Board`.
  - `columns` is an `array2<Cell>`. `gridSize`, `amountOfBombs` and
    `gameHasStopped` are fields.
  - Three ghost sets mirror the cell marks: `mines`, `revealedSet` and
    `flagged`.
  - `Valid()` ties the matrix to those sets. It says that every `bombCount`
    equals the number of bombs in the cell's window, and that no bomb is
    revealed.

Each method is proved against that invariant and against the functions in
`Mines`. `Click` terminates because every nested click either returns at once
or reveals a cell that was hidden. The model uses the measure "hidden cells of
the board" for this.

The model keeps these traits of the code:

- The window includes the cell itself: 4, 6 or 9 cells. It is not the 8-cell
  neighbourhood.
- `bombCount` is raised incrementally as each bomb lands. It is not computed
  in a second pass. So a bomb's count includes itself (`SelfInclusiveCount`),
  while a free cell's count is its number of neighbouring bombs.
- The code raises no size or mine-count error.
- The code has no Won/Lost status. One stop flag serves both ends: a bomb
  sets it and so does the win test.
- A flagged cell in a cascade whose own count is nonzero is still revealed,
  and its flag stays set.

## Model

| member | source | states |
|---|---|---|
| Neighbourhood.SurroundingCellsSpec | static/js/main.js:121-129 | the window holds exactly the on-board cells within one step of (x, y) in each direction, the centre included. The cells are in row-major order without repetition, and there are (rows × columns) of them. |
| Neighbourhood.WindowSize | static/js/main.js:118-129 | a window has 4 cells at a corner, 6 on another border cell and 9 inside, as the doc comment promises |
| Neighbourhood.SurroundingSymmetric | static/js/main.js:121-129 | a lies in b's window exactly when b lies in a's |
| Neighbourhood.SelfInWindow | static/js/main.js:121-129 | every cell belongs to its own window |
| Neighbourhood.AdjacentIsWindow | static/js/main.js:121-129 | on the board, the clipped window of a cell is its full 3×3 square, in both directions |
| Neighbourhood.NeighboursSpec | static/js/main.js:121-129 | the window without its centre is the 8-neighbourhood: 3, 5 or 8 distinct on-board cells |
| Neighbourhood.GridSize | static/js/main.js:142-148 | the set of on-board coordinates (0 ≤ x, y < n), which the cells of the n × n matrix occupy, has n² members |
| Mines.CountInSet | static/js/main.js:159 | counting over a window without repetitions gives the number of distinct bombs in it |
| Mines.WindowCountSpec | static/js/main.js:157-162 | with every bomb on the board, a cell's count is the number of bombs among the cells `getSurroundingCells` returns for it |
| Mines.SelfInclusiveCount | static/js/main.js:157-162 | a count is the number of bombs among the eight neighbours, plus one when the cell is itself a bomb |
| Mines.EmptyHasNoMineAround | static/js/main.js:92 | a zero count holds exactly when no bomb lies in the window, so a zero-count cell is never a bomb |
| Mines.CountAddMine | static/js/main.js:158-159 | a new bomb at c raises by one exactly the counts of the cells in c's window and leaves every other count alone |
| Mines.PlaceNext | static/js/main.js:152-163 | one turn of the placement loop: a draw on a bomb changes neither the bombs nor the counter, and a draw on a free cell adds that bomb and lowers the counter |
| Mines.PlaceAddsExactly | static/js/main.js:151-165 | placement keeps the earlier bombs and adds exactly k new ones, all of them drawn |
| Mines.FreshSuffices | static/js/main.js:152-154 | the loop ends whenever the draws hold at least k distinct cells that are not bombs yet |
| Mines.CanPlaceNeedsFresh | static/js/main.js:152-154 | the loop can only end if the draws hold k such cells |
| Mines.AllSafeRevealed | static/js/main.js:175-182 | while no bomb is revealed, the revealed count equals gridSize² − bombs exactly when every cell that is not a bomb is revealed |
| Mines.ChainStep | static/js/main.js:92-98 | after each step of a cascade, the cells revealed so far, listed root first, still each lie in the window of a zero-count cell listed before them |
| Mines.SettleStep | static/js/main.js:92-98 | revealing more cells keeps every zero-count cell the cascade revealed surrounded by revealed cells or flagged zero-count cells |
| Mines.RootStep | static/js/main.js:91-98 | the guarantees of the cascade from (x, y) carry over to everything `click` on (x, y) revealed |
| Mines.CascadeDetermined | static/js/main.js:79-101 | the guarantees of `click` fix the set it reveals: two chained orders from the same root that reveal only hidden cells, no flagged zero-count cell, and leave every zero-count cell they reveal settled, list the same cells |
| Minesweeper.GridSizeOf | static/js/main.js:23-27 | the three preset sizes lie between 9 and 24 |
| Minesweeper.BombsOf | static/js/main.js:28-32 | every preset has at least one bomb and leaves at least one free cell |
| Minesweeper.Toggle | static/js/main.js:107 | flipping one flag changes that cell's mark and no other |
| Minesweeper.Board.constructor | static/js/main.js:196-202 | the page starts with the easy preset: a 9 × 9 valid board whose bombs are the ones placement picks from the draws, nothing revealed or flagged, game running |
| Minesweeper.Board.Init | static/js/main.js:137-149 | a fresh n × n matrix in which cell (i, j) has x = i, y = j, no bomb, count 0, and is neither revealed nor flagged |
| Minesweeper.Board.IncrementCounts | static/js/main.js:159 | exactly the cells of the window gain one in `bombCount`; nothing else in the matrix changes |
| Minesweeper.Board.AddBomb | static/js/main.js:157-162 | marking a free cell as a bomb and raising its window's counts keeps every count equal to the bombs in the cell's window |
| Minesweeper.Board.CreateBombs | static/js/main.js:151-165 | the bombs become those that rejection sampling picks from the draws, and the count invariant holds throughout the loop |
| Minesweeper.Board.InitGame | static/js/main.js:196-201 | a running game on a new n × n valid board with exactly k bombs, chosen from the draws, and nothing revealed or flagged |
| Minesweeper.Board.Restart | static/js/main.js:207-220 | the restart button and the difficulty change start a new game with the preset's size and bomb count |
| Minesweeper.Board.Reveal | static/js/main.js:111-116 | the cell becomes revealed and nothing else changes; revealing it again changes nothing |
| Minesweeper.Board.RightClick | static/js/main.js:103-109 | the flag flips exactly when the cell is hidden and the game runs; otherwise nothing changes |
| Minesweeper.Board.CountRevealed | static/js/main.js:176-181 | the counter ends at the number of revealed cells |
| Minesweeper.Board.CheckIfWin | static/js/main.js:175-191 | the game stops when the revealed count reaches gridSize² − amountOfBombs; an earlier stop is kept |
| Minesweeper.Board.ShowRemainingBombs | static/js/main.js:167-173 | exactly the bomb positions are listed, in row-major order, and the board is unchanged |
| Minesweeper.Board.Click | static/js/main.js:79-101 | a revealed or flagged cell or a stopped game changes nothing; a bomb stops the game and reveals nothing; any other cell is revealed, alone when its count is nonzero, and the game stops exactly at the win count; the newly revealed cells form a chained order from (x, y) and leave every zero-count cell among them settled, which fixes them (`CascadeDetermined`); no bomb is ever revealed (the list below spells this out) |
| Minesweeper.Board.Cascade | static/js/main.js:92-98 | every cell of the window ends revealed, or is a flagged zero-count cell; the cells revealed, after (x, y), form a chained order, each in the window of an earlier zero-count cell, and all zero-count cells revealed are settled likewise; no bomb is revealed |
| Minesweeper.Board.Visit | static/js/main.js:94-97 | a zero-count window cell is clicked and any other is revealed, alone; it ends revealed, or else it is a flagged zero-count cell; what it reveals forms a chained order from it |

`Minesweeper.Board.Click` states the following:

- A revealed cell, a flagged cell or a stopped game leaves everything as it
  was.
- A bomb stops the game and reveals nothing.
- Any other cell becomes revealed. The game is then stopped exactly when the
  revealed count reaches gridSize² − amountOfBombs.
- A cell with a nonzero count reveals only itself.
- The newly revealed cells, listed in a ghost order that starts with the
  clicked cell, each lie in the window of a zero-count cell listed earlier
  (`Chained`). So the cascade never crosses a wall of bombs or of flagged
  zero-count cells.
- Every newly revealed zero-count cell has its whole window revealed, except
  flagged zero-count cells.
- No flagged zero-count cell is revealed.
- No bomb is ever revealed (this is part of `Valid`).
- The revealed set only grows.

Together these clauses fix the set of newly revealed cells
(`Mines.CascadeDetermined`): the chained order bounds it from above, and the
settled cells bound it from below.

## Left out

- The page itself is not modelled:
  - the DOM handles, each cell's `div`, the event listeners, `innerHTML` and
    `classList` updates, and `e.preventDefault`;
  - the markup from `colorize` in `static/js/util.js`;
  - audio playback;
  - the interval timer and its messages.
  These are side effects on the page and decide nothing in the game.
- Cells are stored as values in the matrix, not as objects with methods. The
  source never aliases two cells, so methods take the cell's (x, y).
- The random numbers are not modelled. `getRandomInt(gridSize - 1)` in
  `static/js/util.js` is `Math.round(Math.random() * (gridSize - 1))`.
  - It yields a value in 0 .. gridSize − 1, and the two end values are half
    as likely as the others.
  - The model takes the draws as a parameter: a sequence of on-board
    coordinates.
  - Probabilities, and so this non-uniformity, are not modelled.
- Minesweeper.Board.CreateBombs requires that the draws contain enough distinct
  free cells (`CanPlace`, equivalent to `FreshSuffices` plus
  `CanPlaceNeedsFresh`). The source loop runs forever otherwise, for instance
  when the bomb count exceeds the number of cells. Non-termination is not
  modelled.
- Minesweeper.Board.InitGame, Minesweeper.Board.Restart and
  Minesweeper.Board.constructor carry the same draws precondition, for the
  same reason.
- `init` reads the size from its parameter, while `getSurroundingCells`,
  `createBombs` and `checkIfWin` read the global `gridSize`. In the source
  only the difficulty handler updates that global. The model keeps one
  `gridSize` field and `Init` sets it, so the two never disagree.
- The `testing` flag and the key-sequence easter egg are not modelled. They
  only mark bombs on the page and restart the game.
- `showRemainingBombs` draws the bombs on the page. It is modelled as a query
  returning their coordinates.
