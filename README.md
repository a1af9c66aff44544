# Minesweeper board state machine, in Dafny

This project models the game logic of `minesweeper.py`, a terminal
Minesweeper game. The player moves a cursor over a `HEIGHT × WIDTH` grid. Each
square is Filled (covered), Flagged or Cleared (dug). The player digs with
ENTER, toggles a flag with `f`, and restarts with `r` once the game is won or
lost. The project proves properties of that model.

The model has four modules:

- `Board` (`board.dfy`) holds the values:
  - the cell and game statuses;
  - the grid as a sequence of rows;
  - the nine-square mine count `adjacentMines`;
  - the description of a flood-fill reveal (`FloodFrom`) and the facts that follow from it.
- `Minesweeper` (`minesweeper.dfy`) holds the mutable game:
  - the class `State`, with the fields `game`, `cursor`, `mines` and `cells`;
  - its methods `Refresh`, `Respond`, `Flag`, `Click` and `Uncover`, all changing those fields in place;
  - the key-reading loop `Run`;
  - mine placement, `GenerateMines`.
- `Display` (`display.dfy`) holds the text the game draws:
  - the glyph of a square (`charForCell`);
  - the `' '.join` row and border strings;
  - the header and the instructions;
  - the screen column the cursor is moved to.
- `Scenarios` (`scenarios.dfy`) holds short games played through `Respond`, each with its outcome.

The board size and mine count are `const` fields of `State`. In the code they
are the globals `WIDTH`, `HEIGHT` and `NUM_MINES`. The string tags `Game.*` and
`Cell.*` become the datatypes `Game` and `Cell`. Key codes become the datatype
`Key`.

`Uncover` is a recursive method that clears squares of `cells` one at a time.
Its loop over the nine offsets skips `(0, 0)`, as the list comprehension does.
The proof has three parts:

- **Termination.** The recursion ends because the set of Filled squares shrinks strictly before each recursive call.
- **The contract.** Its `ensures` is the relational description `FloodFrom`:
  - only Filled squares turn Cleared;
  - the start is cleared first;
  - every later cleared square touches an earlier cleared square whose count is zero;
  - no cleared square with count zero is left next to a Filled square.
  - A ghost result lists the squares in the order they were cleared.
- **Lemmas about `FloodFrom`.** They show the reveal never clears a mine. They also show its result does not depend on the visiting order (`FloodDetermined`).

Where the game's design notes and the code disagree, the model follows the code:

- **`r` while playing.** The notes say restart is accepted at any status. In the code `r` only acts while the game is not `PLAY` (lines 95-97), because during play `r` falls through every branch of `respond`. `Respond` states this.
- **The mine count.** The notes describe `adjacentMines` as a count over the 8 neighbours. The code sums over all 9 offsets, `(0, 0)` included (lines 157-161). `AdjacentMines` sums the 9 offsets. `AdjacentMinesOfSafeSquare` proves that for a square without a mine this equals the count over the 8 neighbours, and is at most 8.
- **The win rule.** The code declares a win when no square is Filled. Flagged squares count as not Filled. `WonBoardHasMinesFlagged` proves that at a win every mine is flagged.

## Model

| member | source | states |
|---|---|---|
| Board.FilledGrid | minesweeper.py:27-28 | a fresh grid has `HEIGHT` rows of `WIDTH` squares, every one Filled |
| Board.NoFilled | minesweeper.py:125-127 | the win test is true exactly when no square of the grid is Filled (Flagged squares do not count) |
| Board.AdjacentMines | minesweeper.py:157-161 | the count sums the 9 offsets around a square, (0, 0) included, so it is at most 9 |
| Board.MinesAmongZero | minesweeper.py:157-161 | a sum over offsets is zero exactly when no offset lands on a mine |
| Board.RowSquaresCount | minesweeper.py:150-151 | one board row has exactly `WIDTH` squares |
| Board.SquaresCount | minesweeper.py:150-151 | the board has exactly height·width squares |
| Board.MinesBound | minesweeper.py:146-155 | a set of on-board squares, such as the mines, holds at most height·width squares |
| Board.SubsetSize | minesweeper.py:146-155 | a subset of a set of squares is no larger than the set |
| Board.MinesAmongCounts | minesweeper.py:157-161 | over distinct offsets the sum equals the number of mined squares among the targets |
| Board.AdjacentMinesOfSafeSquare | minesweeper.py:157-161 | for a square without a mine, the 9-offset sum equals the count over the 8 neighbours; that count is at most 8 and, with all mines on the board, equals the number of in-bounds neighbours holding a mine |
| Board.ZeroMeansNoMineAround | minesweeper.py:137-141 | a zero count means none of the nine squares around holds a mine, so every square the reveal recurses into is safe |
| Board.NoMinesNoCount | minesweeper.py:157-161 | without mines every count is zero |
| Board.FilledShrinks | minesweeper.py:133-135 | clearing a square strictly shrinks the set of Filled squares, the measure that makes the recursion end |
| Board.FloodBegin | minesweeper.py:135 | clearing the Filled start begins a reveal; with a nonzero count that single clearing is the whole reveal |
| Board.FloodStep | minesweeper.py:138-141 | the reveal of one neighbour, appended to the reveal in progress, keeps it a valid partial reveal and leaves that neighbour not Filled |
| Board.FloodSkip | minesweeper.py:141 | the offset (0, 0) is skipped without changing anything |
| Board.FloodUncoversStart | minesweeper.py:131-135 | after a reveal its start is not Filled, and a Filled start of the board is Cleared |
| Board.FloodEnd | minesweeper.py:137-141 | once all eight neighbours are handled, the start's block has no Filled square and the reveal is complete |
| Board.FloodNothing | minesweeper.py:131-133 | outside the board or on a square that is not Filled, the reveal changes nothing and clears nothing |
| Board.FloodClearsNoMine | minesweeper.py:137-141 | a reveal started on a square without a mine clears no mine |
| Board.NoMineNextToZero | minesweeper.py:137-141 | a neighbour of a square with count zero holds no mine |
| Board.FloodReachedIn | minesweeper.py:130-141 | every square cleared by one reveal is cleared by any other reveal from the same start on the same board |
| Board.FloodDetermined | minesweeper.py:130-141 | the grid after a reveal is determined by the board and the start, whatever the visiting order |
| Board.ClearSafeSquare | minesweeper.py:135 | clearing a square without a mine keeps the board's shape and keeps every mine covered |
| Board.BlockCovers | minesweeper.py:138-141 | the 3x3 block around a square contains each of its neighbours |
| Board.MineFreeStep | minesweeper.py:137-141 | without mines, every neighbour of a cleared square is cleared too |
| Board.MineFreeReach | minesweeper.py:137-141 | without mines, a reveal clears every square of an all-Filled board, by induction on the distance from the start |
| Board.MineFreeFloodClearsAll | minesweeper.py:130-141 | on an all-Filled board without mines, one reveal from any square leaves every square Cleared |
| Minesweeper.FlagTwiceRestores | minesweeper.py:111-115 | flagging the same square twice gives back the original grid |
| Minesweeper.WonBoardHasMinesFlagged | minesweeper.py:125-128 | on a board with no Filled square left, every mine is Flagged |
| Minesweeper.GenerateMines | minesweeper.py:146-155 | the mines are the set of the random squares drawn until it holds `NUM_MINES` squares: no draw is taken after that size is reached, every mine is on the board, and the set is smaller only if the draws ran out; when `NUM_MINES` exceeds height·width every draw is consumed and the set stays short, which is where the code loops forever |
| Minesweeper.State.constructor | minesweeper.py:20-21 | a new game is a refreshed one |
| Minesweeper.State.Refresh | minesweeper.py:23-28 | status PLAY, cursor (0, 0), the new mine set, every square Filled |
| Minesweeper.State.Respond | minesweeper.py:92-109 | while not PLAY only `r` acts, and it restarts; during PLAY the arrows move the cursor one square and clamp it to the board, changing nothing else; ENTER digs at the cursor; `f` toggles the flag at the cursor; `r`, `q` and other keys change nothing; the state stays valid, so the cursor stays on the board |
| Minesweeper.State.Run | minesweeper.py:33-40 | keys are handled in order until `q` has been handled; the state stays valid and the cursor on the board |
| Minesweeper.State.Flag | minesweeper.py:111-115 | Filled becomes Flagged, Flagged becomes Filled, Cleared stays, no other square, the status, the cursor or the mines change |
| Minesweeper.State.Click | minesweeper.py:117-128 | on a square that is not Filled nothing changes; on a mine the status becomes LOST and no square changes; otherwise the reveal runs and the status becomes WON exactly when no square is left Filled, with every mine then Flagged |
| Minesweeper.State.Uncover | minesweeper.py:130-141 | the recursive reveal ends, does nothing outside the board or on a square that is not Filled, otherwise only turns Filled squares Cleared (start first, each later square next to an earlier zero-count square, no zero-count cleared square next to a Filled one), never clears a mine, and leaves status, cursor and mines unchanged |
| Display.Decimal | minesweeper.py:87 | `str(n)`: a nonempty string of digits without a leading zero, one character exactly when n < 10 |
| Display.DecimalRoundTrip | minesweeper.py:87 | reading back the decimal numeral gives the number |
| Display.CharForCell | minesweeper.py:76-87 | the glyph is one character: `#` exactly for Filled, `!` exactly for Flagged, a space exactly for Cleared with count zero, otherwise a digit whose value is the count |
| Display.ClearedDigit | minesweeper.py:81-87 | on a board where no mine is Cleared, the digit of a Cleared square is between 1 and 8 |
| Display.Spaced | minesweeper.py:64 | `' '.join(s)` has 2·\|s\|−1 characters (none for empty s) |
| Display.SpacedAt | minesweeper.py:64 | character k of s is at position 2k of `' '.join(s)`, followed by a space unless it is the last |
| Display.Framed | minesweeper.py:64 | `' '.join('\|{}\|'.format(m))` is 2·\|m\|+3 characters long |
| Display.FramedAt | minesweeper.py:64 | the frame character is at both ends, and character c of the middle is at column 2c+2 with a space on each side |
| Display.Glyphs | minesweeper.py:63 | the joined glyphs of a row have one character per column |
| Display.GlyphsAt | minesweeper.py:63 | character c of the joined glyphs is the glyph of column c |
| Display.Border | minesweeper.py:60 | the border line is 2·WIDTH+3 characters long |
| Display.BorderAt | minesweeper.py:60 | the border has `+` at both ends and `-` above every column |
| Display.RowTextLayout | minesweeper.py:62-64 | a row line is as long as the border, framed by `\|`, and shows the glyph of column c at column 2c+2 |
| Display.Instructions | minesweeper.py:46-68 | `r - restart` is listed exactly when the game is not PLAY, `ENTER - dig` and `f - flag` exactly when it is, and `q - quit` comes last |
| Display.BoardLines | minesweeper.py:62-64 | one line per board row |
| Display.BoardLinesAt | minesweeper.py:62-64 | line r is the text of board row r |
| Display.Screen | minesweeper.py:56-69 | the screen has HEIGHT+7 lines plus one per instruction |
| Display.ScreenLines | minesweeper.py:56-69 | header on line 0, borders on lines 2 and HEIGHT+3, `Instructions:` on line HEIGHT+5, instruction i on line HEIGHT+7+i |
| Display.ScreenRow | minesweeper.py:62-64 | board row r is on screen line r+3 |
| Display.CursorOnGlyph | minesweeper.py:72-73 | the position the cursor is moved to, (row+3, col·2+2), lies on the screen and shows the glyph of the selected square |
| Scenarios.MineFreeBoardIsWonByOneDig | minesweeper.py:117-128 | on any board without mines, the first ENTER wins and clears every square |
| Scenarios.DigOnMineLoses | minesweeper.py:117-121 | digging the mine of a one-square board loses and leaves the square Filled |
| Scenarios.UpLeftAtCorner | minesweeper.py:98-103 | at (0, 0), Up and then Left leave the cursor at (0, 0) |
| Scenarios.FlagBlocksDig | minesweeper.py:111-119 | a flagged square cannot be dug: `f` then ENTER leaves only the flag and the game in PLAY |
| Scenarios.RestartAfterLoss | minesweeper.py:95-97 | after a loss the arrows do nothing and `r` starts a new game with every square Filled |

## Left out

- Terminal I/O is not modelled: `curses`, `stdscr.getch`, clearing, drawing, moving and refreshing (lines 33-40 and 56-74). The text drawn is modelled as the list of screen lines `Display.Screen`, and the cursor move as the position `Display.CursorPosition`.
- `argparse` and `curses.wrapper` are not modelled (lines 166-185). The width, height and mine count are constructor arguments.
- `State.constructor`, `Refresh`: a positive height and width are required. The code does not check either.
- Key codes are not modelled. `curses.KEY_*`, `10`, `ord('f')`, `ord('r')` and `ord('q')` become the datatype `Key`, and every other code is `Other`.
- Randomness is taken as parameters:
  - `GenerateMines` takes the squares `random.randint` would return as the sequence `draws`;
  - `Respond` takes `nextMines`, the set a restart would generate;
  - `Run` takes one such set per key.
- GenerateMines: does not model running forever. The code keeps drawing while the set is too small, and never stops when `NUM_MINES` exceeds the number of squares. The model stops when its finite `draws` run out and reports a set smaller than `NUM_MINES`.
- `State` requires that the mine set holds exactly `NUM_MINES` squares of the board, which is what `generateMines` returns when it finishes. This excludes the non-terminating case.
- `Flag`, `Click`: require an on-board square. `respond` only passes the cursor, which always lies on the board. An index off the board, which Python would wrap around or reject with `IndexError`, is not modelled.
- Uncover: requires that a Filled start square holds no mine. `click` guarantees this, and so does the recursion, which only starts from squares with count zero. Calling `uncover` directly on a mine is not modelled.
- `Uncover` reassigns the `cells` field as a value instead of writing into a list of lists. Nothing in the code aliases a row, so no behaviour depends on the difference.
- Python's recursion limit is not modelled. The recursive reveal can nest about once per square, and on a large mine-free board the code would stop with a recursion error. The model's recursion is unbounded.
- `Run`: the model stops when its key sequence ends. The code would instead block in `getch`. `Run`'s contract keeps the state valid but does not describe the state after each key; each key's effect is `Respond`'s contract.
- `Display.Header` is the constant header text of lines 46-53 and carries no contract of its own.
