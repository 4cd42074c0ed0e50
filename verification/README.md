# Sliding-tile puzzle engine

A Dafny model of the game engine of a browser N-puzzle (the 8-, 15- and
24-puzzle on 3x3, 4x4 and 5x5 grids), `website/puzzle-logic.js`. A board is a
row-major `seq<int>` of the tile numbers 0 .. N²-1, where 0 is the blank. The
model covers:

- the solvability test of the generator: inversion counting over the tiles
  with the blank removed (`countInversions`), the blank row counted from the
  bottom (`getEmptyRowFromBottom`) and the 15-puzzle parity rule;
- the generator itself (`initializePuzzle`): the solved array
  `[1 .. N²-1, 0]`, one Fisher–Yates pass per attempt, and the retry loop that
  keeps the first board passing the parity test;
- the move engine (`movePiece`): the Manhattan-distance-one check against the
  cached blank position, the swap, the move counter and the win check;
- the win check (`isSolved`), the scoring rule (`calculateScore`) and the
  `MM:SS` rendering of elapsed time (`formatTime`).

The global `window.gameState` object becomes an explicit `GameState` value
that every operation takes and returns. `Math.random` becomes explicit
draws: an attempt is a sequence `js` with `js[i]` in `0 .. i`, the value of
`Math.floor(Math.random() * (i + 1))` in iteration `i`.

Modules: `Tiles` (boards, swap, indexOf), `InversionCounting`, `Generator`
(shuffle and parity test), `Scoring`, `TimeFormat`, `Game` (state, moves,
win check, game start) and `Arith` (division facts for row/column
arithmetic).

## The shuffle never moves the blank

The shuffle loop runs `i` from N²-2 down to 1 and swaps cell `i` with a cell
`j <= i`, so the last cell, which starts as the blank, is never touched,
although the comment above the loop says the blank is afterwards moved to a
random position. The model follows the code: every generated board has the
blank in the bottom-right cell (`Generator.ShuffleIsBoard`), so the even-grid
branch of the parity rule always sees the blank on row 1 from the bottom and
the rule reduces to "the inversion count is even" for every grid size
(`Generator.BlankLastSolvable`).

## Model

| member | source | states |
|---|---|---|
| `Tiles.Swap` | website/puzzle-logic.js:110 | the destructuring swap exchanges the two cells, leaves every other cell as it was, and keeps the multiset of tiles |
| `Tiles.IndexOf` | website/puzzle-logic.js:114 | `indexOf` returns -1 exactly when the value is absent, and otherwise a position holding it with no earlier occurrence |
| `Tiles.Goal` | website/puzzle-logic.js:104-105 | the starting array holds i + 1 in cell i for every cell but the last, and the blank in the last cell |
| `Tiles.GoalIsBoard` | website/puzzle-logic.js:104-105 | the starting array `[1 .. N²-1, 0]` holds each of 0 .. N²-1 exactly once |
| `Tiles.BlankUnique` | website/puzzle-logic.js:197-200 | on a well-formed board only one cell holds 0, so a clicked cell holds the blank exactly when it is the cached blank position |
| `Tiles.BlankLastIndex` | website/puzzle-logic.js:139 | when the blank is in the last cell of a well-formed board, `indexOf(0)` finds it there |
| `InversionCounting.NonBlank` | website/puzzle-logic.js:69 | the filter drops every 0 and keeps the count of every other tile |
| `InversionCounting.CountInversions` | website/puzzle-logic.js:67-78 | the nested loops return the number of pairs i < j of the blank-free sequence with `flat[i] > flat[j]` |
| `InversionCounting.InversionsBound` | website/puzzle-logic.js:70-76 | k tiles have at most k(k-1)/2 inversions |
| `InversionCounting.InversionsZeroIffSorted` | website/puzzle-logic.js:70-76 | the count is 0 exactly when the tiles are in ascending order (so the solved order gives 0) |
| `InversionCounting.NonBlankSingle` | website/puzzle-logic.js:69 | on one cell the filter drops a blank and keeps a tile |
| `InversionCounting.NonBlankAppend` | website/puzzle-logic.js:69 | filtering a concatenation concatenates the filtered parts, so the tiles keep their board order (with `NonBlankSingle` this fixes the filter exactly) |
| `InversionCounting.NonBlankDropsTrailingBlank` | website/puzzle-logic.js:69 | a blank in the last cell does not change the filtered sequence |
| `Generator.EmptyRowFromBottom` | website/puzzle-logic.js:81-86 | N minus the floored row of the cell; its range is stated by `EmptyRowFromBottomRange` |
| `Generator.EmptyRowFromBottomRange` | website/puzzle-logic.js:81-86 | for a cell of the grid the row from the bottom lies in 1 .. N, and is 1 exactly on the last row |
| `Generator.ShuffleDown` | website/puzzle-logic.js:108-111 | the Fisher–Yates loop only permutes the tiles and never changes a cell above the starting index |
| `Generator.LastCellOnBottomRow` | website/puzzle-logic.js:81-86 | the last cell N²-1 is on row 1 counted from the bottom |
| `Generator.Shuffle` | website/puzzle-logic.js:103-111 | one attempt rearranges the tiles of the starting array and leaves the blank in cell N²-1 |
| `Generator.ShuffleIsBoard` | website/puzzle-logic.js:103-114 | every shuffled board holds each tile once, keeps the blank in the last cell, and `indexOf(0)` reports N²-1 |
| `Generator.SolvabilityRule` | website/puzzle-logic.js:119-135 | odd N: an even count; even N: an odd count when the blank row from the bottom is even, an even count when it is odd (a definition; its consequence is `BlankLastSolvable`) |
| `Generator.Solvable` | website/puzzle-logic.js:114-135 | the rule applied to the inversion count of the filtered board and the row of the blank that indexOf finds (a definition) |
| `Generator.BlankLastSolvable` | website/puzzle-logic.js:116-135 | with the blank in the last cell the parity rule accepts exactly the boards with an even inversion count, for odd and even N |
| `Generator.GoalSolvable` | website/puzzle-logic.js:119-135 | the solved board has no inversion and passes the parity rule |
| `Scoring.Score` | website/puzzle-logic.js:252-255 | the final score is never below the floor of 100 |
| `Scoring.ScoreMonotone` | website/puzzle-logic.js:251-255 | more elapsed time or more moves never raise the score |
| `Scoring.ScorePenalties` | website/puzzle-logic.js:253-254 | above the floor one more move costs exactly 5 points and three more seconds exactly 1 |
| `Scoring.ScoreExamples` | website/puzzle-logic.js:252-255 | N=3, 30 s, 20 moves scores 2890; N=3, 100000 s, 1000 moves is clamped to 100 |
| `TimeFormat.TimeParts` | website/puzzle-logic.js:59-60 | seconds are below 60 and minutes·60 + seconds is the input |
| `TimeFormat.Decimal` | website/puzzle-logic.js:61 | `String(n)` is at least one digit, one digit exactly below 10, at most two below 100, and starts with '0' only for 0 (no leading zero) |
| `TimeFormat.PadStart` | website/puzzle-logic.js:61 | `padStart` keeps the string as its suffix and fills the front up to the width with the pad character |
| `TimeFormat.FormatTime` | website/puzzle-logic.js:58-62 | the rendered time is at least five characters long |
| `TimeFormat.Field` | website/puzzle-logic.js:61 | one field is the number rendered and zero-padded to two places (a definition; `PaddedValue` states its value) |
| `TimeFormat.FormatTimeShape` | website/puzzle-logic.js:58-62 | the result is digits, a colon three places from the end and two digits |
| `TimeFormat.FormatTimeWidth` | website/puzzle-logic.js:58-62 | the result has exactly five characters exactly when the time is under 100 minutes |
| `TimeFormat.PaddedValue` | website/puzzle-logic.js:61 | zero padding does not change the value of a rendered number |
| `TimeFormat.FormatTimeRoundTrip` | website/puzzle-logic.js:58-62 | the field before the colon reads back as the whole minutes ⌊t/60⌋, the two digits after it as the remaining seconds t mod 60 (below 60), so together they give the input |
| `TimeFormat.FormatTimeExample` | website/puzzle-logic.js:58-62 | 75 seconds is rendered `01:15` |
| `Game.Adjacent` | website/puzzle-logic.js:202-208 | Manhattan distance one between row-major coordinates (a definition; `AdjacentIffNeighbours` characterises it) |
| `Game.Accepts` | website/puzzle-logic.js:200-210 | a click changes the game exactly when the cell is not the blank and is adjacent to the cached blank (a definition) |
| `Game.Won` | website/puzzle-logic.js:237-245 | the board equals `[1 .. N²-1, 0]` (a definition; `IsSolved` proves the source's loop computes it) |
| `Game.CalculateScore` | website/puzzle-logic.js:249-258 | the latest score is the scoring rule's value (at least 100) and the player's total grows by exactly that value; board and counters are untouched |
| `Game.MovePiece` | website/puzzle-logic.js:194-231 | a click on the blank or on a cell not next to it changes nothing; an accepted click swaps exactly the clicked and blank cells, moves the blank there, adds one move, on a win records the score and adds it to the player's total leaving name and id unchanged, and keeps a valid game valid |
| `Game.IsSolved` | website/puzzle-logic.js:234-246 | the loop answers true exactly when the board is `[1 .. N²-1, 0]` |
| `Game.NewGame` | website/puzzle-logic.js:91-94 | a new game is valid, has the blank at N²-1, zeroed counters and the same player |
| `Game.TryShuffle` | website/puzzle-logic.js:103-135 | one attempt yields a well-formed board with the blank at N²-1, kept exactly when it passes the parity rule, which here means an even inversion count |
| `Game.InitializePuzzle` | website/puzzle-logic.js:89-140 | the state returned is valid, solvable, reset, and built from the first attempt that passes the test; no state is returned only when every attempt fails |
| `Game.Play` | website/puzzle-logic.js:194-231 | any sequence of clicks keeps a valid game valid, keeps the board size, and raises the move count by at most one per click |
| `Game.AdjacentIffNeighbours` | website/puzzle-logic.js:202-208 | Manhattan distance one in row-major coordinates means: next or previous index in the same row, or one row below or above |
| `Game.RowBoundaryNotAdjacent` | website/puzzle-logic.js:202-208 | the last cell of a row and the first cell of the next row are never adjacent |
| `Game.AcceptedExactlyNeighbours` | website/puzzle-logic.js:197-210 | on a valid game the accepted clicks are exactly the neighbours of the blank, and a click on the blank itself is rejected |
| `Game.WonBlankLast` | website/puzzle-logic.js:244-245 | in a won valid game the cached blank position is the last cell |
| `Game.TranspositionNotWon` | website/puzzle-logic.js:238-243 | exchanging two tiles of the solved board leaves it unsolved |
| `Game.WonExample` | website/puzzle-logic.js:234-246 | `[1..8, 0]` is solved on a 3x3 grid and `[2, 1, 3, .., 8, 0]` is not |
| `Game.WinningMoveExample` | website/puzzle-logic.js:210-229 | sliding the last tile home on a 2x2 board wins, counts the move and adds 1885 points after 30 s and 21 moves |

## Left out

- `renderPuzzleBoard` (lines 143-191): HTML string building for the DOM; its background positions are floating point.
- `startTimer`, `stopTimer`, the pause and resume in `openModal`/`closeModal`: interval callbacks and DOM. The model has no "timer running" flag; the caller advances `timer`.
- Navigation and stubs: `window.location.href` in `movePiece`, `exitGame`, `selectLevelAndStart`; `handleLogin` and `handleRegistration` only log and navigate; the state reset in `exitGame` is not modelled.
- The leaderboard `find` and `sort` in `calculateScore` (lines 261-266): simulated in-memory data in which the demo player does not even appear.
- `Math.random` itself: replaced by explicit draws; uniformity of the shuffle is not stated.
- Game.InitializePuzzle: returns None when the supplied attempts run out, where the source keeps drawing; termination of the retry loop is not modelled.
- TimeFormat.FormatTime: takes a natural number; negative inputs, for which JavaScript's truncating `%` gives a negative seconds field, do not occur because the timer only counts up from 0.
- Game.MovePiece: requires a clicked index inside the board and a state whose board has N² cells and whose cached blank index is inside it, because the source indexes the board without bounds checks.
- Game.IsSolved: requires a board of N² cells with N ≥ 1; the source would read `undefined` past a shorter board.
- Generator.Shuffle: requires N ≥ 1; with N = 0 the source writes to index -1 of an empty array.
- JavaScript numbers are doubles; the model uses unbounded integers, which agree with them for every score, move count and time the game can reach.
- The unused `size` argument of `countInversions` is kept but plays no role.
