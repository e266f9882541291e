# Tic-tac-toe game logic in Dafny

A model of the game logic of a 3×3 tic-tac-toe app written in TypeScript with React.

The model covers three parts of the repository:

- `options.dfy` defines `Option`, which stands for the source's `null` results.
- `rules.dfy` is module `Rules`, the rules engine (`src/game/rules.ts`):
  - boards of `X`, `O` and empty cells;
  - the table of eight winning lines;
  - winner detection and the winning-line lookup;
  - the fullness check and the ascending list of empty cells;
  - whose turn it is, derived from the mark counts;
  - copy-on-write move application.
- `ai.dfy` is module `Ai`, the computer's move selector (`src/game/ai.ts`), with three levels:
  - easy plays a random empty cell;
  - medium plays win, else block, else the centre, else a random empty corner, else the lowest empty cell;
  - hard runs minimax with alpha-beta pruning. Terminal scores are flat: +10, −10 or 0.
- `legacy.dfy` is module `Legacy`, the earlier copy of the same logic inside the UI component (`src/TicTacToe.tsx`, lines 6–115). Its `WIN_LINES` (lines 6–15) and `getEmptyIndices` (lines 29–33) are the same as the rules engine's, so `Rules.WinLines` and `Rules.GetEmptyIndices` model them too.

Each part keeps the form of its source:

- `calculateWinner`, `findWinningLine`, `isFull` and `chooseMoveEasy` are functions.
- `getEmptyIndices` and `currentTurn` are methods with loops.
- `withMove` and `makeMove` are methods that copy the board into an array and write one cell.
- `chooseMoveMedium` and `heuristicMove` are methods whose scans return early.
- Both `minimax` functions are recursive methods. Their loops update `bestScore`, `bestMove`, `alpha` and `beta`, and leave with `break` once `beta <= alpha`.

Each method is proved against a specification function:

- `GetEmptyIndices` against `EmptyIndices`.
- `CurrentTurn` against `Turn`.
- `WithMove` against `Place`.
- `ChooseMoveMedium` and `HeuristicMove` against `MediumChoice`.
- Both alpha-beta searches against `FullMinimax`, an exhaustive minimax without pruning.

The alpha-beta result is fail-soft against the exhaustive value for any window. For the root window (−∞, +∞) it equals the exhaustive search exactly, move included. The properties are then proved about the specification functions.

## Model

| member | source | states |
|---|---|---|
| Rules.Other | src/game/ai.ts:38 | the opponent's mark differs from the mark given |
| Rules.WinnerFromFinds | src/game/rules.ts:25-28 | the scan of `calculateWinner` from table entry `k` (Rules.WinnerFrom) finds nothing iff no line from `k` on is complete; otherwise it returns a mark whose line is the first complete one from `k` |
| Rules.WinnerCharacterised | src/game/rules.ts:24-30 | `calculateWinner` (Rules.CalculateWinner) is null iff no winning line is complete; it is `m` iff the first complete line in table order holds `m` in all three cells |
| Rules.ScansAgree | src/game/rules.ts:33-40 | the line scan from entry `k` finds a line iff the winner scan from `k` finds a mark; the line is a table entry from `k` on, uniformly that mark |
| Rules.LineFrom | src/game/rules.ts:34-39 | the scan of `findWinningLine` from entry `k` returns only a table entry from `k` on whose three cells hold one mark |
| Rules.FindWinningLine | src/game/rules.ts:33-40 | any line returned is a `WIN_LINES` entry whose three cells hold one mark |
| Rules.WinningLineAgrees | src/game/rules.ts:33-40 | `findWinningLine` is null iff `calculateWinner` is null; otherwise it is a `WIN_LINES` entry whose three cells hold the winner |
| Rules.IsFull | src/game/rules.ts:43-45 | `isFull` holds iff the list of empty indices is empty |
| Rules.NoEmptyCell | src/game/rules.ts:43-52 | no cell is null iff `getEmptyIndices` returns an empty list |
| Rules.FullIffNoEmpties | src/game/rules.ts:43-45 | `isFull` holds iff the list of empty indices is empty, iff no index holds an empty cell |
| Rules.EmptiesBelowExactly | src/game/rules.ts:48-52 | the empty indices below `n` are exactly the indices below `n` holding null, in strictly ascending order |
| Rules.EmptiesExactly | src/game/rules.ts:48-52 | `getEmptyIndices` lists exactly the indices of empty cells (each inside the board), strictly ascending |
| Rules.GetEmptyIndices | src/game/rules.ts:48-52 | the push loop returns the specified list: exactly the empty indices, strictly ascending |
| Rules.Turn | src/game/rules.ts:55-62 | on a legal position (as many X as O, or one more X), O is to move exactly when X has one mark more |
| Rules.CurrentTurn | src/game/rules.ts:55-62 | the counting loop returns X iff the counts of X and O are equal, and O otherwise |
| Rules.Place | src/game/rules.ts:65-70 | the board after the move has the same length and cell `idx` is not empty; the board differs from the old one only when `idx` was an empty cell |
| Rules.WithMove | src/game/rules.ts:65-70 | an occupied or out-of-range index gives back the board unchanged; an empty one gives a board of the same length with the mark at `idx` and every other cell unchanged |
| Rules.EmptiesBelowAfterPlace | src/game/rules.ts:48-52 | a move on an empty cell leaves one empty index fewer below `n` when the cell is below `n`, and as many otherwise |
| Rules.EmptiesShrink | src/game/rules.ts:65-70 | a move on an empty cell leaves exactly one empty cell fewer |
| Rules.CountBelowAfterPlace | src/game/rules.ts:55-62 | a move with `m` on an empty cell adds one `m` below `n` when the cell is below `n`, and changes no other count |
| Rules.CountAfterPlace | src/game/rules.ts:55-70 | a move with `m` on an empty cell adds one `m` and leaves the other mark's count alone |
| Rules.TurnAlternates | src/game/rules.ts:55-70 | on a legal position (as many X as O, or one more X), playing the side to move on an empty cell hands the turn to the other side and keeps the position legal |
| Rules.CountBelowOfEmptyBoard | src/game/rules.ts:21 | the empty board holds no mark |
| Rules.EmptyBoardOpens | src/game/rules.ts:21 | a new game has no winner, is not full, has exactly the cells 0..8 empty, and X to move |
| Rules.TwoMoves | src/game/rules.ts:65-70 | two moves on distinct empty cells set exactly those two cells and leave the rest alone |
| Ai.Pick | src/game/ai.ts:33 | `Math.floor(Math.random() * n)` is an index below `n` when `n > 0` |
| Ai.PickReaches | src/game/ai.ts:33 | every index below `n` is drawn by some value of `Math.random()` |
| Ai.ChooseMoveEasy | src/game/ai.ts:30-34 | easy returns null iff the board is full; otherwise it returns an empty cell |
| Ai.EasyReachesEveryEmpty | src/game/ai.ts:30-34 | every empty cell is the easy move for some value of `Math.random()` |
| Ai.WinsAt | src/game/ai.ts:42-43 | when `m` has not already won, playing `m` at `i` can win only if `i` is an empty cell, since `withMove` returns an occupied board unchanged |
| Ai.FirstWinning | src/game/ai.ts:42-43 | the early-return scan finds nothing iff no listed cell wins for `m`; otherwise it finds a listed winning cell, and with an ascending list the lowest one |
| Ai.EmptyAmong | src/game/ai.ts:47 | the corner filter keeps exactly the empty corners; it is empty iff no corner is empty |
| Ai.MediumChoice | src/game/ai.ts:37-51 | medium returns null iff the board is full; otherwise it returns an empty cell |
| Ai.ScanForWin | src/game/ai.ts:42-43 | the early-return loop returns the first listed cell where `m` wins, or null |
| Ai.ChooseMoveMedium | src/game/ai.ts:37-51 | the method with early returns chooses what the medium specification chooses |
| Ai.MediumTakesWin | src/game/ai.ts:42 | if the AI can win at once, medium plays the lowest winning cell |
| Ai.MediumBlocks | src/game/ai.ts:43 | unable to win, medium blocks the opponent's immediate win, at the lowest such cell |
| Ai.NothingToWin | src/game/ai.ts:42-43 | with no winning cell for `m`, the scan for `m` finds nothing |
| Ai.MediumTakesCentre | src/game/ai.ts:45 | with nothing to win or block, medium plays the centre if it is empty |
| Ai.MediumTakesCorner | src/game/ai.ts:47-48 | with nothing to win or block and the centre taken, medium plays an empty corner; each empty corner is chosen for some value of `Math.random()` |
| Ai.MediumTakesLowestEmpty | src/game/ai.ts:50 | with nothing to win or block and centre and corners taken, medium plays the lowest empty cell |
| Ai.Fold | src/game/ai.ts:77-89 | the search loop without pruning only ever keeps a move from the list it walks |
| Ai.FullMinimax | src/game/ai.ts:61-93 | the exhaustive search scores +10, −10 or 0; its move is null iff the board is won or full; otherwise the move is an empty cell |
| Ai.ChildValues | src/game/ai.ts:72-75 | there is one child value per listed move, each +10, −10 or 0 |
| Ai.ChildValuesAt | src/game/ai.ts:72-75 | entry `p` of the child values is the exhaustive value after playing the `p`-th listed cell |
| Ai.ChildValue | src/game/ai.ts:73-75 | the value of a child position is +10, −10 or 0 |
| Ai.FoldOutcome | src/game/ai.ts:77-89 | over child values in {−10, 0, 10}, the loop keeps a move from the first child on, and its score stays in {−10, 0, 10} |
| Ai.InPlayValue | src/game/ai.ts:65-93 | on a board still in play, the exhaustive search is the loop over every empty cell |
| Ai.Minimax | src/game/ai.ts:54-94 | a won board scores 10 or −10 with no move; a drawn full board scores 0 with no move; otherwise the move is an empty cell; the score is fail-soft against the exhaustive value, and equal to it, move included, for the root window |
| Ai.SearchMoves | src/game/ai.ts:68-93 | the loop with its `beta <= alpha` break returns a listed move; its result is fail-soft against the loop without pruning, and equal to it for a wide window |
| Ai.SearchChild | src/game/ai.ts:73-75 | the recursive call on the child board is fail-soft against the child's exhaustive value, and exact for a wide window |
| Ai.LoopStep | src/game/ai.ts:77-89 | one turn of the loop keeps the window shape and the fail-soft relation; with a wide window it also keeps exact agreement, and a wide window is never cut |
| Ai.Cutoff | src/game/ai.ts:90 | after the break, the fail-soft relation to the part of the loop that ran carries over to the whole loop |
| Ai.WindowStep | src/game/ai.ts:77-89 | a child score that is fail-soft for the current window keeps `bestScore` fail-soft for the original window |
| Ai.WideStep | src/game/ai.ts:77-89 | with a window wider than every score, the child replaces `bestScore` exactly when its exact value would, and with the same value |
| Ai.FoldPrefix | src/game/ai.ts:77-89 | the maximiser's best value only grows along the loop and the minimiser's only shrinks |
| Ai.FoldIsFirstBest | src/game/ai.ts:77-89 | the loop ends on a listed move whose value no child beats, and no earlier child reaches it |
| Ai.FoldPicksFirstBest | src/game/ai.ts:77-89 | over ascending cells, the kept move is the lowest cell holding the best value |
| Ai.EmptyCellValue | src/game/ai.ts:65-75 | every empty cell has a position in the list of empty cells, where the child values hold its value |
| Ai.MinimaxMoveIsFirstBest | src/game/ai.ts:68-93 | on a board still in play, the move is an empty cell of best value for the side to move, and the lowest such cell |
| Ai.ChooseMoveHard | src/game/ai.ts:96-100 | hard searches with `currentTurn` to move; it returns null iff the board is won or full, even when empty cells remain on a won board |
| Ai.HardMoveIsBestForAi | src/game/ai.ts:96-100 | on the AI's turn, the hard move is worth as much as any empty cell, so an immediate win is never passed over |
| Ai.SelectAiMove | src/game/ai.ts:16-27 | the dispatch plays easy, hard or medium by level, with medium for an unknown level; for easy and medium the result is null iff the board is full; any move is an empty cell |
| Legacy.WinnerAmong | src/TicTacToe.tsx:20-27 | a winner found among the lines walked fills all three cells of one of those lines |
| Legacy.WinnerAmongAgrees | src/TicTacToe.tsx:20-27 | walking the rest of the line table from entry `k` finds what the rules engine's scan from `k` finds |
| Legacy.CalculateWinner | src/TicTacToe.tsx:20-27 | the component's `calculateWinner` returns the same winner as the rules engine's on every board |
| Legacy.MakeMove | src/TicTacToe.tsx:35-39 | the mark is written at `idx` even over an occupied cell, every other cell is unchanged, and on an empty cell the result is the rules engine's move |
| Legacy.RandomMove | src/TicTacToe.tsx:42-45 | `randomMove` picks what the easy level picks; the result is `undefined` iff the board is full |
| Legacy.ScanForWin | src/TicTacToe.tsx:52-58 | each early-return loop over `makeMove` returns the first listed cell where `m` wins |
| Legacy.MediumWithoutEarlyExit | src/TicTacToe.tsx:47-66 | the missing early exit for a full board changes nothing: the win, block, centre, corner, `empties[0]` order gives the medium choice on every board |
| Legacy.HeuristicMove | src/TicTacToe.tsx:47-66 | `heuristicMove` chooses exactly what the medium level chooses |
| Legacy.Minimax | src/TicTacToe.tsx:68-107 | same terminal scores, move and fail-soft or exact agreement with the exhaustive search as the move selector's search |
| Legacy.SearchMoves | src/TicTacToe.tsx:81-104 | the component's loop with its break is fail-soft against, and for a wide window equal to, the loop without pruning |
| Legacy.SearchChild | src/TicTacToe.tsx:86-88 | the recursive call on the `makeMove` child is fail-soft against the child's exhaustive value, and exact for a wide window |
| Legacy.BestMove | src/TicTacToe.tsx:109-115 | "Easy" plays the easy choice and "Medium" the medium choice; "Hard" plays the exhaustive search's move with X to move, or the medium choice when that move is null; the result is null iff the board is full |
| Legacy.TrapChildren | src/TicTacToe.tsx:68-107 | on the board X X _ / O O _ / X O X, scored for O: X at 2 wins for X (−10), X at 5 draws, O at 2 draws, O at 5 wins for O (+10) |
| Legacy.HardMissesWin | src/TicTacToe.tsx:113 | on that board with O to move, the search started with X returns cell 2, which does not win for O, while cell 5 wins; the search started with the side to move returns 5 |

## Left out

- The React UI is not part of this model. That covers `src/App.tsx`, `src/components/`, and `src/TicTacToe.tsx` from line 117 on: hooks, the `setTimeout` delay, score tallying, starter alternation and rendering.
- `Math.random()` is a parameter `rnd` with 0 ≤ `rnd` < 1. The model states that every cell is reachable, not the distribution.
- Ai.Pick: `rnd * n` is an exact real product. JavaScript's double product can round up to the next index at a boundary value, so the exact map from values to cells may differ; the set of cells reached does not.
- `-Infinity` and `Infinity` in the search are the integers −11 and 11. Every score is −10, 0 or 10, so every comparison comes out the same.
- The default parameters `alpha = -Infinity, beta = Infinity` are passed explicitly by the callers.
- A proof that the hard level never loses is not attempted. It needs reasoning over the whole game tree.
- Scores follow the code: flat +10 / −10 / 0 at `src/game/ai.ts:62-66` and `src/TicTacToe.tsx:76-79`. Neither search adjusts for depth.
- Ai.ChildValue: for a cell that is not empty it is defined as 0. The search never asks for such a cell.
- Legacy.MakeMove: requires `idx` inside the board. For a larger index JavaScript would lengthen the array; no caller passes one.
- Legacy.RandomMove and Legacy.HeuristicMove: the JavaScript `undefined` that `empties[0]` gives on a full board is `None`.
- Ai.SelectAiMove and Legacy.BestMove are methods although their sources only dispatch. They call the selectors, which are methods because of their loops.
- The level of the move selector is a `string`, so the `default:` branch is reachable. The component's `Level` type has exactly three values and is a datatype.
- Boards may have any length, as the source's `Cell[]` type allows. A read outside the board is JavaScript's `undefined`: neither empty nor a mark.
- Ai.SearchMoves and Ai.SearchChild, with their Legacy counterparts, are the loop and the recursive call of `minimax` written as separate methods.
- `slice` not mutating its input needs no statement: boards are values, and the copy is written through a fresh array.

## Findings

| source | as written | input that shows it | evidently intended | confidence | as-written member | corrected member |
|---|---|---|---|---|---|---|
| src/TicTacToe.tsx:113 | `minimax(board, ai, "X")` starts the search with X to move, whichever side is to move | board X X _ / O O _ / X O X, computer plays O (the default when the player is X), level "Hard": the search looks for X's best cell, finds 2 (X's winning cell), and O is placed there without winning, while O at 5 wins at once | start the search with the side to move, `currentTurn(board)`, as `src/game/ai.ts:97-98` does; the hard move is then never worse for the AI than any empty cell (Ai.HardMoveIsBestForAi) | not executed | Legacy.HardMissesWin | Ai.ChooseMoveHard |
