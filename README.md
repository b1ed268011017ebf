# Tic-tac-toe rules engine and computer opponent, in Dafny

This project models the game logic of a browser tic-tac-toe game (`Script.js`):
the 3x3 board, the eight winning lines, the evaluator that reports a win, a draw
or an open game, the handling of a click, the end-of-game check, the restart,
and the computer opponent at its three levels, which always plays O:

- **easy**: a random empty cell;
- **medium**: complete a line of two O's, else block a line of two X's, else a random cell;
- **hard**: exhaustive minimax search that places and removes marks on the shared board in place.

Three modules follow the program's parts:

- `rules.dfy`, module `Rules`: cells, boards, the winning-line table, `CheckWinner`
  (the pure evaluator) and `EmptyCells` (the legal moves).
- `opponent.dfy`, module `Opponent`: `RandomMove`, `MediumMove`, and minimax.
  `MinimaxValue`, `ChildValue` and `Best` are the game-theoretic value as functions.
  The methods `Minimax` and `GetHardMove` run the source's in-place place/undo loops
  on an `array<Cell>`. They are proved to restore the array and to compute that value.
  The search terminates because every placement lowers `EmptyCount`, the number of
  empty cells, which is the measure in the `decreases` clauses of the search.
- `game.dfy`, module `TicTacToe`: the class `Game` holds the module-level state of
  the game. That is the board array `cells` (`gameState`), `currentPlayer`,
  `gameActive`, `onePlayerMode` and `difficulty`. Its methods are the click handler,
  the computer's move, the end-of-game check and the restart.

Two client methods, `TopRowRound` and `DrawRound`, play whole rounds through the
`Game` methods. To keep its proof small, the drawn round is split into pieces.
`PlayDrawOpening` plays the first four clicks on a restarted game. `ClickOpen` is one
two-player click that leaves the game open. They show that the contracts fix the outcome: X 0, O 4, X 1, O 3, X 2
is a top-row win, and X 0, O 1, X 2, O 4, X 3, O 5, X 7, O 6, X 8 is a draw. The
sequence X 0, O 1, X 2, O 4, X 7, O 6, X 5, O 3, X 8 also fills the board, but it is
a win for X on the right column, not a draw (`RightColumnIsNotADraw`).

Modelling choices:

- `Math.floor(Math.random() * n)` is the parameter `pick`, taken modulo the number of
  empty cells; every empty cell is reachable (`RandomMoveReachesEveryEmptyCell`).
- `-Infinity` and `Infinity` are the integer sentinels -2 and 2 (`Seed`). The unused
  `depth` argument of `minimax` is dropped.
- `setTimeout(computerMove, 500)` becomes the result `computerTurn` of
  `HandleCellClick`. The caller then runs `ComputerMove`.
- The cell index arrives as an `int`. An index outside 0..8 is ignored, as in the
  source, where `gameState[index]` is then `undefined`, which differs from `''`.
- On a full board `getHardMove` returns `undefined`; the model returns `None`, and
  `ComputerMove` then changes nothing. The source differs here. `undefined !== null`
  holds, so it writes a stray `gameState["undefined"]` entry. It then throws a
  `TypeError` on `cells[undefined]` before `checkForWinner` runs. The nine cells,
  `gameActive` and `currentPlayer` end up as in the model, but the model does not
  represent the exception. This can only happen through a click inside the 500 ms
  delay, which is not modelled.
- The game reports no error for an illegal click: it ignores the click and changes
  nothing. The model follows the code here.

## Model

| member | source | states |
|---|---|---|
| `Rules.LineIndicesDistinct` | Script.js:24-33 | the three cells of each winning line are pairwise distinct |
| `Rules.FirstWonLine` | Script.js:213-218 | the scan returns the first line, in table order, whose three cells hold one mark; None only when no line from the start position is won |
| `Rules.CheckWinner` | Script.js:212-220 | the result is the mark of the first won line; it is a win iff some line is won; Draw iff no line is won and no cell is empty; None iff no line is won and some cell is empty |
| `Rules.EmptyCellsBelow` | Script.js:99-101 | the list holds exactly the empty indices below `n`, all below `n`, strictly ascending |
| `Rules.EmptyCells` | Script.js:99-101 | the empty-cell list holds exactly the indices `i` with `gameState[i] === ''`, in ascending order; it is empty iff no cell is empty |
| `Rules.EmptyCellsBelowCount` | Script.js:99-101 | the empty indices below `n` are as many as the empty cells among the first `n` cells |
| `Rules.EmptyCellsCount` | Script.js:99-102 | there are as many legal moves as empty cells on the board |
| `Rules.EmptyBoardIsOpen` | Script.js:235 | the board a restart creates is still open: the evaluator returns None |
| `Rules.EmptyBoardCellsBelow` | Script.js:235 | on the restart board the empty cells below `n` are 0..n-1 |
| `Rules.EmptyBoardAllLegal` | Script.js:235 | on the restart board all nine cells are legal moves, in index order |
| `Opponent.RandomMove` | Script.js:98-103 | None iff no cell is empty; otherwise a member of the empty-cell list, hence an empty cell |
| `Opponent.RandomMoveReachesEveryEmptyCell` | Script.js:102 | every empty cell is the random move for some roll |
| `Opponent.ThreatIsUnique` | Script.js:110-112 | a line has at most one cell that completes it for a player, so the c, b, a order of the three tests cannot change the answer |
| `Opponent.ThreatCompletesLine` | Script.js:110-112 | playing the completing cell fills the line with the player's mark |
| `Opponent.LineCompletion` | Script.js:109-112 | the three tests on one line return a cell that is empty, on the line, with the two other cells holding the player's mark; None iff no such cell exists |
| `Opponent.FindThreat` | Script.js:108-113 | the pass returns the completing cell of the first line, in table order, that the player can complete; None iff there is no such line |
| `Opponent.FindThreatIffHasThreat` | Script.js:108-113 | the pass finds a cell exactly when the player can complete some line |
| `Opponent.MediumMove` | Script.js:106-125 | any returned index is an empty cell; None iff the board is full; if O can complete a line the move completes the first such line; only if O cannot, it completes the first line X can complete; otherwise it is the random move |
| `Opponent.MediumMoveTakesWin` | Script.js:107-113 | when O can win at once, O's move there fills a line with O |
| `Opponent.MediumMoveBlocks` | Script.js:115-121 | when only X can win at once, the move is the cell X would win with, and after O plays there X cannot complete that line |
| `Opponent.MinimaxValue` | Script.js:146-181 | the minimax value always lies in {-1, 0, 1} |
| `Opponent.ChildValue` | Script.js:161-164 | the value after the side to move plays an empty cell lies in {-1, 0, 1} |
| `Opponent.Best` | Script.js:158-180 | the loop fold over the first `n` cells is the sentinel when none of them is empty, and in {-1, 0, 1} once one is |
| `Opponent.BestIsBound` | Script.js:158-180 | the fold is at least (for O) or at most (for X) the child value of every empty cell below `n` |
| `Opponent.BestIsAttained` | Script.js:158-180 | once some cell below `n` is empty, the fold equals the child value of one of the empty cells |
| `Opponent.MinimaxIsOptimal` | Script.js:158-180 | on an open board the minimax value is the best value the side to move can reach in one move: no move does better and some move reaches it |
| `Opponent.Minimax` | Script.js:146-181 | the board is the same afterwards; the score is the minimax value of the board it was given; on a finished board it is `scores[result]`; it lies in {-1, 0, 1} |
| `Opponent.HardMoveIsUnique` | Script.js:136-139 | at most one cell has the best score and no lower cell of equal score, so the hard move is deterministic |
| `Opponent.GetHardMove` | Script.js:128-143 | the board is the same afterwards; None iff the board is full; otherwise an empty cell whose score is the maximum over all empty cells and strictly above that of every lower empty cell |
| `Opponent.HardReplyKeepsValue` | Script.js:128-181 | after any move of X that leaves the game open and O's hard reply, the minimax value with X to move is at least its value before X moved |
| `Opponent.FinishedNonNegativeIsNoXWin` | Script.js:147-156 | a finished board whose minimax value is at least 0 is not a win for X |
| `TicTacToe.RoundOverIffDecided` | Script.js:184-209 | the end-of-game condition holds exactly when the evaluator returns a result |
| `TicTacToe.Game.constructor` | Script.js:18-22 | a new game has an empty board, X to move and the game running |
| `TicTacToe.Game.CheckForWinner` | Script.js:184-209 | the game stops iff a line is filled with one mark or no cell is empty; otherwise `gameActive` keeps its value |
| `TicTacToe.Game.HandleCellClick` | Script.js:47-66 | a click on an occupied cell, off the board or after the end changes nothing; otherwise exactly that cell gets the current mark, the game stops iff the evaluator has a result, the turn passes to the other player, and the computer is scheduled iff in one-player mode, still running, and X moved |
| `TicTacToe.Game.ComputerMove` | Script.js:70-95 | the move is the one the difficulty selects; on a full board nothing changes; otherwise exactly that empty cell gets O, the game stops if the evaluator has a result, and X is to move |
| `TicTacToe.Game.RestartGame` | Script.js:234-238 | a fresh board of nine empty cells, the game running, X to move |
| `TicTacToe.TopRowBoards` | Script.js:24-25 | the boards of X 0, O 4, X 1, O 3, X 2 are open until the last move, which wins the top row for X |
| `TicTacToe.DrawOpeningBoards` | Script.js:212-220 | the boards of the opening X 0, O 1, X 2, O 4 are all open and end on `OpeningBoard` |
| `TicTacToe.DrawEndingBoards` | Script.js:212-220 | from `OpeningBoard`, the boards of X 3, O 5, X 7, O 6, X 8 are open until the board is full, and the full board is a draw |
| `TicTacToe.RightColumnIsNotADraw` | Script.js:30 | the full board of X 0, O 1, X 2, O 4, X 7, O 6, X 5, O 3, X 8 is won by X on the right column |

## Left out

- All DOM work is not modelled, because it is presentation: element lookups, cell
  classes and text, the blow-up animation of the winning cells, the end screen and
  its message, the turn indicator and the floating background letters.
- Screen switching and the mode and difficulty buttons are not modelled as
  operations. Their only effect on the game is to set `onePlayerMode` and
  `difficulty`; here these are arguments of the `Game` constructor.
- `backToModeSelection` resets the board, `gameActive` and `currentPlayer` exactly as
  `RestartGame` does, and otherwise only switches screens. It has no separate model.
- The 500 ms delay before the computer answers is not modelled, and neither is a
  human click that lands inside that window. This is timing, not game logic.
- The `default` branch of the difficulty switch is absent. The enumerated
  `Difficulty` has no other value; the buttons only ever set the three named ones.
- `RandomMove`: the distribution of `Math.random` is not modelled, only which cells
  can be chosen.
- `GetHardMove`: the claim that the hard opponent never loses is proved only in part.
  One round of X's move and O's hard reply keeps the minimax value, X to move, from
  falling (`HardReplyKeepsValue`). A finished board of value at least 0 is not an X
  win (`FinishedNonNegativeIsNoXWin`). What is not proved is that the empty board is
  worth 0 with X to move. That value depends on the whole game tree of several
  hundred thousand positions, which the verifier cannot explore.
- A faster win gets no bonus in the search, and the model adds none: a win in one
  move and a win in five get the same score.
