# Neon Tic-Tac-Toe: a verified model of the game engine and the minimax opponent

The page keeps three pieces of state: the nine-cell board `gameState`, the player whose
mark the next move writes (`currentPlayer`), and whether the game still accepts moves
(`gameActive`). A fourth flag, `isVsAI`, selects play against the computer. A click on
a cell passes a guard. The current player's mark is then written into the cell, and the
result check scans the eight winning lines in table order. It ends the game on the first
complete line or on a full board; otherwise it hands the turn to the other player.
Against the computer, O's move is chosen by a full-depth minimax that mutates the shared
board and undoes every trial move. It tries the empty cells in order 0 to 8 and replaces
its choice only when a cell scores strictly higher, so the lowest-numbered cell with the
best score wins (script.js:187-190).

The model has four modules:

- `Board` (board.dfy): cells, the winning-line table, the line scan and `CheckWinner`,
  and the leaf scores.
- `Solver` (solver.dfy): `GameValue`, a pure recursive game value that specifies
  `minimax`; the folds of the two search loops over per-cell reply values; and
  `BestMove`, which specifies the cell `makeComputerMove` picks.
- `Turns` (turns.dfy): the game state as a value, the transitions of a click, of the
  result check and of the computer's move, and the invariant `Consistent` that every
  reachable state keeps.
- `Engine` (engine.dfy): the class `Game`. It holds an `array<Cell>` board and the
  three flags, and has one method per handler. Every method is proved against the
  transition functions of `Turns` and `Solver`.

Behaviour of the code worth knowing:

- A click that fails the guard is ignored. Between two humans any click on an empty cell
  of a running game is accepted, whoever it is for: the only turn check is O's turn in
  vs-computer mode (script.js:70-76).
- The search always scores from O's side and tries O first. The final placement goes
  through `handleCellPlayed`, which writes `currentPlayer`, not a fixed `'O'`
  (script.js:94, 195). In normal play the two agree, because O is to move when the
  computer plays.
- `minimax` checks the result with `checkWinner()`, which takes no argument and reads the
  global `gameState`, not `minimax`'s `board` parameter (script.js:201-202, 228-230).
  `minimax` is only ever called on `gameState` (script.js:185), so `Game.Minimax` works on
  the single `board` field.
- The leaf scores do not depend on the depth (script.js:199, 202). A loss many moves away
  scores as low as an immediate one, so in a lost position every cell ties at -10 and the
  computer simply takes the lowest-numbered empty cell (`Solver.TopRowThreatIsLost`).
- The board balance between X and O is not checked by the code. The model proves that
  it holds in every reachable state: X has as many marks as O or one more, and while the
  game runs X is one ahead exactly when O is to move (`Turns.Consistent`).

## Model

| member | source | states |
|---|---|---|
| Board.Other | script.js:149 | the turn toggle always yields the other player |
| Board.Completes | script.js:109 | the line test, also used by `checkWinner` at script.js:230; `FirstCompleteFrom` and `CheckWinner` state what it decides (a line is complete exactly when its three cells are equal and non-empty) |
| Board.FirstCompleteFrom | script.js:106-114 | the result is the first line at or after `k`, in table order, whose three cells are equal and non-empty; every earlier line is incomplete; no result means no complete line from `k` on |
| Board.CheckWinner | script.js:228-236 | reports a winner exactly when some line is complete, and the winner owns the first complete line in table order; a tie exactly when no line is complete and the board is full; nothing otherwise. So a full board with a complete line is a win, never a tie |
| Board.Score | script.js:199 | leaf scores are -10, 0 or 10, positive exactly for an O win and negative exactly for an X win |
| Solver.GameValue | script.js:199-226 | the minimax value of any board is one of -10, 0, 10 (the ±Infinity sentinels never escape) |
| Solver.Reply | script.js:208-211 | the value of one trial move, also scored for O at script.js:184-185; `RepliesAt` and `GameValueIsMinimax` state it: the board with the mover's mark on the empty cell and the other side to move |
| Solver.ValueBoundsReply | script.js:205-224 | for an undecided board, the value is at least as good for the side to move as its reply on any single empty cell |
| Solver.GameValueIsMinimax | script.js:201-226 | a decided board is worth its leaf score; otherwise the value is at least as good for the side to move as the reply on every empty cell, and equals the reply on some empty cell |
| Solver.FillingDecreasesEmptyCount | script.js:208-209 | each trial move fills one empty cell, so the recursion ends |
| Solver.RepliesFrom | script.js:207-213 | one reply value per cell from `i` on, each a leaf score |
| Solver.RepliesAt | script.js:208-211 | the reply value kept for an empty cell is the value of the board with the mover's mark on it and the other side to move |
| Solver.ScanReplies | script.js:205-224 | the max/min loop returns a leaf score, or its start value only when no cell is empty |
| Solver.ScanIsExtremum | script.js:205-224 | the loop's result is at least as good as its start value and as every empty cell's reply, and is its start value or one of those replies |
| Solver.ChooseFrom | script.js:179-192 | the chosen move is an empty cell whose score is the best score; the pair changes only to a later cell with a strictly greater score; no move is chosen only when no cell is empty |
| Solver.ChooseFromIsBest | script.js:182-192 | no empty cell scores above the chosen one, and every empty cell before it scores strictly less (ties go to the lowest index) |
| Solver.BestMove | script.js:176-192 | the computer's cell is empty, has the maximal minimax score for O, and is the lowest-numbered cell with that score |
| Solver.BlockPicksTwo | script.js:176-192 | with X on cells 0 and 1 and the rest empty, the computer plays cell 2: any other cell lets X complete the top row at once |
| Solver.TopRowThreatIsLost | script.js:176-226 | on that board every empty cell scores -10, cell 2 included (after the block X forks on cell 4), so cell 2 is chosen as the lowest-numbered of equal scores, not as a better one |
| Turns.Place | script.js:94 | writing the current mark into a cell; `ClickEffect` states that the clicked cell gets the current player's mark and no taken cell changes |
| Turns.CanMove | script.js:70-76 | the click guard; `ClickEffect` states that a click it rejects changes nothing and a click it accepts is played |
| Turns.ComputerTurn | script.js:176-197 | the computer's move as a transition; `ComputerTurnKeepsConsistent` states that it keeps the invariant, and `Game.ComputerMove` that it is what the handler does |
| Turns.Click | script.js:66-88 | a click as a transition; `ClickEffect` states its effect on the board and `ClickKeepsConsistent` that it keeps the invariant |
| Turns.Validate | script.js:102-152 | the board is unchanged; a complete line or a full board ends the game and keeps the turn; otherwise the running flag is unchanged and the turn flips; a state left running has no complete line and an empty cell |
| Turns.InitialIsConsistent | script.js:33-35 | the starting state (nine empty cells, X to move, running) satisfies the reachability invariant |
| Turns.MoveKeepsConsistent | script.js:93-152 | a move on an empty cell of a running game, followed by the result check, keeps the invariant: X has as many marks as O or one more; while running no line is complete and X is ahead of O by one exactly when O is to move |
| Turns.ComputerTurnKeepsConsistent | script.js:176-197 | the computer's move keeps the invariant |
| Turns.ClickKeepsConsistent | script.js:66-88 | every click, accepted or rejected, keeps the invariant |
| Turns.ClickEffect | script.js:70-94 | a click on a taken cell, after the game ended, or on O's turn vs the computer changes nothing; an accepted click writes the current player's mark into the clicked cell and never overwrites a taken cell; between humans nothing else changes; vs the computer, X moved and at most one more cell (O's reply) changed |
| Engine.Game.constructor | script.js:33-36 | the page starts with nine empty cells, X to move, the game running, and the given mode |
| Engine.Game.CellPlayed | script.js:93-97 | writes the current player's mark into the chosen cell and leaves the other eight unchanged |
| Engine.Game.ResultValidation | script.js:102-152 | the loop stops on the first complete line in table order and reports its position, as `winningIndices`; the method returns true exactly on a complete line or a full board, and the new state is `Validate` of the old |
| Engine.Game.Restart | script.js:157-171 | a fresh board of nine empty cells, X to move, game running, whatever the prior state (so restarting twice equals restarting once), and the mode is kept |
| Engine.Game.Minimax | script.js:201-226 | returns the game value of the board for the side to move, a value in {-10, 0, 10}, and leaves every cell as it found it |
| Engine.Game.TryMark | script.js:207-212 | the set-then-undo trial returns the reply value and restores the board |
| Engine.Game.ChooseMove | script.js:179-192 | the search loop returns `BestMove` of the board and restores the board |
| Engine.Game.ComputerMove | script.js:176-197 | nothing changes once the game is over; otherwise the board gains the current player's mark on `BestMove`, the result is checked, and the invariant is kept |
| Engine.Game.CellClick | script.js:66-88 | the state after a click is `Click` of the state before: guard, human move, result check and, vs the computer while the game runs, the computer's reply; the invariant is kept |

## Left out

- DOM access, status text, colours, CSS classes and the win-line highlight (script.js:4-7, 23-28, 47-61, 95-96, 117-130, 164-170): presentation only. `ResultValidation` reports which line won but draws nothing.
- Sound playback and the audio-unlock listener (script.js:9-18, 79, 133, 143, 159): I/O.
- Event listeners and the mode toggle (script.js:241-259): the mode is the constructor's `vsAI` argument, kept in the field `isVsAI`.
- The 500 ms `setTimeout` before the computer's move (script.js:86): timing only. The computer answers by a direct call. Interleavings where a restart lands during the delay are not modelled.
- `parseInt` of `data-index` (script.js:68): the clicked index is an `Index` (0..8).
- The unused `depth` argument of `minimax`.
- The ±Infinity starting values of the searches are the integers `MinusInfinity` (-100) and `PlusInfinity` (100). Every real score lies strictly between them.
- The `move` variable of `makeComputerMove` starts undefined (an `Option`). If no cell were empty while the game runs, `querySelector` would find no cell and return null (script.js:194); `gameState[undefined]` would then set a property that is not a cell, so no cell is marked, and writing the mark's text into the null cell would throw a TypeError (script.js:95). `ComputerMove` requires an empty cell in that case, and `Turns.Validate` proves that the game is never left running on a full board.
- That the solver never loses from the empty board is not proved: it is a fact about the whole game tree, and evaluating `GameValue` on a nearly empty board is beyond what the verifier can unfold.
