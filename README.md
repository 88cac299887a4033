# Tic Tac Toe game-state core, modelled in Dafny

This project models the game-state core of a two-player Tic Tac Toe web
game: the `useTicTacToe` hook. The hook owns four pieces of state:

- a board of nine cells, each empty or holding an X or an O;
- the player to move;
- a history stack of pre-move snapshots, used by undo;
- a score record with wins for X, wins for O and draws.

It derives a status from the board: in progress, a win with its line, or
a draw. It offers three commands: `play(index)`, `reset()` and `undo()`.

The project has three modules, one per layer of the hook:

- `Rules` (`rules.dfy`): players, cells, the nine-cell board, the eight
  winning lines in scan order, and `Evaluate`, the status classifier
  (`evaluateStatus`). It also has `CanPlay` and the mark-counting
  facts that the invariant uses.
- `GameState` (`game_state.dfy`): the owned state as a value and the
  three commands as functions from state to state. Here the lemmas are
  proved: no-op cases, play-then-undo, the history/board invariant,
  alternation of turns, the reset starting player, and score
  monotonicity over any run of commands.
- `TicTacToe` (`tictactoe.dfy`): class `Game`, the hook as an object.
  Its fields are updated in place by the methods `Play`, `Reset` and
  `Undo`. Each method is proved to move the object to exactly the state
  the matching `GameState` function gives, and to keep the invariant.

Decisions where the code and its comment differ, or where the code is subtle:

- **Scoring.** The hook bumps the scores in a memo keyed on the terminal
  status (`useTicTacToe.ts:95-103`). Here that is an explicit last step
  of an accepted `Play`: if the new status is a win, the winner gets one
  point; if it is a draw, draws gets one point. A move is accepted only
  while the game is in progress, and `Undo` and `Reset` always lead back
  to an in-progress position. So this counts each new terminal status
  once, as the memo does.
- **Reset.** Reset flips the player to move at the moment of reset
  (`useTicTacToe.ts:78`). The comment on that line says "alternate
  starting player for fairness", but flipping the player to move changes
  the opener only after an even number of moves. The model follows the
  code, and `GameState.ResetStarter` proves what the code does: after an
  odd-length game, the player who opened it also opens the next one.
- **Out-of-range index.** `play` with an index outside 0..8 is a no-op,
  as in the code. There `board[index]` is `undefined`, which fails the
  `!== null` test (`useTicTacToe.ts:64`).

The invariant `GameState.Inv` is stated over the trace: the history
followed by the live position. Every entry `k` of the trace has `k` filled
cells. When `k` is even, X and O have placed equally many marks. When `k`
is odd, the player to move has one mark fewer than the other. Each entry
follows the previous one by a single move of the previous entry's player,
made while that position was in progress. Every command keeps this
invariant.

## Model

| member | source | states |
|---|---|---|
| `Rules.Other` | tic_tac_toe_frontend/app/hooks/useTicTacToe.ts:69 | the player flip always yields the other player |
| `Rules.FirstComplete` | tic_tac_toe_frontend/app/hooks/useTicTacToe.ts:41-46 | the scan finds the first position, in WIN_LINES order, whose line is complete; it reports none exactly when no line from that position on is complete |
| `Rules.Evaluate` | tic_tac_toe_frontend/app/hooks/useTicTacToe.ts:39-54 | win iff some line is complete, with the first complete line in scan order and that line's mark as winner; draw iff no line is complete and all nine cells are filled; in progress iff no line is complete and a cell is empty, carrying the player to move |
| `Rules.EvaluateFirstWin` | tic_tac_toe_frontend/app/hooks/useTicTacToe.ts:41-46 | converse: if line k is complete and no earlier line is, the status is a win for line k's mark on line k |
| `Rules.EvaluateIgnoresTurnUnlessInProgress` | tic_tac_toe_frontend/app/hooks/useTicTacToe.ts:39-54 | the player to move affects the status only as the player an in-progress status carries |
| `Rules.CanPlay` | tic_tac_toe_frontend/app/hooks/useTicTacToe.ts:58 | moves are allowed iff no line is complete and some cell is empty |
| `Rules.TopRowFixture` | tic_tac_toe_frontend/app/hooks/useTicTacToe.ts:41-45 | X X X / O O _ / _ _ _ is a win for X on line 0-1-2 |
| `Rules.DrawFixture` | tic_tac_toe_frontend/app/hooks/useTicTacToe.ts:47-50 | X O X / X O O / O X X is a draw |
| `Rules.OpenRowFixture` | tic_tac_toe_frontend/app/hooks/useTicTacToe.ts:51 | X O X / _ _ _ / _ _ _ is in progress with the given player to move |
| `Rules.FullIffNineFilled` | tic_tac_toe_frontend/app/hooks/useTicTacToe.ts:47 | every cell is non-null iff nine cells are marked |
| `Rules.MarkEmptyCell` | tic_tac_toe_frontend/app/hooks/useTicTacToe.ts:65-66 | marking an empty cell adds one mark of the mover, none of the other player, and one filled cell |
| `GameState.Tally` | tic_tac_toe_frontend/app/hooks/useTicTacToe.ts:95-103 | scores never decrease; a win adds exactly one to the winner and nothing else; a draw adds exactly one to draws and nothing else; an in-progress status changes nothing |
| `GameState.Play` | tic_tac_toe_frontend/app/hooks/useTicTacToe.ts:62-72 | no-op when the status is not in progress, when the index is outside 0..8, or when the cell is occupied; otherwise it pushes the pre-move snapshot, sets exactly the chosen cell to the mover, leaves every other cell alone, flips the player, and tallies the resulting status |
| `GameState.Reset` | tic_tac_toe_frontend/app/hooks/useTicTacToe.ts:76-80 | board becomes nine empty cells, history empties, the player to move flips, scores are untouched |
| `GameState.Undo` | tic_tac_toe_frontend/app/hooks/useTicTacToe.ts:84-92 | no-op on empty history; otherwise board and player come from the last snapshot, which is removed, and scores are untouched |
| `GameState.InitialInv` | tic_tac_toe_frontend/app/hooks/useTicTacToe.ts:30-37 | the initial session satisfies the invariant |
| `GameState.InvFacts` | tic_tac_toe_frontend/app/hooks/useTicTacToe.ts:30-32 | under the invariant, the history length equals the number of filled cells, and the X and O counts differ by at most one |
| `GameState.PlayPreservesInv` | tic_tac_toe_frontend/app/hooks/useTicTacToe.ts:64-69 | play keeps the invariant |
| `GameState.UndoPreservesInv` | tic_tac_toe_frontend/app/hooks/useTicTacToe.ts:86-90 | undo keeps the invariant |
| `GameState.ResetPreservesInv` | tic_tac_toe_frontend/app/hooks/useTicTacToe.ts:77-79 | reset keeps the invariant |
| `GameState.DrawAfterNineMoves` | tic_tac_toe_frontend/app/hooks/useTicTacToe.ts:47-50 | under the invariant, a draw status means nine moves are on the history stack |
| `GameState.UndoResumesPlay` | tic_tac_toe_frontend/app/hooks/useTicTacToe.ts:84-92 | undo with a non-empty history always lands in an in-progress position, also after a win or draw |
| `GameState.PlayThenUndo` | tic_tac_toe_frontend/app/hooks/useTicTacToe.ts:62-92 | after an accepted move, undo gives back exactly the prior board, player and history |
| `GameState.MoveKeepsWellFormed` | tic_tac_toe_frontend/app/hooks/useTicTacToe.ts:64-69 | marking an empty cell for the player to move turns a position n moves into the game into one n + 1 moves in: one more filled cell, and the mark counts stay balanced |
| `GameState.TurnPassesAlongTrace` | tic_tac_toe_frontend/app/hooks/useTicTacToe.ts:67-69 | under the invariant, each snapshot's player to move is the other one than in the snapshot before |
| `GameState.Alternation` | tic_tac_toe_frontend/app/hooks/useTicTacToe.ts:67-69 | along such a trace, the player to move alternates, starting from its first snapshot |
| `GameState.ResetStarter` | tic_tac_toe_frontend/app/hooks/useTicTacToe.ts:78 | the first snapshot is the empty position; after an odd number of moves, reset gives the first move to the player who opened the game just played; after an even number, to the other player |
| `GameState.RunPreservesInv` | tic_tac_toe_frontend/app/hooks/useTicTacToe.ts:62-92 | every sequence of play, reset and undo commands keeps the invariant |
| `GameState.RunScoresMonotone` | tic_tac_toe_frontend/app/hooks/useTicTacToe.ts:95-103 | no sequence of commands lowers any score counter |
| `GameState.ScoreChangesOnlyOnEndingMove` | tic_tac_toe_frontend/app/hooks/useTicTacToe.ts:95-103 | a command changes the scores iff it is an accepted move that ends the game, and then by one point in all |
| `GameState.TerminalNotRecounted` | tic_tac_toe_frontend/app/hooks/useTicTacToe.ts:64 | once the game is over, a further move leaves the scores unchanged |
| `TicTacToe.Game.constructor` | tic_tac_toe_frontend/app/hooks/useTicTacToe.ts:30-37 | a new session is the initial state, and it satisfies the invariant |
| `TicTacToe.Game.Status` | tic_tac_toe_frontend/app/hooks/useTicTacToe.ts:56 | the status is derived from the live board; in progress carries the field `currentPlayer`, and a draw means a full board |
| `TicTacToe.Game.Play` | tic_tac_toe_frontend/app/hooks/useTicTacToe.ts:62-72 | updates the fields in place to exactly `GameState.Play` of the old state, and keeps the invariant |
| `TicTacToe.Game.Reset` | tic_tac_toe_frontend/app/hooks/useTicTacToe.ts:76-80 | updates the fields in place to exactly `GameState.Reset` of the old state, and keeps the invariant |
| `TicTacToe.Game.Undo` | tic_tac_toe_frontend/app/hooks/useTicTacToe.ts:84-92 | updates the fields in place to exactly `GameState.Undo` of the old state, keeps the invariant, and after undoing a move the status is in progress again |

## Left out

- Rendering is not modelled. This covers `Board.tsx` (cells, CSS classes, winning-line highlight), `Icons.tsx` (SVG and emoji) and `routes/_index.tsx` (layout, page meta, the ARIA live-region text, and the Undo button's `disabled` gating). The hook's own `undo` is not gated, and the model follows the hook.
- React mechanics are not modelled: `useState`, `useCallback`, `useMemo` dependency lists and batched state updates. Each command is one atomic update of the owned state.
- The string-keyed memo that decides when scoring runs is replaced by the explicit score step inside `Play`, as described above.
- Indices are integers. A non-integer JavaScript number passed to `play` would also read `undefined` and be ignored; the model has no such values.
- Score counters are unbounded naturals. JavaScript numbers lose precision above 2^53, which is not modelled.
- History snapshots hold board values. In the hook they are array references, but no array is ever changed after it is stored (`play` copies with `slice`), so value semantics lose nothing.
- TicTacToe.Game.Status: its own contract states only the carried player and the draw case; the full classification is the contract of `Rules.Evaluate`, which it returns.
