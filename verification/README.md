# Tic-tac-toe game engine, modelled in Dafny

This project models the game logic of a React tic-tac-toe tutorial app (`src/index.tsx`).
It covers the win check over the nine squares and the game state (`history`, `stepNumber`,
`xIsNext`, `reverseFlag`). It covers the three transitions the user drives: clicking a
cell, jumping to an earlier move, and toggling the order of the move list. It also covers
the small helpers the UI uses: the (row, column) label of a move, the integer `range`,
and the order in which the move list enumerates the history.

Layout:

- `squares.dfy` (module `Squares`): square values `X | O | Empty` (`Empty` is the source's
  `null`), the 9-square board, counting marks, swapping the two players' marks.
- `winner.dfy` (module `WinCheck`): the eight lines in the order the source checks them,
  `Winner` (the reference scan) and `CalculateWinner` (the source's loop).
- `coords.dfy` (module `Coords`): `calculateColRow` and `range`.
- `history_view.dfy` (module `HistoryView`): pairing snapshots with their index and the
  optional reversal.
- `game.dfy` (module `Game`): `GameState`, the transitions as pure state-to-state
  functions, the invariant `Inv` and the lemmas about them.
- `scenarios.dfy` (module `Scenarios`): two whole games played from the start.

Each transition is a record update that replaces only the fields the source passes to
`setState`, so every other field is left alone. The invariant `Inv` says four things:

- `0 <= stepNumber < |history|`;
- the stored `xIsNext` equals `stepNumber % 2 == 0`;
- `history[0]` is the empty board with no location;
- every later snapshot is the previous board, which nobody had won, with one more mark
  on an empty square. The click made at an even `stepNumber` is X's, so snapshot k
  (the one the move list labels "Go to move #k") carries X when k is odd and O when k is
  even.

The constructor establishes `Inv`, and `handleClick`, `jumpTo` (to an existing move) and
`handleSort` preserve it. The source stores `xIsNext` rather than deriving it: it is
flipped by `handleClick` and recomputed from parity by `jumpTo`. The invariant shows the
two ways never disagree.

`calculateColRow` returns row `floor(n / 3) + 1` and column `(n + 1) % 3`, so cells 2, 5
and 8 get column 0 (`Coords.ColRowOfDrawnCell`); the model keeps that labelling.

## Model

| member | source | states |
|---|---|---|
| WinCheck.WinnerFrom | src/index.tsx:20-26 | scanning lines from position k gives `null` exactly when none of those lines is complete, and otherwise the mark of the first complete one |
| WinCheck.Winner | src/index.tsx:9-27 | the result is `null` iff none of the 8 lines is complete; a non-null result is the mark filling some complete line; when several lines are complete, it is the mark of the first in list order |
| WinCheck.CalculateWinner | src/index.tsx:9-27 | the for-loop over the lines, returning at the first line whose three squares hold the same mark, agrees with `Winner` |
| WinCheck.EmptyBoardHasNoWinner | src/index.tsx:9-27 | the all-null board has no winner |
| WinCheck.WinnerSwap | src/index.tsx:9-27 | swapping X and O on every square swaps the winner |
| WinCheck.WinnerHasThreeMarks | src/index.tsx:9-27 | a winning mark occupies at least three squares |
| Coords.ColRow | src/index.tsx:5-7 | for a cell 0..8 the row is in 1..3, the column in 0..2, and the row is the cell's third plus one |
| Coords.ColRowRoundTrip | src/index.tsx:5-7 | the cell can be recovered from its (row, column) label |
| Coords.ColRowInjective | src/index.tsx:5-7 | distinct cells get distinct labels |
| Coords.ColRowOfDrawnCell | src/index.tsx:5-7 | the cell drawn at 0-based row i, column j is labelled (i + 1, (j + 1) % 3), so the last column reads 0 |
| Coords.Range | src/index.tsx:29-30 | `range(start, stop)` has `stop - start` elements and element k is `start + k` |
| Coords.RangeMembers | src/index.tsx:29-30 | a number is in `range(start, stop)` iff `start <= x < stop` |
| Coords.RangeZeroThree | src/index.tsx:67-69 | `range(0, 3)` is `[0, 1, 2]` |
| Coords.DrawnCellsCoverBoard | src/index.tsx:64-74 | the cells `3 * i + j` for i, j from `range(0, 3)` are exactly the cells 0..8 |
| HistoryView.Reverse | src/index.tsx:90-92 | the reversed list has the same length and holds element `|s| - 1 - k` at position k |
| HistoryView.ReverseReverse | src/index.tsx:90-92 | reversing twice restores the list |
| HistoryView.Indexed | src/index.tsx:86-89 | each history entry is paired with its own index, in order |
| HistoryView.Ordered | src/index.tsx:86-92 | every listed pair carries a valid index and the entry at that index; indices run 0, 1, … or, when reversed, `|history| - 1` down to 0 |
| HistoryView.OrderedListsEachPositionOnce | src/index.tsx:86-92 | every history position is listed, strictly ascending, or strictly descending when reversed |
| HistoryView.OrderedToggle | src/index.tsx:86-92 | the listing with the flag flipped is the reverse of the listing without |
| Game.MarkFor | src/index.tsx:152 | the mover's mark is a mark, and it is X iff `xIsNext` |
| Game.Initial | src/index.tsx:133-143 | the initial state satisfies the invariant, has one snapshot, step 0, X to move and ascending order |
| Game.Kept | src/index.tsx:147 | the kept prefix is non-empty and is a prefix of the history; it has `stepNumber + 1` snapshots when the step is inside the history, and is the whole history when the step is past its end (the clamp of `slice`) |
| Game.HandleClick | src/index.tsx:146-163 | the click leaves the whole state unchanged iff the current board has a winner or cell i is taken; an accepted click keeps the prefix, appends one snapshot located at i, points the step at it, flips the turn, writes the mover's mark on i and no other cell; the order flag never changes |
| Game.HandleSort | src/index.tsx:165-167 | only the order flag changes, and it flips |
| Game.JumpTo | src/index.tsx:169-174 | the history and order flag are untouched, the step becomes the target, and X is to move exactly when the target is even |
| Game.KeptUnderInv | src/index.tsx:147-148 | in a valid state the click keeps `history[0..stepNumber]` and acts on the board at `stepNumber` |
| Game.HandleClickAppends | src/index.tsx:147-162 | in a valid state an accepted click gives `history[0..stepNumber]` plus one snapshot that is the current board with X (even step) or O (odd step) on i; the step becomes old step + 1 and the turn flips |
| Game.ClickAtNewest | src/index.tsx:146-163 | at the newest move an accepted click truncates nothing and just appends, keeping the invariant |
| Game.ClickReplays | src/index.tsx:146-163 | an accepted click at the newest move reaches the newest move of the next step with the expected board |
| Game.PlayReplays | src/index.tsx:146-163 | a run of accepted clicks at the newest move passes through the expected boards, one per move |
| Game.HandleClickPreservesInv | src/index.tsx:146-163 | every click, accepted or not, preserves the invariant |
| Game.HandleClickTwice | src/index.tsx:149-151 | clicking the same cell twice in a row changes the state only once |
| Game.JumpToPreservesInv | src/index.tsx:169-174 | jumping to an existing move preserves the invariant; `xIsNext` is resynchronised with parity |
| Game.JumpToCurrent | src/index.tsx:169-174 | in a valid state, jumping to the move already shown changes nothing |
| Game.JumpThenClickTruncates | src/index.tsx:146-174 | jumping back to move p and then playing drops every snapshot after p before appending the new one |
| Game.HandleSortPreservesInv | src/index.tsx:165-167 | toggling the order preserves the invariant |
| Game.HandleSortTwice | src/index.tsx:165-167 | toggling twice is the identity |
| Game.PlayPreservesInv | src/index.tsx:146-163 | any sequence of clicks from a valid state keeps the invariant |
| Game.SnapshotCounts | src/index.tsx:146-163 | snapshot k holds `(k + 1) / 2` X marks, `k / 2` O marks and `9 - k` empty squares |
| Game.HistoryAtMostTen | src/index.tsx:146-163 | a valid history never has more than ten snapshots |
| Game.NoWinnerBeforeFifthMove | src/index.tsx:146-163 | no snapshot before the fifth move has a winner |
| Scenarios.ColumnBoardsFollow | src/index.tsx:9-27 | each move of the left-column game lands on an empty square of an unwon board, and the last board's first complete line is the left column |
| Scenarios.LeftColumnWin | src/index.tsx:146-163 | after X 0, O 1, X 3, O 2, X 6 the step is 5, X has won, and every further click is ignored |
| Scenarios.DrawnBoardsFollow | src/index.tsx:9-27 | each move of the drawn game lands on an empty square of an unwon board, and the final board is full with no winner |
| Scenarios.FullBoardWithoutWinner | src/index.tsx:146-163 | after the nine moves 0, 1, 2, 3, 5, 4, 6, 8, 7 the board is full, nobody has won, and every further click is ignored |

## Left out

- Rendering is left out: `Square`, `Board.render`, the JSX of `History.render` and `Game.render`, the status text, the bold style of the current move, inline styles and the CSS import. These are presentation only. The index pairing and reversal inside `History.render` are modelled.
- `ReactDOM.render` and mounting into the DOM are left out, because they are I/O.
- React's asynchronous, batched `setState` is left out. Each handler is an atomic state-to-state function that merges only the fields it names.
- Coords.Range: only the default step of 1 and `start <= stop` are modelled; for `start > stop` JavaScript's `Array.from` clamps the negative length and returns `[]`. The only call, `range(0, 3)`, meets both. Other steps depend on how `Array.from` truncates a fractional length.
- Game.HandleClick: requires a cell `0 <= i < 9`, a non-empty history and `stepNumber >= 0` (`Game.Playable`). The board only offers cells 0..8. The history is never empty and the step is never negative: the constructor sets step 0 with one snapshot (src/index.tsx:133-143), a click sets the step to the length of the kept history, which is the index of the snapshot it appends (src/index.tsx:147, 160), and `jumpTo` only receives indices the move list shows (src/index.tsx:86-106). Clicks in states with a negative step, which the source cannot reach, are not modelled.
- Boards are modelled as sequences of exactly nine squares. Every board the code builds comes from `Array(9).fill(null)` or a copy of one, so no other length arises.
- `calculateColRow` is modelled for every integer, with JavaScript's truncating `%`. Only cells 0..8 are ever passed.
- Draw detection and returning the winning line are left out, because this revision of the code has neither.
