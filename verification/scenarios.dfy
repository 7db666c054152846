/** Two complete games played from the starting state: one that X wins down the
    left column, and one that fills the board without a winner. */
module Scenarios {
  import opened Squares
  import opened WinCheck
  import opened Game

  const E := Empty

  /** X plays 0, O plays 1, X plays 3, O plays 2, X plays 6. */
  const ColumnMoves: seq<int> := [0, 1, 3, 2, 6]

  /** The boards the column game passes through. */
  const ColumnBoards: seq<Board> := [
    [E, E, E, E, E, E, E, E, E],
    [X, E, E, E, E, E, E, E, E],
    [X, O, E, E, E, E, E, E, E],
    [X, O, E, X, E, E, E, E, E],
    [X, O, O, X, E, E, E, E, E],
    [X, O, O, X, E, E, X, E, E]
  ]

  /** Each move of the column game goes to an empty square of a board nobody has won,
      and the final board is won by X down the left column. */
  lemma ColumnBoardsFollow()
    ensures |ColumnBoards| == |ColumnMoves| + 1
    ensures forall j :: 0 <= j < |ColumnMoves| ==> ReplayStep(ColumnMoves, ColumnBoards, 0, j)
    ensures FirstCompleteFrom(ColumnBoards[5], 0, 3) && ColumnBoards[5][Lines[3].a] == X
  {
    forall j | 0 <= j < |ColumnMoves|
      ensures ReplayStep(ColumnMoves, ColumnBoards, 0, j)
    {
      NoLineComplete(ColumnBoards[j]);
    }
  }

  /** After the column game the left column is X's, X is reported as the winner, and
      every further click is ignored. */
  lemma LeftColumnWin()
    ensures Play(Initial(), ColumnMoves).stepNumber == 5 == |Play(Initial(), ColumnMoves).history| - 1
    ensures Play(Initial(), ColumnMoves).history[5].squares == ColumnBoards[5]
    ensures Winner(ColumnBoards[5]) == X
    ensures forall i :: 0 <= i < 9 ==> HandleClick(Play(Initial(), ColumnMoves), i) == Play(Initial(), ColumnMoves)
  {
    ColumnBoardsFollow();
    PlayReplays(Initial(), ColumnMoves, ColumnBoards);
    var s := Play(Initial(), ColumnMoves);
    KeptUnderInv(s);
    forall i | 0 <= i < 9
      ensures HandleClick(s, i) == s
    {
      assert Rejected(s, i);
    }
  }

  /** X plays 0, 2, 5, 6, 7 and O plays 1, 3, 4, 8, alternating from X. */
  const DrawnMoves: seq<int> := [0, 1, 2, 3, 5, 4, 6, 8, 7]

  /** The boards the drawn game passes through. */
  const DrawnBoards: seq<Board> := [
    [E, E, E, E, E, E, E, E, E],
    [X, E, E, E, E, E, E, E, E],
    [X, O, E, E, E, E, E, E, E],
    [X, O, X, E, E, E, E, E, E],
    [X, O, X, O, E, E, E, E, E],
    [X, O, X, O, E, X, E, E, E],
    [X, O, X, O, O, X, E, E, E],
    [X, O, X, O, O, X, X, E, E],
    [X, O, X, O, O, X, X, E, O],
    [X, O, X, O, O, X, X, X, O]
  ]

  /** Each move of the drawn game goes to an empty square of a board nobody has won,
      and the final board is full with no complete line. */
  lemma DrawnBoardsFollow()
    ensures |DrawnBoards| == |DrawnMoves| + 1
    ensures forall j :: 0 <= j < |DrawnMoves| ==> ReplayStep(DrawnMoves, DrawnBoards, 0, j)
    ensures Winner(DrawnBoards[9]) == Empty
    ensures forall i :: 0 <= i < 9 ==> DrawnBoards[9][i] != Empty
  {
    forall j | 0 <= j <= |DrawnMoves|
      ensures Winner(DrawnBoards[j]) == Empty
    {
      NoLineComplete(DrawnBoards[j]);
    }
  }

  /** After the drawn game the board is full, nobody has won, and every further click
      is ignored. */
  lemma FullBoardWithoutWinner()
    ensures Play(Initial(), DrawnMoves).stepNumber == 9 == |Play(Initial(), DrawnMoves).history| - 1
    ensures Play(Initial(), DrawnMoves).history[9].squares == DrawnBoards[9]
    ensures Winner(DrawnBoards[9]) == Empty
    ensures forall i :: 0 <= i < 9 ==> HandleClick(Play(Initial(), DrawnMoves), i) == Play(Initial(), DrawnMoves)
  {
    DrawnBoardsFollow();
    PlayReplays(Initial(), DrawnMoves, DrawnBoards);
    var s := Play(Initial(), DrawnMoves);
    KeptUnderInv(s);
    forall i | 0 <= i < 9
      ensures HandleClick(s, i) == s
    {
      assert Rejected(s, i);
    }
  }

  /** A board on which none of the eight lines is complete has no winner. */
  lemma NoLineComplete(b: Board)
    requires !Complete(b, Lines[0]) && !Complete(b, Lines[1]) && !Complete(b, Lines[2])
    requires !Complete(b, Lines[3]) && !Complete(b, Lines[4]) && !Complete(b, Lines[5])
    requires !Complete(b, Lines[6]) && !Complete(b, Lines[7])
    ensures Winner(b) == Empty
  {
    forall j | 0 <= j < |Lines|
      ensures !Complete(b, Lines[j])
    {
      assert j == 0 || j == 1 || j == 2 || j == 3 || j == 4 || j == 5 || j == 6 || j == 7;
    }
  }
}
