/** Win detection: the eight fixed lines of the board, checked in a set order;
    the winner is the mark of the first line whose three squares hold the same mark. */
module WinCheck {
  import opened Squares

  /** Three cells that form a row, a column or a diagonal. */
  datatype Line = Line(a: Cell, b: Cell, c: Cell)

  /** The lines in the order they are checked: three rows, three columns, two diagonals. */
  const Lines: seq<Line> := [
    Line(0, 1, 2),
    Line(3, 4, 5),
    Line(6, 7, 8),
    Line(0, 3, 6),
    Line(1, 4, 7),
    Line(2, 5, 8),
    Line(0, 4, 8),
    Line(2, 4, 6)
  ]

  /** A line is complete when its first square is a mark and the other two hold the same mark. */
  predicate Complete(squares: Board, l: Line) {
    squares[l.a] != Empty && squares[l.a] == squares[l.b] && squares[l.a] == squares[l.c]
  }

  /** Line `j` is complete and no line from `k` up to it is. */
  predicate FirstCompleteFrom(squares: Board, k: nat, j: int) {
    k <= j < |Lines| && Complete(squares, Lines[j]) &&
    forall j' :: k <= j' < j ==> !Complete(squares, Lines[j'])
  }

  /** The mark of the first complete line among `Lines[k..]`, or `Empty` when there is none. */
  function WinnerFrom(squares: Board, k: nat): (w: SquareValue)
    requires k <= |Lines|
    ensures (w == Empty) <==> (forall j :: k <= j < |Lines| ==> !Complete(squares, Lines[j]))
    ensures forall j :: FirstCompleteFrom(squares, k, j) ==> w == squares[Lines[j].a]
    decreases |Lines| - k
  {
    if k == |Lines| then Empty
    else if Complete(squares, Lines[k]) then squares[Lines[k].a]
    else WinnerFrom(squares, k + 1)
  }

  /** The winner of a board, as the line scan decides it. */
  function Winner(squares: Board): (w: SquareValue)
    ensures (w == Empty) <==> (forall j :: 0 <= j < |Lines| ==> !Complete(squares, Lines[j]))
    ensures w != Empty ==>
      exists j :: 0 <= j < |Lines| && Complete(squares, Lines[j]) && squares[Lines[j].a] == w
    ensures forall j :: FirstCompleteFrom(squares, 0, j) ==> w == squares[Lines[j].a]
  {
    var w := WinnerFrom(squares, 0);
    if w != Empty then
      FirstCompleteExists(squares);
      w
    else w
  }

  /** When some line is complete there is a first one. */
  lemma FirstCompleteExists(squares: Board)
    requires exists j :: 0 <= j < |Lines| && Complete(squares, Lines[j])
    ensures exists j :: FirstCompleteFrom(squares, 0, j)
  {
    var j :| 0 <= j < |Lines| && Complete(squares, Lines[j]);
    while j > 0 && exists j' :: 0 <= j' < j && Complete(squares, Lines[j'])
      invariant 0 <= j < |Lines| && Complete(squares, Lines[j])
      decreases j
    {
      var j' :| 0 <= j' < j && Complete(squares, Lines[j']);
      j := j';
    }
    assert FirstCompleteFrom(squares, 0, j);
  }

  /** The source's loop over the lines, returning at the first complete one. */
  method CalculateWinner(squares: Board) returns (w: SquareValue)
    ensures w == Winner(squares)
    ensures (w == Empty) <==> (forall j :: 0 <= j < |Lines| ==> !Complete(squares, Lines[j]))
  {
    var i := 0;
    while i < |Lines|
      invariant 0 <= i <= |Lines|
      invariant forall j :: 0 <= j < i ==> !Complete(squares, Lines[j])
    {
      var line := Lines[i];
      if squares[line.a] != Empty && squares[line.a] == squares[line.b] && squares[line.a] == squares[line.c] {
        assert FirstCompleteFrom(squares, 0, i);
        return squares[line.a];
      }
      i := i + 1;
    }
    return Empty;
  }

  /** Nobody has won on the empty board. */
  lemma EmptyBoardHasNoWinner()
    ensures Winner(EmptyBoard) == Empty
  {
    forall j | 0 <= j < |Lines|
      ensures !Complete(EmptyBoard, Lines[j])
    {
      assert EmptyBoard[Lines[j].a] == Empty;
    }
  }

  /** Swapping the players' marks on every square swaps the winner. */
  lemma {:induction false} WinnerFromSwap(squares: Board, k: nat)
    requires k <= |Lines|
    ensures WinnerFrom(SwapBoard(squares), k) == Swap(WinnerFrom(squares, k))
    decreases |Lines| - k
  {
    if k < |Lines| {
      var l := Lines[k];
      var s' := SwapBoard(squares);
      assert s'[l.a] == Swap(squares[l.a]) && s'[l.b] == Swap(squares[l.b]) && s'[l.c] == Swap(squares[l.c]);
      assert Complete(s', l) <==> Complete(squares, l);
      if !Complete(squares, l) {
        WinnerFromSwap(squares, k + 1);
      }
    }
  }

  /** Relabelling X as O and O as X relabels the winner the same way. */
  lemma WinnerSwap(squares: Board)
    ensures Winner(SwapBoard(squares)) == Swap(Winner(squares))
  {
    WinnerFromSwap(squares, 0);
  }

  /** A player can only have won with at least three marks on the board. */
  lemma WinnerHasThreeMarks(squares: Board)
    ensures Winner(squares) != Empty ==> CountOf(squares, Winner(squares)) >= 3
  {
    var w := Winner(squares);
    if w != Empty {
      var j :| 0 <= j < |Lines| && Complete(squares, Lines[j]) && squares[Lines[j].a] == w;
      var l := Lines[j];
      assert l.a != l.b && l.b != l.c && l.a != l.c;
      ThreeSquaresCount(squares, l.a, l.b, l.c, w);
    }
  }
}
