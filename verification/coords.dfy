/** Small numeric helpers of the game: the (row, column) label shown for a move and
    the integer `range` the board uses to lay out its rows and columns. */
module Coords {

  /** JavaScript's `%`, which truncates toward zero: the remainder takes the sign
      of the dividend (Dafny's own `%` never returns a negative value). */
  function JsRem(a: int, d: int): (r: int)
    requires d > 0
    ensures a >= 0 ==> 0 <= r < d && r == a % d
    ensures a < 0 ==> -d < r <= 0 && -r == (-a) % d
  {
    if a >= 0 then a % d else -((-a) % d)
  }

  /** The (row, column) label of cell `n`: the row is `floor(n / 3) + 1` and the
      column is `(n + 1) % 3`, so a row reads its cells as columns 1, 2, 0. */
  function ColRow(n: int): (rc: (int, int))
    ensures 0 <= n < 9 ==> 1 <= rc.0 <= 3 && 0 <= rc.1 <= 2
    ensures 0 <= n < 9 ==> 3 * (rc.0 - 1) <= n < 3 * rc.0
  {
    // Dafny's `/` by a positive divisor is floor division, as `Math.floor(n / 3)` is.
    (n / 3 + 1, JsRem(n + 1, 3))
  }

  /** The cell a (row, column) label was computed from. */
  function CellOf(row: int, col: int): (n: int)
    ensures 1 <= row <= 3 && 0 <= col < 3 ==> 0 <= n < 9
  {
    3 * (row - 1) + (col + 2) % 3
  }

  /** Every cell's label leads back to that cell, so different cells get different labels. */
  lemma ColRowRoundTrip(n: int)
    requires 0 <= n < 9
    ensures CellOf(ColRow(n).0, ColRow(n).1) == n
  {
    var r := n / 3;
    var c := n % 3;
    assert n == 3 * r + c;
    assert JsRem(n + 1, 3) == (c + 1) % 3;
  }

  /** Distinct cells are labelled differently. */
  lemma ColRowInjective(n: int, m: int)
    requires 0 <= n < 9 && 0 <= m < 9
    ensures ColRow(n) == ColRow(m) ==> n == m
  {
    ColRowRoundTrip(n);
    ColRowRoundTrip(m);
  }

  /** The board draws cell `3 * i + j` in row `i`, column `j` (both from 0); its label is
      row `i + 1` and column `(j + 1) % 3`, so the last column of each row is labelled 0. */
  lemma ColRowOfDrawnCell(i: int, j: int)
    requires 0 <= i < 3 && 0 <= j < 3
    ensures ColRow(3 * i + j) == (i + 1, (j + 1) % 3)
    ensures j == 2 ==> ColRow(3 * i + j).1 == 0
  {
  }

  /** `range(start, stop)` with its default step of 1: the integers from `start`
      up to but excluding `stop`, in increasing order. */
  function Range(start: int, stop: int): (r: seq<int>)
    requires start <= stop
    ensures |r| == stop - start
    ensures forall k :: 0 <= k < |r| ==> r[k] == start + k
    decreases stop - start
  {
    if start == stop then [] else [start] + Range(start + 1, stop)
  }

  /** A number is listed exactly when it lies from `start` up to but excluding `stop`. */
  lemma RangeMembers(start: int, stop: int, x: int)
    requires start <= stop
    ensures x in Range(start, stop) <==> start <= x < stop
  {
    if start <= x < stop {
      assert Range(start, stop)[x - start] == x;
    }
  }

  /** The rows and the columns of the board are both drawn from `range(0, 3)`. */
  lemma RangeZeroThree()
    ensures Range(0, 3) == [0, 1, 2]
  {
  }

  /** Drawing cell `3 * i + j` for `i` and `j` from `range(0, 3)` reaches exactly the cells 0 to 8. */
  lemma DrawnCellsCoverBoard()
    ensures forall i, j :: i in Range(0, 3) && j in Range(0, 3) ==> 0 <= 3 * i + j < 9
    ensures forall n :: 0 <= n < 9 ==> n / 3 in Range(0, 3) && n % 3 in Range(0, 3)
  {
    RangeZeroThree();
  }
}
