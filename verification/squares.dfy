/** Cells and boards of the tic-tac-toe game: the three values a square can hold,
    the 9-cell board in row-major order, counting marks on a board and swapping
    the two players' marks. */
module Squares {

  /** The value of one square; `Empty` stands for the source's `null`. */
  datatype SquareValue = X | O | Empty

  /** A board is a row-major sequence of exactly 9 squares. */
  type Board = s: seq<SquareValue> | |s| == 9
    witness [Empty, Empty, Empty, Empty, Empty, Empty, Empty, Empty, Empty]

  /** An index into a board. */
  type Cell = i: int | 0 <= i < 9

  /** The board every game starts from: nine empty squares. */
  const EmptyBoard: Board := [Empty, Empty, Empty, Empty, Empty, Empty, Empty, Empty, Empty]

  /** The other player's mark; `Empty` stays `Empty`. */
  function Swap(v: SquareValue): (w: SquareValue)
    ensures (w == Empty) <==> (v == Empty)
    ensures v != Empty ==> w != v
  {
    match v
    case X => O
    case O => X
    case Empty => Empty
  }

  /** The board with every X replaced by O and every O by X. */
  function SwapBoard(b: Board): (r: Board)
    ensures forall k :: 0 <= k < 9 ==> Swap(r[k]) == b[k]
  {
    seq(9, k requires 0 <= k < 9 => Swap(b[k]))
  }

  /** The number of squares of `s` that hold `v`. */
  function CountOf(s: seq<SquareValue>, v: SquareValue): (n: nat)
    ensures n <= |s|
    ensures n == 0 <==> forall k :: 0 <= k < |s| ==> s[k] != v
  {
    if s == [] then 0
    else (if s[0] == v then 1 else 0) + CountOf(s[1..], v)
  }

  /** Overwriting one square moves one unit of count from its old value to its new one. */
  lemma {:induction false} CountUpdate(s: seq<SquareValue>, l: int, v: SquareValue, w: SquareValue)
    requires 0 <= l < |s|
    ensures CountOf(s[l := v], w) + (if s[l] == w then 1 else 0)
         == CountOf(s, w) + (if v == w then 1 else 0)
  {
    if l == 0 {
      assert s[l := v][1..] == s[1..];
    } else {
      assert s[l := v][1..] == s[1..][l - 1 := v];
      CountUpdate(s[1..], l - 1, v, w);
    }
  }

  /** Three distinct squares holding `v` make its count at least three. */
  lemma ThreeSquaresCount(s: seq<SquareValue>, a: int, b: int, c: int, v: SquareValue)
    requires 0 <= a < |s| && 0 <= b < |s| && 0 <= c < |s|
    requires a != b && b != c && a != c
    requires v != Empty && s[a] == v && s[b] == v && s[c] == v
    ensures CountOf(s, v) >= 3
  {
    var s1 := s[a := Empty];
    CountUpdate(s, a, Empty, v);
    var s2 := s1[b := Empty];
    CountUpdate(s1, b, Empty, v);
    CountUpdate(s2, c, Empty, v);
  }

  /** A sequence whose every square holds `v` counts `v` once per square. */
  lemma {:induction false} CountUniform(s: seq<SquareValue>, v: SquareValue)
    requires forall k :: 0 <= k < |s| ==> s[k] == v
    ensures CountOf(s, v) == |s|
  {
    if s != [] {
      CountUniform(s[1..], v);
    }
  }

  /** Every square of the empty board is empty, so it holds nine `Empty`s and no marks. */
  lemma EmptyBoardCounts()
    ensures CountOf(EmptyBoard, Empty) == 9
    ensures CountOf(EmptyBoard, X) == 0 && CountOf(EmptyBoard, O) == 0
  {
    CountUniform(EmptyBoard, Empty);
  }
}
