/** The game's state and the transitions the user drives: clicking a cell, jumping to
    an earlier move and toggling the order of the move list. Each transition is a pure
    function from state to state that replaces only the fields it names, the way a
    partial `setState` merges into the old state. */
module Game {
  import opened Squares
  import opened WinCheck

  datatype Option<T> = None | Some(value: T)

  /** One snapshot of the history: a board and the cell played to reach it
      (`None` for the starting board). */
  datatype HistoryData = HistoryData(squares: Board, location: Option<int>)

  /** The state of a game. `xIsNext` is stored alongside `stepNumber`, not derived from it. */
  datatype GameState = GameState(
    history: seq<HistoryData>,
    stepNumber: int,
    xIsNext: bool,
    reverseFlag: bool)

  /** The mark of the player about to move. */
  function MarkFor(xIsNext: bool): (m: SquareValue)
    ensures m != Empty
    ensures (m == X) <==> xIsNext
  {
    if xIsNext then X else O
  }

  /** The first snapshot of every game: the empty board, reached by no move. */
  const Start: HistoryData := HistoryData(EmptyBoard, None)

  /** Snapshot `k` is snapshot `k - 1` with one more mark: the mark of the player whose
      turn it was at move `k - 1`, on a square that was empty, played on a board that
      nobody had won. */
  predicate Follows(history: seq<HistoryData>, k: int)
    requires 1 <= k < |history|
  {
    && history[k].location.Some?
    && 0 <= history[k].location.value < 9
    && Adds(history[k - 1].squares, history[k].squares, history[k].location.value, MarkFor((k - 1) % 2 == 0))
  }

  /** `next` is `prev`, which nobody has won, with mark `m` on its empty square `l`. */
  predicate Adds(prev: Board, next: Board, l: int, m: SquareValue)
    requires 0 <= l < 9
  {
    && prev[l] == Empty
    && Winner(prev) == Empty
    && next == prev[l := m]
  }

  /** The invariant every reachable state keeps. */
  predicate Inv(s: GameState) {
    && 0 <= s.stepNumber < |s.history|
    && s.xIsNext == (s.stepNumber % 2 == 0)
    && s.history[0] == Start
    && forall k :: 1 <= k < |s.history| ==> Follows(s.history, k)
  }

  /** The state a new game starts in. */
  function Initial(): (s: GameState)
    ensures Inv(s)
    ensures |s.history| == 1 && s.stepNumber == 0 && s.xIsNext && !s.reverseFlag
  {
    GameState([Start], 0, true, false)
  }

  /** The states a click can be made in: the history is never empty and the step
      number is never negative. The constructor starts at step 0, a click sets the step
      to the length of the kept history, which is the index of the snapshot it appends,
      and a jump only receives indices the move list shows. */
  predicate Playable(s: GameState) {
    0 <= s.stepNumber && |s.history| > 0
  }

  /** The smaller of `a` and `b`. */
  function Min(a: int, b: int): (m: int)
    ensures m <= a && m <= b
    ensures m == a || m == b
  {
    if a <= b then a else b
  }

  /** The snapshots kept by a click: those up to and including the current step. */
  function Kept(s: GameState): (h: seq<HistoryData>)
    requires Playable(s)
    ensures 1 <= |h| <= |s.history|
    ensures h == s.history[..|h|]
    ensures s.stepNumber < |s.history| ==> |h| == s.stepNumber + 1
    ensures s.stepNumber >= |s.history| ==> h == s.history
  {
    s.history[..Min(s.stepNumber + 1, |s.history|)]
  }

  /** The board a click acts on: the last kept snapshot's. */
  function CurrentBoard(s: GameState): (b: Board)
    requires Playable(s)
    ensures b == Kept(s)[|Kept(s)| - 1].squares
  {
    var h := Kept(s);
    h[|h| - 1].squares
  }

  /** A click on cell `i` is ignored when the game is won or the cell is taken. */
  predicate Rejected(s: GameState, i: int)
    requires Playable(s) && 0 <= i < 9
  {
    Winner(CurrentBoard(s)) != Empty || CurrentBoard(s)[i] != Empty
  }

  /** A click on cell `i`: drop the snapshots after the current step, then, unless the
      click is ignored, append the current board with the mover's mark on `i`. */
  function HandleClick(s: GameState, i: int): (r: GameState)
    requires Playable(s) && 0 <= i < 9
    ensures Playable(r)
    ensures (r == s) <==> Rejected(s, i)
    ensures r.reverseFlag == s.reverseFlag
    ensures !Rejected(s, i) ==>
      && |r.history| == |Kept(s)| + 1
      && r.history[..|Kept(s)|] == Kept(s)
      && r.stepNumber == |r.history| - 1
      && r.xIsNext == !s.xIsNext
      && r.history[r.stepNumber].location == Some(i)
      && r.history[r.stepNumber].squares[i] == MarkFor(s.xIsNext)
      && forall c :: 0 <= c < 9 && c != i ==> r.history[r.stepNumber].squares[c] == CurrentBoard(s)[c]
  {
    if Rejected(s, i) then s
    else
      s.(history := Kept(s) + [HistoryData(CurrentBoard(s)[i := MarkFor(s.xIsNext)], Some(i))],
         stepNumber := |Kept(s)|,
         xIsNext := !s.xIsNext)
  }

  /** Toggle the order of the move list. */
  function HandleSort(s: GameState): (r: GameState)
    ensures r.reverseFlag != s.reverseFlag
    ensures r.history == s.history && r.stepNumber == s.stepNumber && r.xIsNext == s.xIsNext
  {
    s.(reverseFlag := !s.reverseFlag)
  }

  /** Go back (or forward) to move `step`; whose turn it is follows from its parity. */
  function JumpTo(s: GameState, step: int): (r: GameState)
    ensures r.history == s.history && r.reverseFlag == s.reverseFlag
    ensures r.stepNumber == step
    ensures r.xIsNext <==> step % 2 == 0
  {
    // `step % 2 === 0` in the source: JavaScript's `%` and Dafny's agree on whether
    // an integer is even.
    s.(stepNumber := step, xIsNext := step % 2 == 0)
  }

  /** A sequence of clicks, applied one after the other. */
  function Play(s: GameState, moves: seq<int>): (r: GameState)
    requires Playable(s)
    requires forall k :: 0 <= k < |moves| ==> 0 <= moves[k] < 9
    ensures Playable(r)
    ensures r.reverseFlag == s.reverseFlag
    decreases |moves|
  {
    if moves == [] then s else Play(HandleClick(s, moves[0]), moves[1..])
  }

  // ---------------------------------------------------------------------------
  // Properties of the transitions

  /** Under the invariant, a click keeps exactly the snapshots up to the current step
      and acts on the current step's board. */
  lemma KeptUnderInv(s: GameState)
    requires Inv(s)
    ensures Playable(s)
    ensures Kept(s) == s.history[..s.stepNumber + 1]
    ensures CurrentBoard(s) == s.history[s.stepNumber].squares
  {
  }

  /** An accepted click appends one snapshot after the current step: the step number
      moves to it, the turn passes, and the new board is the current one with the
      mover's mark (X exactly when the step was even) on cell `i`. */
  lemma HandleClickAppends(s: GameState, i: int)
    requires Inv(s) && 0 <= i < 9 && !Rejected(s, i)
    ensures HandleClick(s, i).history == s.history[..s.stepNumber + 1] +
      [HistoryData(s.history[s.stepNumber].squares[i := MarkFor(s.stepNumber % 2 == 0)], Some(i))]
    ensures HandleClick(s, i).stepNumber == s.stepNumber + 1
    ensures HandleClick(s, i).xIsNext == !s.xIsNext
  {
    KeptUnderInv(s);
    var r := HandleClick(s, i);
    var expected := s.history[..s.stepNumber + 1] +
      [HistoryData(s.history[s.stepNumber].squares[i := MarkFor(s.stepNumber % 2 == 0)], Some(i))];
    assert r.history[..|r.history| - 1] == expected[..|expected| - 1];
    assert r.history[|r.history| - 1].squares == expected[|expected| - 1].squares;
    assert r.history == r.history[..|r.history| - 1] + [r.history[|r.history| - 1]];
  }

  /** At the newest move a click truncates nothing: an accepted click just appends. */
  lemma ClickAtNewest(s: GameState, i: int)
    requires Inv(s) && s.stepNumber == |s.history| - 1 && 0 <= i < 9
    requires !Rejected(s, i)
    ensures HandleClick(s, i) == GameState(
      s.history + [HistoryData(s.history[s.stepNumber].squares[i := MarkFor(s.xIsNext)], Some(i))],
      s.stepNumber + 1, !s.xIsNext, s.reverseFlag)
    ensures Inv(HandleClick(s, i))
  {
    HandleClickAppends(s, i);
    HandleClickPreservesInv(s, i);
    assert s.history[..s.stepNumber + 1] == s.history;
  }

  /** `s` keeps the invariant, shows its newest move, and that move's board is `b`. */
  predicate AtNewest(s: GameState, b: Board) {
    Inv(s) && s.stepNumber == |s.history| - 1 && s.history[s.stepNumber].squares == b
  }

  /** Move `j` of `moves`, the `k + j`-th of the game, turns `boards[j]` into `boards[j + 1]`:
      it goes to an empty square of a board nobody has won, with the mark whose turn it is. */
  predicate ReplayStep(moves: seq<int>, boards: seq<Board>, k: int, j: int)
    requires 0 <= j < |moves| && |boards| == |moves| + 1
  {
    && 0 <= moves[j] < 9
    && Adds(boards[j], boards[j + 1], moves[j], MarkFor((k + j) % 2 == 0))
  }

  /** An accepted click at the newest move leads to the newest move of one more step. */
  lemma ClickReplays(s: GameState, i: int, b: Board, b': Board)
    requires AtNewest(s, b) && 0 <= i < 9
    requires Adds(b, b', i, MarkFor(s.stepNumber % 2 == 0))
    ensures Playable(s)
    ensures AtNewest(HandleClick(s, i), b')
    ensures HandleClick(s, i).stepNumber == s.stepNumber + 1
  {
    KeptUnderInv(s);
    ClickAtNewest(s, i);
  }

  /** Clicking `moves` at the newest move, where every click is accepted, passes through
      `boards` one board per move and ends at the newest move again. */
  lemma {:induction false} PlayReplays(s: GameState, moves: seq<int>, boards: seq<Board>)
    requires |boards| == |moves| + 1 && AtNewest(s, boards[0])
    requires forall j :: 0 <= j < |moves| ==> ReplayStep(moves, boards, s.stepNumber, j)
    ensures forall j :: 0 <= j < |moves| ==> 0 <= moves[j] < 9
    ensures Playable(s)
    ensures AtNewest(Play(s, moves), boards[|moves|])
    ensures Play(s, moves).stepNumber == s.stepNumber + |moves|
    decreases |moves|
  {
    forall j | 0 <= j < |moves|
      ensures 0 <= moves[j] < 9
    {
      assert ReplayStep(moves, boards, s.stepNumber, j);
    }
    if moves != [] {
      assert ReplayStep(moves, boards, s.stepNumber, 0);
      ClickReplays(s, moves[0], boards[0], boards[1]);
      var s1 := HandleClick(s, moves[0]);
      forall j | 0 <= j < |moves[1..]|
        ensures ReplayStep(moves[1..], boards[1..], s1.stepNumber, j)
      {
        assert ReplayStep(moves, boards, s.stepNumber, j + 1);
      }
      PlayReplays(s1, moves[1..], boards[1..]);
    }
  }

  /** A click preserves the invariant. */
  lemma HandleClickPreservesInv(s: GameState, i: int)
    requires Inv(s) && 0 <= i < 9
    ensures Inv(HandleClick(s, i))
  {
    if !Rejected(s, i) {
      KeptUnderInv(s);
      HandleClickAppends(s, i);
      var r := HandleClick(s, i);
      var p := s.stepNumber;
      forall k | 1 <= k < |r.history|
        ensures Follows(r.history, k)
      {
        if k <= p {
          assert Follows(s.history, k);
          assert r.history[k] == s.history[k] && r.history[k - 1] == s.history[k - 1];
        } else {
          assert r.history[k - 1] == s.history[p];
        }
      }
    }
  }

  /** Clicking the same cell twice in a row changes the state only once. */
  lemma HandleClickTwice(s: GameState, i: int)
    requires Playable(s) && 0 <= i < 9
    ensures HandleClick(HandleClick(s, i), i) == HandleClick(s, i)
  {
    var r := HandleClick(s, i);
    if !Rejected(s, i) {
      assert Kept(r) == r.history;
      assert Rejected(r, i);
    }
  }

  /** Jumping to an existing move preserves the invariant. */
  lemma JumpToPreservesInv(s: GameState, step: int)
    requires Inv(s) && 0 <= step < |s.history|
    ensures Inv(JumpTo(s, step))
  {
    var r := JumpTo(s, step);
    assert forall k :: 1 <= k < |r.history| ==> Follows(r.history, k) == Follows(s.history, k);
  }

  /** Jumping to the move already shown changes nothing. */
  lemma JumpToCurrent(s: GameState)
    requires Inv(s)
    ensures JumpTo(s, s.stepNumber) == s
  {
  }

  /** Jumping back to move `p` and then playing discards every snapshot after `p`
      before the new one is appended. */
  lemma JumpThenClickTruncates(s: GameState, p: int, i: int)
    requires Inv(s) && 0 <= p < |s.history| && 0 <= i < 9
    requires !Rejected(JumpTo(s, p), i)
    ensures HandleClick(JumpTo(s, p), i).history == s.history[..p + 1] +
      [HistoryData(s.history[p].squares[i := MarkFor(p % 2 == 0)], Some(i))]
    ensures HandleClick(JumpTo(s, p), i).stepNumber == p + 1
  {
    JumpToPreservesInv(s, p);
    HandleClickAppends(JumpTo(s, p), i);
  }

  /** Toggling the order preserves the invariant. */
  lemma HandleSortPreservesInv(s: GameState)
    requires Inv(s)
    ensures Inv(HandleSort(s))
  {
    var r := HandleSort(s);
    assert forall k :: 1 <= k < |r.history| ==> Follows(r.history, k) == Follows(s.history, k);
  }

  /** Toggling the order twice gives back the same state. */
  lemma HandleSortTwice(s: GameState)
    ensures HandleSort(HandleSort(s)) == s
  {
  }

  /** Any sequence of clicks from a state that keeps the invariant keeps it. */
  lemma {:induction false} PlayPreservesInv(s: GameState, moves: seq<int>)
    requires Inv(s)
    requires forall k :: 0 <= k < |moves| ==> 0 <= moves[k] < 9
    ensures Inv(Play(s, moves))
    decreases |moves|
  {
    if moves != [] {
      HandleClickPreservesInv(s, moves[0]);
      PlayPreservesInv(HandleClick(s, moves[0]), moves[1..]);
    }
  }

  /** Snapshot `k` holds `k` marks: X has played on every even move and O on every odd
      one, so X has `(k + 1) / 2` marks and O has `k / 2`. */
  lemma {:induction false} SnapshotCounts(s: GameState, k: int)
    requires Inv(s) && 0 <= k < |s.history|
    ensures CountOf(s.history[k].squares, X) == (k + 1) / 2
    ensures CountOf(s.history[k].squares, O) == k / 2
    ensures CountOf(s.history[k].squares, Empty) == 9 - k
  {
    if k == 0 {
      EmptyBoardCounts();
    } else {
      SnapshotCounts(s, k - 1);
      assert Follows(s.history, k);
      var prev := s.history[k - 1].squares;
      var l := s.history[k].location.value;
      var m := MarkFor((k - 1) % 2 == 0);
      CountUpdate(prev, l, m, X);
      CountUpdate(prev, l, m, O);
      CountUpdate(prev, l, m, Empty);
    }
  }

  /** A game has at most nine moves, so its history has at most ten snapshots. */
  lemma HistoryAtMostTen(s: GameState)
    requires Inv(s)
    ensures |s.history| <= 10
  {
    SnapshotCounts(s, |s.history| - 1);
  }

  /** Nobody can have won before the fifth move. */
  lemma NoWinnerBeforeFifthMove(s: GameState, k: int)
    requires Inv(s) && 0 <= k < |s.history| && k < 5
    ensures Winner(s.history[k].squares) == Empty
  {
    SnapshotCounts(s, k);
    WinnerHasThreeMarks(s.history[k].squares);
  }
}
