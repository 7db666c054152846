/** The order in which the move list shows the history: every snapshot paired with
    its position, listed oldest first, or newest first when the order is reversed. */
module HistoryView {

  /** The elements of `s` in the opposite order. */
  function Reverse<T>(s: seq<T>): (r: seq<T>)
    ensures |r| == |s|
    ensures forall k :: 0 <= k < |s| ==> r[k] == s[|s| - 1 - k]
  {
    if s == [] then [] else Reverse(s[1..]) + [s[0]]
  }

  /** Reversing twice gives back the original sequence. */
  lemma ReverseReverse<T>(s: seq<T>)
    ensures Reverse(Reverse(s)) == s
  {
  }

  /** Each snapshot paired with its position in the history. */
  function Indexed<T>(history: seq<T>): (r: seq<(nat, T)>)
    ensures |r| == |history|
    ensures forall k :: 0 <= k < |r| ==> r[k].0 == k && r[k].1 == history[k]
  {
    seq(|history|, k requires 0 <= k < |history| => (k as nat, history[k]))
  }

  /** The listing of the move list: the indexed history, reversed when `reverseFlag` is set. */
  function Ordered<T>(history: seq<T>, reverseFlag: bool): (r: seq<(nat, T)>)
    ensures |r| == |history|
    ensures forall k :: 0 <= k < |r| ==> r[k].0 < |history| && r[k].1 == history[r[k].0]
    ensures !reverseFlag ==> forall k :: 0 <= k < |r| ==> r[k].0 == k
    ensures reverseFlag ==> forall k :: 0 <= k < |r| ==> r[k].0 == |history| - 1 - k
  {
    var indexed := Indexed(history);
    if reverseFlag then Reverse(indexed) else indexed
  }

  /** Position `p` appears in the listing `r`. */
  predicate Listed<T>(r: seq<(nat, T)>, p: int) {
    exists k :: 0 <= k < |r| && r[k].0 == p
  }

  /** Every position of the history is listed exactly once, in ascending order,
      or in descending order when reversed. */
  lemma OrderedListsEachPositionOnce<T>(history: seq<T>, reverseFlag: bool)
    ensures forall p :: 0 <= p < |history| ==> Listed(Ordered(history, reverseFlag), p)
    ensures forall k, k' :: 0 <= k < k' < |history| ==>
      if reverseFlag then Ordered(history, reverseFlag)[k].0 > Ordered(history, reverseFlag)[k'].0
      else Ordered(history, reverseFlag)[k].0 < Ordered(history, reverseFlag)[k'].0
  {
    var r := Ordered(history, reverseFlag);
    forall p | 0 <= p < |history|
      ensures Listed(r, p)
    {
      var k := if reverseFlag then |history| - 1 - p else p;
      assert r[k].0 == p;
    }
  }

  /** Listing in the other order gives the same entries reversed. */
  lemma OrderedToggle<T>(history: seq<T>, reverseFlag: bool)
    ensures Ordered(history, !reverseFlag) == Reverse(Ordered(history, reverseFlag))
  {
    ReverseReverse(Indexed(history));
  }
}
