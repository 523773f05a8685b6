// Element moves inside a deque: what algo::copy and algo::copy_backward do to the element
// sequence, and how deque::erase and deque::insert combine them with a push or a pop.
module DequeShift {

  /**
   * The sequence e after the n elements starting at index src have been copied onto the n
   * slots starting at index dst. The copy direction (forward when dst <= src, backward
   * otherwise) is what makes the overlapping case come out like this.
   */
  ghost function Shifted(e: seq<int>, src: nat, dst: nat, n: nat): (r: seq<int>)
    requires src + n <= |e| && dst + n <= |e|
    ensures |r| == |e|
  {
    seq(|e|, p requires 0 <= p < |e| => if dst <= p < dst + n then e[p - dst + src] else e[p])
  }

  lemma ShiftNone(e: seq<int>, src: nat, dst: nat)
    requires src <= |e| && dst <= |e|
    ensures Shifted(e, src, dst, 0) == e
  {
  }

  /** One more step of a forward copy: the source slot it reads has not been written yet. */
  lemma ShiftStep(e: seq<int>, src: nat, dst: nat, i: nat)
    requires dst <= src && src + i < |e|
    ensures Shifted(e, src, dst, i)[src + i] == e[src + i]
    ensures Shifted(e, src, dst, i)[dst + i := e[src + i]] == Shifted(e, src, dst, i + 1)
  {
  }

  /** One more step of a backward copy, which fills the destination from its far end. */
  lemma ShiftStepBack(e: seq<int>, src: nat, dst: nat, i: nat, n: nat)
    requires src <= dst && 1 <= i <= n && dst + n <= |e|
    ensures Shifted(e, src + i, dst + i, n - i)[src + i - 1] == e[src + i - 1]
    ensures Shifted(e, src + i, dst + i, n - i)[dst + i - 1 := e[src + i - 1]] ==
            Shifted(e, src + i - 1, dst + i - 1, n - i + 1)
  {
  }

  /** erase(pos) with few elements before pos: copy_backward(begin, pos, pos + 1), then pop_front. */
  lemma EraseByFront(e: seq<int>, idx: nat)
    requires idx < |e|
    ensures Shifted(e, 0, 1, idx)[1..] == e[..idx] + e[idx + 1..]
  {
    var r := Shifted(e, 0, 1, idx)[1..];
    assert forall p :: 0 <= p < |r| ==> r[p] == (e[..idx] + e[idx + 1..])[p];
  }

  /** erase(pos) otherwise: copy(pos + 1, end, pos), then pop_back. */
  lemma EraseByBack(e: seq<int>, idx: nat)
    requires idx < |e|
    ensures Shifted(e, idx + 1, idx, |e| - idx - 1)[..|e| - 1] == e[..idx] + e[idx + 1..]
  {
    var r := Shifted(e, idx + 1, idx, |e| - idx - 1)[..|e| - 1];
    assert forall p :: 0 <= p < |r| ==> r[p] == (e[..idx] + e[idx + 1..])[p];
  }

  /** erase(first, last) moving the front: copy_backward(begin, first, last), then drop l - f in front. */
  lemma EraseRangeByFront(e: seq<int>, f: nat, l: nat)
    requires f <= l <= |e|
    ensures Shifted(e, 0, l - f, f)[l - f..] == e[..f] + e[l..]
  {
    var r := Shifted(e, 0, l - f, f)[l - f..];
    assert forall p :: 0 <= p < |r| ==> r[p] == (e[..f] + e[l..])[p];
  }

  /** erase(first, last) moving the back: copy(last, end, first), then drop l - f at the back. */
  lemma EraseRangeByBack(e: seq<int>, f: nat, l: nat)
    requires f <= l <= |e|
    ensures Shifted(e, l, f, |e| - l)[..|e| - (l - f)] == e[..f] + e[l..]
  {
    var r := Shifted(e, l, f, |e| - l)[..|e| - (l - f)];
    assert forall p :: 0 <= p < |r| ==> r[p] == (e[..f] + e[l..])[p];
  }

  /**
   * insert_aux towards the front, as intended: push_front(front()), then copy the elements
   * [2, idx + 1) one slot to the front and write v at index idx.
   */
  lemma InsertByFront(e: seq<int>, idx: nat, v: int)
    requires 1 <= idx < |e|
    ensures Shifted([e[0]] + e, 2, 1, idx - 1)[idx := v] == e[..idx] + [v] + e[idx..]
  {
    var r := Shifted([e[0]] + e, 2, 1, idx - 1)[idx := v];
    assert forall p :: 0 <= p < |r| ==> r[p] == (e[..idx] + [v] + e[idx..])[p];
  }

  /**
   * insert_aux towards the front, as written: pos is not moved after push_front, so the copy
   * stops one element short and v lands one slot too late, over the element that was at idx.
   */
  lemma InsertByFrontAsWritten(e: seq<int>, idx: nat, v: int)
    requires 1 <= idx < |e|
    ensures Shifted([e[0]] + e, 2, 1, idx - 1)[idx + 1 := v] == e[..idx] + [e[idx - 1]] + [v] + e[idx + 1..]
  {
    var r := Shifted([e[0]] + e, 2, 1, idx - 1)[idx + 1 := v];
    assert forall p :: 0 <= p < |r| ==> r[p] == (e[..idx] + [e[idx - 1]] + [v] + e[idx + 1..])[p];
  }

  /** The as-written front branch on [1, 2, 3, 4] at index 1 gives [1, 1, 9, 3, 4], not [1, 9, 2, 3, 4]. */
  lemma InsertByFrontAsWrittenLoses()
    ensures var e := [1, 2, 3, 4];
      Shifted([e[0]] + e, 2, 1, 0)[2 := 9] == [1, 1, 9, 3, 4] &&
      Shifted([e[0]] + e, 2, 1, 0)[2 := 9] != e[..1] + [9] + e[1..]
  {
    var e := [1, 2, 3, 4];
    InsertByFrontAsWritten(e, 1, 9);
    assert e[..1] + [e[0]] + [9] + e[2..] == [1, 1, 9, 3, 4];
    assert (e[..1] + [9] + e[1..])[2] == 2;
  }

  /**
   * insert_aux towards the back: push_back(back()), then copy_backward the elements
   * [idx, |e| - 1) one slot to the back and write v at index idx.
   */
  lemma InsertByBack(e: seq<int>, idx: nat, v: int)
    requires idx < |e|
    ensures Shifted(e + [e[|e| - 1]], idx, idx + 1, |e| - 1 - idx)[idx := v] == e[..idx] + [v] + e[idx..]
  {
    var r := Shifted(e + [e[|e| - 1]], idx, idx + 1, |e| - 1 - idx)[idx := v];
    assert forall p :: 0 <= p < |r| ==> r[p] == (e[..idx] + [v] + e[idx..])[p];
  }
}
