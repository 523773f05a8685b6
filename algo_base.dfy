// The basic algorithms of mini_algorithm_base.h on int arrays: a range is a
// pair of indices [first, last) into an array, and an output iterator is an
// index into a (possibly the same) array.

module AlgoBase {

  /** find(first, last, value): the first position in [first, last) holding
      `value`, or `last` when there is none. */
  method Find(a: array<int>, first: nat, last: nat, value: int) returns (i: nat)
    requires first <= last <= a.Length
    ensures first <= i <= last
    ensures forall k :: first <= k < i ==> a[k] != value
    ensures i < last ==> a[i] == value
  {
    i := first;
    while i != last && a[i] != value
      invariant first <= i <= last
      invariant forall k :: first <= k < i ==> a[k] != value
      decreases last - i
    {
      i := i + 1;
    }
  }

  /** A function object that records the arguments it is called with. */
  class Recorder {
    var seen: seq<int>

    constructor ()
      ensures seen == []
    {
      seen := [];
    }

    method Call(x: int)
      modifies this
      ensures seen == old(seen) + [x]
    {
      seen := seen + [x];
    }
  }

  /** for_each(first, last, func): calls func on every element, front to back,
      and returns `last`. */
  method ForEach(a: array<int>, first: nat, last: nat, func: Recorder) returns (it: nat)
    requires first <= last <= a.Length
    modifies func
    ensures it == last && func.seen == old(func.seen) + a[first..last]
  {
    it := first;
    while it != last
      invariant first <= it <= last
      invariant func.seen == old(func.seen) + a[first..it]
      decreases last - it
    {
      func.Call(a[it]);
      assert a[first..it + 1] == a[first..it] + [a[it]];
      it := it + 1;
    }
  }

  /** What every copy promises: [result, result + |src range|) of `dst` holds
      the old source range, and nothing else of `dst` changes. */
  ghost predicate Copied(dst: seq<int>, old_dst: seq<int>, result: nat, from: seq<int>)
  {
    |dst| == |old_dst| && result + |from| <= |dst| &&
    dst[result..result + |from|] == from &&
    forall k {:trigger Outside(k, result, result + |from|)} ::
      0 <= k < |dst| && Outside(k, result, result + |from|) ==> dst[k] == old_dst[k]
  }

  /** k lies outside [lo, hi). */
  predicate Outside(k: int, lo: int, hi: int)
  {
    !(lo <= k < hi)
  }

  /** A copy's outcome is determined by its inputs, so the memmove path and
      the element-wise loops leave the same array whenever all apply. */
  lemma CopiedUnique(d1: seq<int>, d2: seq<int>, old_dst: seq<int>, result: nat, from: seq<int>)
    requires Copied(d1, old_dst, result, from) && Copied(d2, old_dst, result, from)
    ensures d1 == d2
  {
    forall k | 0 <= k < |d1| ensures d1[k] == d2[k] {
      CopiedAt(d1, old_dst, result, from, k);
      CopiedAt(d2, old_dst, result, from, k);
    }
  }

  /** One element after a copy: from the copied range inside it, from the
      old array outside it. */
  lemma CopiedAt(dst: seq<int>, old_dst: seq<int>, result: nat, from: seq<int>, k: nat)
    requires Copied(dst, old_dst, result, from) && k < |dst|
    ensures dst[k] == if result <= k < result + |from| then from[k - result] else old_dst[k]
  {
    if result <= k < result + |from| {
      assert dst[k] == dst[result..result + |from|][k - result];
    } else {
      assert Outside(k, result, result + |from|);
    }
  }

  /** __copy for input iterators: step both iterators until `first` reaches
      `last`.  Within one array the destination may not start inside
      (first, last). */
  method CopyInput(src: array<int>, first: nat, last: nat, dst: array<int>, result: nat)
    returns (r: nat)
    requires first <= last <= src.Length && result + (last - first) <= dst.Length
    requires src != dst || result <= first || last <= result
    modifies dst
    ensures r == result + (last - first)
    ensures Copied(dst[..], old(dst[..]), result, old(src[first..last]))
  {
    var f := first;
    r := result;
    while f != last
      invariant first <= f <= last && r == result + (f - first)
      invariant dst[result..r] == old(src[first..f])
      invariant forall k :: 0 <= k < dst.Length && !(result <= k < r) ==> dst[k] == old(dst[k])
      invariant forall k :: f <= k < last ==> src[k] == old(src[k])
      decreases last - f
    {
      dst[r] := src[f];
      assert old(src[first..f + 1]) == old(src[first..f]) + [old(src[f])];
      r := r + 1;
      f := f + 1;
    }
  }

  /** __copy_d: the same loop, counted down by the distance `last - first`. */
  method CopyD(src: array<int>, first: nat, last: nat, dst: array<int>, result: nat)
    returns (r: nat)
    requires first <= last <= src.Length && result + (last - first) <= dst.Length
    requires src != dst || result <= first || last <= result
    modifies dst
    ensures r == result + (last - first)
    ensures Copied(dst[..], old(dst[..]), result, old(src[first..last]))
  {
    var f := first;
    r := result;
    var n := last - first;
    while n > 0
      invariant first <= f <= last && n == last - f && r == result + (f - first)
      invariant dst[result..r] == old(src[first..f])
      invariant forall k :: 0 <= k < dst.Length && !(result <= k < r) ==> dst[k] == old(dst[k])
      invariant forall k :: f <= k < last ==> src[k] == old(src[k])
    {
      dst[r] := src[f];
      assert old(src[first..f + 1]) == old(src[first..f]) + [old(src[f])];
      n := n - 1;
      r := r + 1;
      f := f + 1;
    }
  }

  /** memmove: copies as if through a temporary buffer, so any overlap of the
      two ranges is allowed. */
  method Memmove(src: array<int>, first: nat, last: nat, dst: array<int>, result: nat)
    requires first <= last <= src.Length && result + (last - first) <= dst.Length
    modifies dst
    ensures Copied(dst[..], old(dst[..]), result, old(src[first..last]))
  {
    var buffer := src[first..last];
    forall i | 0 <= i < |buffer| {
      dst[result + i] := buffer[i];
    }
  }

  /** __copy_t for trivially assignable elements: one memmove. */
  method CopyT(src: array<int>, first: nat, last: nat, dst: array<int>, result: nat)
    returns (r: nat)
    requires first <= last <= src.Length && result + (last - first) <= dst.Length
    modifies dst
    ensures r == result + (last - first)
    ensures Copied(dst[..], old(dst[..]), result, old(src[first..last]))
  {
    Memmove(src, first, last, dst, result);
    r := result + (last - first);
  }

  /** copy(first, last, result) on int pointers: __copy_dispatch<T*, T*> finds
      int trivially assignable and takes the memmove path of __copy_t. */
  method Copy(src: array<int>, first: nat, last: nat, dst: array<int>, result: nat)
    returns (r: nat)
    requires first <= last <= src.Length && result + (last - first) <= dst.Length
    modifies dst
    ensures r == result + (last - first)
    ensures Copied(dst[..], old(dst[..]), result, old(src[first..last]))
  {
    r := CopyT(src, first, last, dst, result);
  }

  /** copy_backward(first, last, d_last): copies back to front into the range
      ending at `d_last` and returns its start.  Within one array the
      destination must end outside (first, last); a destination overlapping
      on the right is fine. */
  method CopyBackward(src: array<int>, first: nat, last: nat, dst: array<int>, dLast: nat)
    returns (r: nat)
    requires first <= last <= src.Length && last - first <= dLast <= dst.Length
    requires src != dst || dLast <= first || last <= dLast
    modifies dst
    ensures r == dLast - (last - first)
    ensures Copied(dst[..], old(dst[..]), r, old(src[first..last]))
  {
    var l := last;
    r := dLast;
    while l != first
      invariant first <= l <= last && dLast - r == last - l
      invariant dst[r..dLast] == old(src[l..last])
      invariant forall k :: 0 <= k < dst.Length && !(r <= k < dLast) ==> dst[k] == old(dst[k])
      invariant forall k :: first <= k < l ==> src[k] == old(src[k])
      decreases l
    {
      r := r - 1;
      l := l - 1;
      dst[r] := src[l];
      assert old(src[l..last]) == [old(src[l])] + old(src[l + 1..last]);
    }
  }
}
