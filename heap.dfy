// The binary max-heap algorithms of mini_algorithm_heap.h on the range
// [0, len) of an int array: node i has children 2i+1 and 2i+2 and parent
// (i-1)/2.

module Heap {

  /** Node `c` is a child of node `p`. */
  predicate ChildOf(c: nat, p: nat)
  {
    c == 2 * p + 1 || c == 2 * p + 2
  }

  /** In [0, n) of `s`, every node at index `top` or beyond is at least its
      children: the nodes from `top` on head heaps. */
  ghost predicate HeapFrom(s: seq<int>, n: nat, top: nat)
  {
    n <= |s| &&
    forall p: nat, c: nat {:trigger ChildOf(c, p)} :: top <= p && c < n && ChildOf(c, p) ==> s[c] <= s[p]
  }

  /** A max-heap. */
  ghost predicate IsHeap(s: seq<int>)
  {
    HeapFrom(s, |s|, 0)
  }

  ghost predicate Sorted(s: seq<int>)
  {
    forall i, j :: 0 <= i < j < |s| ==> s[i] <= s[j]
  }

  /** `s` and `t` have the same length and agree from index `from` on. */
  ghost predicate AgreeFrom(s: seq<int>, t: seq<int>, from: nat)
  {
    |s| == |t| && forall k :: from <= k < |s| ==> s[k] == t[k]
  }

  lemma AgreeWrite(s: seq<int>, t: seq<int>, from: nat, h: nat, x: int)
    requires AgreeFrom(s, t, from) && h < from && h < |s|
    ensures AgreeFrom(s[h := x], t, from)
  {
  }

  // While a value travels, index `hole` holds a stale copy.  These say what
  // holds around the hole, for the nodes from `top` on.

  /** Node `x` lies in the subtree rooted at node `top`. */
  ghost predicate Descends(x: nat, top: nat)
    decreases x
  {
    x == top || (top < x && Descends((x - 1) / 2, top))
  }

  /** The heap order holds on every parent-child pair not touching the hole. */
  ghost predicate HeapBut(s: seq<int>, n: nat, top: nat, hole: nat)
  {
    n <= |s| &&
    forall p: nat, c: nat {:trigger ChildOf(c, p)} :: top <= p && c < n && ChildOf(c, p) && c != hole && p != hole ==>
      s[c] <= s[p]
  }

  /** In [0, n), the children of node `h` are at most `x`. */
  ghost predicate ChildrenAtMost(s: seq<int>, n: nat, h: nat, x: int)
    requires n <= |s|
  {
    (2 * h + 1 < n ==> s[2 * h + 1] <= x) && (2 * h + 2 < n ==> s[2 * h + 2] <= x)
  }

  /** The hole's parent is at least the hole's children. */
  ghost predicate AboveHole(s: seq<int>, n: nat, top: nat, hole: nat)
    requires n <= |s|
  {
    top < hole < n ==> ChildrenAtMost(s, n, hole, s[(hole - 1) / 2])
  }

  /** The travelling value is at least the hole's children. */
  ghost predicate BelowValue(s: seq<int>, n: nat, hole: nat, value: int)
    requires n <= |s|
  {
    ChildrenAtMost(s, n, hole, value)
  }

  /** The state around the hole while __adjust_heap sinks it from `top`, in the
      heap [0, n) of `s`. */
  ghost predicate Sinking(s: seq<int>, n: nat, top: nat, h: nat)
  {
    top <= h < n <= |s| && Descends(h, top) && HeapBut(s, n, top, h) && AboveHole(s, n, top, h)
  }

  /** The state around a travelling value while __push_heap raises it. */
  ghost predicate Rising(s: seq<int>, n: nat, top: nat, h: nat, value: int)
  {
    Sinking(s, n, top, h) && BelowValue(s, n, h, value)
  }

  /** A node of a subtree is numbered no lower than its root. */
  lemma {:induction false} DescendsAbove(x: nat, top: nat)
    requires Descends(x, top)
    ensures top <= x
    decreases x
  {
    if x != top {
      DescendsAbove((x - 1) / 2, top);
    }
  }

  /** The root of a heap is its largest element. */
  lemma {:induction false} HeapRootMax(s: seq<int>, i: nat)
    requires IsHeap(s) && i < |s|
    ensures s[i] <= s[0]
    decreases i
  {
    if i > 0 {
      var p := (i - 1) / 2;
      assert ChildOf(i, p) && s[i] <= s[p];
      HeapRootMax(s, p);
    }
  }

  /** One step of __push_heap: the parent, smaller than the value, moves down
      into the hole, and the hole moves up to the parent. */
  lemma PushStep(s: seq<int>, n: nat, top: nat, h: nat, value: int)
    requires Rising(s, n, top, h, value) && top < h && s[(h - 1) / 2] < value
    ensures var p := (h - 1) / 2; var t := s[h := s[p]];
      Rising(t, n, top, p, value) && multiset(t[p := value]) == multiset(s[h := value])
  {
    var p := (h - 1) / 2;
    PushStepOrder(s, n, top, h);
    PushStepAbove(s, n, top, h);
    PushStepBelow(s, n, top, h, value);
    MoveHole(s, h, p, value);
  }

  lemma PushStepOrder(s: seq<int>, n: nat, top: nat, h: nat)
    requires top < h < n <= |s| && HeapBut(s, n, top, h) && AboveHole(s, n, top, h)
    ensures HeapBut(s[h := s[(h - 1) / 2]], n, top, (h - 1) / 2)
  {
    var p := (h - 1) / 2;
    var t := s[h := s[p]];
    forall q: nat, c: nat | top <= q && c < n && ChildOf(c, q) && c != p && q != p ensures t[c] <= t[q] {
      if q == h {
        assert t[c] == s[c];
      }
    }
  }

  lemma PushStepAbove(s: seq<int>, n: nat, top: nat, h: nat)
    requires top < h < n <= |s| && Descends(h, top) && HeapBut(s, n, top, h)
    ensures Descends((h - 1) / 2, top) && AboveHole(s[h := s[(h - 1) / 2]], n, top, (h - 1) / 2)
  {
    var p := (h - 1) / 2;
    if top < p {
      var g := (p - 1) / 2;
      DescendsAbove(g, top);
      assert ChildOf(p, g);
      assert s[p] <= s[g];
      if 2 * p + 1 != h && 2 * p + 1 < n {
        assert ChildOf(2 * p + 1, p);
        assert s[2 * p + 1] <= s[p];
      }
      if 2 * p + 2 != h && 2 * p + 2 < n {
        assert ChildOf(2 * p + 2, p);
        assert s[2 * p + 2] <= s[p];
      }
    }
  }

  lemma PushStepBelow(s: seq<int>, n: nat, top: nat, h: nat, value: int)
    requires top < h < n <= |s| && s[(h - 1) / 2] < value && Descends(h, top) && HeapBut(s, n, top, h)
    ensures BelowValue(s[h := s[(h - 1) / 2]], n, (h - 1) / 2, value)
  {
    var p := (h - 1) / 2;
    DescendsAbove(p, top);
    if 2 * p + 1 != h && 2 * p + 1 < n {
      assert ChildOf(2 * p + 1, p);
      assert s[2 * p + 1] <= s[p];
    }
    if 2 * p + 2 != h && 2 * p + 2 < n {
      assert ChildOf(2 * p + 2, p);
      assert s[2 * p + 2] <= s[p];
    }
  }

  /** Copying position `p` into the hole at `h` and then writing `value` at `p`
      leaves the same elements as writing `value` at `h`. */
  lemma MoveHole(s: seq<int>, h: nat, p: nat, value: int)
    requires h < |s| && p < |s|
    ensures multiset(s[h := s[p]][p := value]) == multiset(s[h := value])
  {
    var t := s[h := s[p]];
    if h != p {
      assert t[p] == s[p];
      assert multiset(t) == multiset(s) - multiset{s[h]} + multiset{s[p]};
      assert multiset(t[p := value]) == multiset(t) - multiset{s[p]} + multiset{value};
    }
  }

  /** Storing the value in the hole once its parent is not smaller (or the
      hole is at `top`) restores the heap from `top` on. */
  lemma PushDone(s: seq<int>, n: nat, top: nat, h: nat, value: int)
    requires Rising(s, n, top, h, value) && (h == top || value <= s[(h - 1) / 2])
    ensures HeapFrom(s[h := value], n, top)
  {
    var t := s[h := value];
    forall p: nat, c: nat | top <= p && c < n && ChildOf(c, p) ensures t[c] <= t[p] {
      if c == h {
        DescendsAbove(h, top);
        assert p == (h - 1) / 2;
      }
    }
  }

  /** __push_heap(first, hole, top, value): moves parents smaller than `value`
      down into the hole while the hole is below `top`, then stores `value`.
      `len` is the extent of the heap the hole lies in. */
  method PushHole(a: array<int>, hole: nat, top: nat, value: int, ghost len: nat)
    requires Rising(a[..], len, top, hole, value)
    modifies a
    ensures HeapFrom(a[..], len, top) && multiset(a[..]) == multiset(old(a[..])[hole := value])
    ensures forall k :: 0 <= k < a.Length && (k < top || hole < k) ==> a[k] == old(a[k])
    ensures hole == top ==> a[..] == old(a[..])[hole := value]
  {
    var h: nat := hole;
    while h > top && a[(h - 1) / 2] < value
      invariant h <= hole && Rising(a[..], len, top, h, value)
      invariant multiset(a[..][h := value]) == multiset(old(a[..])[hole := value])
      invariant forall k :: 0 <= k < a.Length && (k < top || hole < k) ==> a[k] == old(a[k])
      invariant h == hole ==> a[..] == old(a[..])
      decreases h
    {
      var parent: nat := (h - 1) / 2;
      ghost var s := a[..];
      PushStep(s, len, top, h, value);
      a[h] := a[parent];
      assert a[..] == s[h := s[parent]];
      h := parent;
    }
    ghost var s := a[..];
    PushDone(s, len, top, h, value);
    a[h] := value;
    assert a[..] == s[h := value];
  }

  /** Starting __adjust_heap: below a node whose subtrees are heaps, the hole
      is the node itself. */
  lemma SinkStart(s: seq<int>, n: nat, top: nat)
    requires top < n <= |s| && HeapFrom(s, n, top + 1)
    ensures Sinking(s, n, top, top)
  {
  }

  /** One step of __adjust_heap: the larger child `m` of the hole moves up into
      it, and the hole moves down to `m`. */
  lemma SinkStep(s: seq<int>, n: nat, top: nat, h: nat, m: nat)
    requires Sinking(s, n, top, h) && m < n && ChildOf(m, h) && ChildrenAtMost(s, n, h, s[m])
    ensures Sinking(s[h := s[m]], n, top, m)
  {
    var t := s[h := s[m]];
    forall q: nat, c: nat | top <= q && c < n && ChildOf(c, q) && c != m && q != m ensures t[c] <= t[q] {
      if q == h {
        assert t[c] == s[c];
      }
      if c == h {
        assert q == (h - 1) / 2;
      }
    }
    if 2 * m + 1 < n {
      assert ChildOf(2 * m + 1, m);
    }
    if 2 * m + 2 < n {
      assert ChildOf(2 * m + 2, m);
    }
    assert (m - 1) / 2 == h;
  }

  /** A hole without children can take any value. */
  lemma SinkDone(s: seq<int>, n: nat, top: nat, h: nat, value: int)
    requires Sinking(s, n, top, h) && n <= 2 * h + 1
    ensures Rising(s, n, top, h, value)
  {
  }

  /** __adjust_heap(first, hole, len, value): sinks the hole at `hole` to the
      bottom of [0, len) along the larger children, then raises `value` from
      there no higher than `hole`.  The nodes below `hole` must head heaps;
      only the subtree of `hole` changes. */
  method AdjustHeap(a: array<int>, hole: nat, len: nat, value: int)
    requires hole < a.Length && len <= a.Length && HeapFrom(a[..], len, hole + 1)
    modifies a
    ensures HeapFrom(a[..], len, hole) && multiset(a[..]) == multiset(old(a[..])[hole := value])
    ensures forall k :: len <= k < a.Length && k != hole ==> a[k] == old(a[k])
    ensures len <= hole ==> a[hole] == value
  {
    var top := hole;
    ghost var n := if hole < len then len else hole + 1;
    var h := SinkHole(a, hole, len, n, value);
    SinkDone(a[..], n, top, h, value);
    PushHole(a, h, top, value, n);
  }

  /** The descent of __adjust_heap: the hole moves down to a node without
      children in [0, len), each time taking the place of its larger child.
      `n` is `len`, or `hole + 1` when the hole lies outside [0, len). */
  method SinkHole(a: array<int>, hole: nat, len: nat, ghost n: nat, ghost value: int) returns (h: nat)
    requires hole < a.Length && len <= a.Length && HeapFrom(a[..], len, hole + 1)
    requires n == if hole < len then len else hole + 1
    modifies a
    ensures Descent(a[..], old(a[..]), n, len, hole, h, value) && n <= 2 * h + 1
    ensures len <= hole ==> h == hole
  {
    h := hole;
    var candidate := 2 * hole + 2;
    SinkStart(a[..], n, hole);
    while candidate < len
      invariant candidate == 2 * h + 2 && Descent(a[..], old(a[..]), n, len, hole, h, value)
      invariant len <= hole ==> h == hole
      decreases len - candidate
    {
      candidate := SinkOnce(a, n, len, hole, h, value, old(a[..]));
      h := candidate;
      candidate := 2 * (candidate + 1);
    }
    if candidate == len {
      MoveDown(a, n, len, hole, h, candidate - 1, value, old(a[..]));
      h := candidate - 1;
    }
  }

  /** What the descent keeps, against the array `s0` it started from: the
      hole state, the elements with `value` in the hole, and [len, |s0|). */
  ghost predicate Descent(s: seq<int>, s0: seq<int>, n: nat, len: nat, top: nat, h: nat, value: int)
  {
    AgreeFrom(s, s0, len) && Sinking(s, n, top, h) &&
    multiset(s[h := value]) == multiset(s0[top := value])
  }

  /** One step of the descent keeps it. */
  lemma DescentStep(s: seq<int>, s0: seq<int>, n: nat, len: nat, top: nat, h: nat, m: nat, value: int)
    requires Descent(s, s0, n, len, top, h, value) && m < n && h < len && ChildOf(m, h)
    requires ChildrenAtMost(s, n, h, s[m])
    ensures Descent(s[h := s[m]], s0, n, len, top, m, value)
  {
    SinkStep(s, n, top, h, m);
    MoveHole(s, h, m, value);
    AgreeWrite(s, s0, len, h, s[m]);
  }

  /** The body of the descent loop: the larger child of the hole `h`, the
      left one only when it is strictly larger, moves up into the hole. */
  method SinkOnce(a: array<int>, ghost n: nat, len: nat, top: nat, h: nat,
                  ghost value: int, ghost s0: seq<int>) returns (m: nat)
    requires Descent(a[..], s0, n, len, top, h, value) && 2 * h + 2 < len <= n
    modifies a
    ensures ChildOf(m, h) && m < len
    ensures m == 2 * h + 1 <==> old(a[2 * h + 1]) > old(a[2 * h + 2])
    ensures a[..] == old(a[..])[h := old(a[m])]
    ensures Descent(a[..], s0, n, len, top, m, value)
  {
    m := 2 * h + 2;
    if a[m - 1] > a[m] {
      m := m - 1;
    }
    MoveDown(a, n, len, top, h, m, value, s0);
  }

  /** One step of the descent on the array: the larger child `m` of the hole
      `h` moves up into the hole, and `m` becomes the hole. */
  method MoveDown(a: array<int>, ghost n: nat, ghost len: nat, top: nat, h: nat, m: nat,
                  ghost value: int, ghost s0: seq<int>)
    requires Descent(a[..], s0, n, len, top, h, value) && m < n && h < len && ChildOf(m, h)
    requires ChildrenAtMost(a[..], n, h, a[m])
    modifies a
    ensures a[..] == old(a[..])[h := old(a[m])]
    ensures Descent(a[..], s0, n, len, top, m, value)
  {
    ghost var s := a[..];
    DescentStep(s, s0, n, len, top, h, m, value);
    a[h] := a[m];
    assert a[..] == s[h := s[m]];
  }

  // ---------------------------------------------------------------------
  // The public algorithms, on the range [0, len) of the array.

  /** push_heap(first, last): the element at len-1 joins the heap [0, len-1). */
  method PushHeap(a: array<int>, len: nat)
    requires 1 <= len <= a.Length && IsHeap(a[..len - 1])
    modifies a
    ensures IsHeap(a[..len]) && multiset(a[..len]) == multiset(old(a[..len]))
    ensures a[len..] == old(a[len..])
  {
    HeapPrefix(a[..], len - 1, 0);
    PushStart(a[..], len);
    ghost var s := a[..];
    PushHole(a, len - 1, 0, a[len - 1], len);
    PushFinish(s, a[..], len);
  }

  /** pop_heap(first, last): the largest element moves to len-1, and the rest
      of [0, len) is made a heap again. */
  method PopHeap(a: array<int>, len: nat)
    requires 1 <= len <= a.Length && IsHeap(a[..len])
    modifies a
    ensures a[len - 1] == old(a[0]) && IsHeap(a[..len - 1])
    ensures forall k :: 0 <= k < len - 1 ==> a[k] <= a[len - 1]
    ensures multiset(a[..len]) == multiset(old(a[..len]))
    ensures a[len..] == old(a[len..])
  {
    ghost var s := a[..];
    HeapPrefix(s, len, 0);
    var value := a[len - 1];
    a[len - 1] := a[0];
    PopStart(s, len, s[0]);
    assert a[..] == s[len - 1 := s[0]];
    AdjustHeap(a, 0, len - 1, value);
    PopFinish(s, a[..], len);
  }

  /** sort_heap(first, last): pops the heap until one element is left, which
      sorts [0, len) into ascending order. */
  method SortHeap(a: array<int>, len: nat)
    requires len <= a.Length && IsHeap(a[..len])
    modifies a
    ensures Sorted(a[..len]) && multiset(a[..len]) == multiset(old(a[..len]))
    ensures a[len..] == old(a[len..])
  {
    var last: nat := len;
    while last > 1
      invariant last <= len && IsHeap(a[..last])
      invariant Sorted(a[last..len]) && Below(a[..len], last)
      invariant multiset(a[..len]) == multiset(old(a[..len]))
      invariant a[len..] == old(a[len..])
      decreases last
    {
      ghost var s := a[..];
      PopHeap(a, last);
      PopKeeps(s, a[..], last, len);
      last := last - 1;
    }
    SortedJoin(a[..len], last);
  }

  /** make_heap(first, last): adjusts every inner node, from the last one up
      to the root, which arranges [0, len) into a heap. */
  method MakeHeap(a: array<int>, len: nat)
    requires len <= a.Length
    modifies a
    ensures IsHeap(a[..len]) && multiset(a[..len]) == multiset(old(a[..len]))
    ensures a[len..] == old(a[len..])
  {
    if len <= 1 {
      LeavesHeap(a[..len], len, 0);
      return;
    }
    var hole: nat := (len - 2) / 2;
    LeavesHeap(a[..], len, hole + 1);
    while true
      invariant hole < len && HeapFrom(a[..], len, hole + 1)
      invariant multiset(a[..]) == multiset(old(a[..])) && a[len..] == old(a[len..])
      decreases hole
    {
      ghost var s := a[..];
      AdjustHeap(a, hole, len, a[hole]);
      assert s[hole := s[hole]] == s;
      assert a[len..] == s[len..];
      if hole == 0 {
        break;
      }
      hole := hole - 1;
    }
    HeapPrefix(a[..], len, 0);
    PrefixMultiset(a[..], old(a[..]), len);
  }

  // ---------------------------------------------------------------------
  // Lemmas for the public algorithms.

  /** Every node lies in the subtree of the root. */
  lemma {:induction false} DescendsRoot(x: nat)
    ensures Descends(x, 0)
    decreases x
  {
    if x > 0 {
      DescendsRoot((x - 1) / 2);
    }
  }

  /** The heap order on [0, n) only looks at the first n elements. */
  lemma HeapPrefix(s: seq<int>, n: nat, top: nat)
    requires n <= |s|
    ensures HeapFrom(s, n, top) <==> HeapFrom(s[..n], n, top)
  {
  }

  /** Nodes whose children all fall outside [0, n) head heaps. */
  lemma LeavesHeap(s: seq<int>, n: nat, top: nat)
    requires n <= |s| && n <= 2 * top + 1
    ensures HeapFrom(s, n, top)
  {
  }

  /** Before __push_heap: the hole is the new last element of the heap. */
  lemma PushStart(s: seq<int>, n: nat)
    requires 1 <= n <= |s| && HeapFrom(s, n - 1, 0)
    ensures Rising(s, n, 0, n - 1, s[n - 1])
  {
    DescendsRoot(n - 1);
  }

  /** Before __adjust_heap in pop_heap: overwriting the last element leaves
      heaps below the root of the shorter range. */
  lemma PopStart(s: seq<int>, n: nat, x: int)
    requires 1 <= n <= |s| && HeapFrom(s, n, 0)
    ensures HeapFrom(s[n - 1 := x], n - 1, 1)
  {
  }

  /** After push_heap's __push_heap: the heap and permutation on [0, len). */
  lemma PushFinish(s: seq<int>, t: seq<int>, len: nat)
    requires 1 <= len <= |s| == |t| && HeapFrom(t, len, 0)
    requires multiset(t) == multiset(s[len - 1 := s[len - 1]])
    requires forall k :: len - 1 < k < |t| ==> t[k] == s[k]
    ensures IsHeap(t[..len]) && multiset(t[..len]) == multiset(s[..len]) && t[len..] == s[len..]
  {
    assert s[len - 1 := s[len - 1]] == s;
    assert t[len..] == s[len..];
    HeapPrefix(t, len, 0);
    PrefixMultiset(t, s, len);
  }

  /** After pop_heap's __adjust_heap: the old root sits at len-1 above a heap
      of the others, a permutation of the old [0, len). */
  lemma PopFinish(s: seq<int>, t: seq<int>, len: nat)
    requires 1 <= len <= |s| == |t| && HeapFrom(s, len, 0) && HeapFrom(t, len - 1, 0)
    requires multiset(t) == multiset(s[len - 1 := s[0]][0 := s[len - 1]])
    requires forall k :: len - 1 <= k < |t| && k != 0 ==> t[k] == s[len - 1 := s[0]][k]
    requires len - 1 <= 0 ==> t[0] == s[len - 1]
    ensures t[len - 1] == s[0] && IsHeap(t[..len - 1])
    ensures forall k :: 0 <= k < len - 1 ==> t[k] <= t[len - 1]
    ensures multiset(t[..len]) == multiset(s[..len]) && t[len..] == s[len..]
  {
    assert multiset(t) == multiset(s) by {
      MoveHole(s, len - 1, 0, s[len - 1]);
      assert s[len - 1 := s[len - 1]] == s;
    }
    assert t[len..] == s[len..];
    HeapPrefix(t, len - 1, 0);
    PrefixMultiset(t, s, len);
    assert forall k :: 0 <= k < len ==> t[..len][k] <= s[0] by {
      HeapPrefix(s, len, 0);
      RootMaxAll(s[..len]);
      AllAtMost(t[..len], s[..len], s[0]);
    }
  }

  /** Permutations that agree from `n` on are permutations on [0, n). */
  lemma PrefixMultiset(s: seq<int>, t: seq<int>, n: nat)
    requires n <= |s| == |t| && multiset(s) == multiset(t) && s[n..] == t[n..]
    ensures multiset(s[..n]) == multiset(t[..n])
  {
    SplitMultiset(s, n);
    SplitMultiset(t, n);
    assert multiset(s[..n]) == multiset(s) - multiset(s[n..]);
  }

  lemma SplitMultiset(s: seq<int>, n: nat)
    requires n <= |s|
    ensures multiset(s) == multiset(s[..n]) + multiset(s[n..])
  {
    assert s == s[..n] + s[n..];
  }

  /** Every element of a heap is at most its root. */
  lemma RootMaxAll(s: seq<int>)
    requires IsHeap(s) && 0 < |s|
    ensures forall i :: 0 <= i < |s| ==> s[i] <= s[0]
  {
    forall i | 0 <= i < |s| {
      HeapRootMax(s, i);
    }
  }

  /** A bound on every element carries over to a permutation. */
  lemma AllAtMost(s: seq<int>, t: seq<int>, x: int)
    requires multiset(s) == multiset(t) && forall i :: 0 <= i < |t| ==> t[i] <= x
    ensures forall k :: 0 <= k < |s| ==> s[k] <= x
  {
    forall k | 0 <= k < |s| ensures s[k] <= x {
      assert s[k] in multiset(s);
      assert s[k] in t;
    }
  }

  /** In [0, n), every element before `last` is at most every element from
      `last` on. */
  ghost predicate Below(s: seq<int>, last: nat)
  {
    forall i, j :: 0 <= i < last <= j < |s| ==> s[i] <= s[j]
  }

  /** One round of sort_heap keeps its invariant, one element further down. */
  lemma PopKeeps(s: seq<int>, t: seq<int>, last: nat, n: nat)
    requires 1 < last <= n <= |s| == |t|
    requires Sorted(s[last..n]) && Below(s[..n], last)
    requires t[last - 1] == s[0] && IsHeap(t[..last - 1])
    requires forall k :: 0 <= k < last - 1 ==> t[k] <= t[last - 1]
    requires multiset(t[..last]) == multiset(s[..last]) && t[last..] == s[last..]
    ensures Sorted(t[last - 1..n]) && Below(t[..n], last - 1)
    ensures multiset(t[..n]) == multiset(s[..n])
  {
    assert s[..n] == s[..last] + s[last..n];
    assert t[..n] == t[..last] + t[last..n];
    assert t[last..n] == s[last..n];
    forall j | last <= j < n ensures t[last - 1] <= t[j] {
      assert s[0] <= s[..n][j];
    }
    forall j | last <= j < n ensures forall i :: 0 <= i < last ==> t[i] <= t[j] {
      AllAtMost(t[..last], s[..last], s[j]);
    }
  }

  /** A range whose first `last` <= 1 elements are below a sorted rest is sorted. */
  lemma SortedJoin(s: seq<int>, last: nat)
    requires last <= 1 && last <= |s| && Sorted(s[last..]) && Below(s, last)
    ensures Sorted(s)
  {
  }
}
