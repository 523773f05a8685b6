// mini::ctnr::deque<int>: a map of node slots, each naming a buffer of bufSize elements,
// with begin_ and end_ cursors. Element moves go through the same index-based copy and
// copy_backward loops the source runs over deque iterators.
module DequeContainer {
  import opened DequeLayout
  import opened DequeShift
  import DequeIterator

  function Max(a: nat, b: nat): (r: nat)
    ensures a <= r && b <= r && (r == a || r == b)
  {
    if a < b then b else a
  }

  /** Contents of a freshly allocated buffer (uninitialised storage, modelled as zeros). */
  function Zeros(n: nat): (r: seq<int>)
    ensures |r| == n
  {
    seq(n, _ => 0)
  }

  /** Slots lo..hi of t are the slots of s0 from node b0 on. */
  ghost predicate SlotsMatch(t: seq<nat>, s0: seq<nat>, lo: nat, hi: nat, b0: nat)
  {
    forall n :: lo <= n <= hi ==> n < |t| && n - lo + b0 < |s0| && t[n] == s0[n - lo + b0]
  }

  /** std::copy over map slots, moving towards the front of the same array. */
  method CopySlots(a: array<nat>, from: nat, to: nat, count: nat)
    requires to <= from && from + count <= a.Length
    modifies a
    ensures forall p :: 0 <= p < a.Length ==>
      a[p] == if to <= p < to + count then old(a[..])[p - to + from] else old(a[..])[p]
  {
    ghost var a0 := a[..];
    var i := 0;
    while i < count
      invariant 0 <= i <= count
      invariant forall p :: to <= p < to + i ==> a[p] == a0[p - to + from]
      invariant forall p :: 0 <= p < a.Length && !(to <= p < to + i) ==> a[p] == a0[p]
    {
      a[to + i] := a[from + i];
      i := i + 1;
    }
  }

  /** std::copy_backward over map slots, moving towards the back of the same array. */
  method CopySlotsBackward(a: array<nat>, from: nat, to: nat, count: nat)
    requires from <= to && to + count <= a.Length
    modifies a
    ensures forall p :: 0 <= p < a.Length ==>
      a[p] == if to <= p < to + count then old(a[..])[p - to + from] else old(a[..])[p]
  {
    ghost var a0 := a[..];
    var i := count;
    while 0 < i
      invariant 0 <= i <= count
      invariant forall p :: to + i <= p < to + count ==> a[p] == a0[p - to + from]
      invariant forall p :: 0 <= p < a.Length && !(to + i <= p < to + count) ==> a[p] == a0[p]
    {
      a[to + i - 1] := a[from + i - 1];
      i := i - 1;
    }
  }

  /** The slot move of reallocate_map's first branch: std::copy towards the front of the array,
      std::copy_backward towards its back. */
  method MoveSlots(a: array<nat>, from: nat, to: nat, count: nat)
    requires from + count <= a.Length && to + count <= a.Length
    modifies a
    ensures forall p :: to <= p < to + count ==> a[p] == old(a[..])[p - to + from]
  {
    if to < from {
      CopySlots(a, from, to, count);
    } else {
      CopySlotsBackward(a, from, to, count);
    }
  }

  /** std::copy of map slots into a new map. */
  method CopySlotsAcross(src: array<nat>, dst: array<nat>, from: nat, to: nat, count: nat)
    requires src != dst && from + count <= src.Length && to + count <= dst.Length
    modifies dst
    ensures forall p :: 0 <= p < dst.Length ==>
      dst[p] == if to <= p < to + count then src[p - to + from] else old(dst[..])[p]
  {
    ghost var d0 := dst[..];
    var i := 0;
    while i < count
      invariant 0 <= i <= count
      invariant forall p :: 0 <= p < dst.Length ==> dst[p] == if to <= p < to + i then src[p - to + from] else d0[p]
    {
      dst[to + i] := src[from + i];
      i := i + 1;
    }
  }

  class Deque {
    /** Elements per buffer: iterator::buffer_size(). */
    const bufSize: nat
    /** map_; map_size_ is slots.Length. */
    var slots: array<nat>
    /** The buffers the deque owns, by address, with their element slots. */
    var buffers: map<nat, seq<int>>
    /** Next unused buffer address; the allocator is abstracted to handing out fresh addresses. */
    var top: nat
    /** begin_ and end_. */
    var start: Cursor
    var finish: Cursor
    /** The element sequence the layout stores. */
    ghost var elems: seq<int>

    ghost predicate Valid()
      reads this, slots
    {
      Layout(slots[..], buffers, bufSize, start, finish, elems) && forall a :: a in buffers ==> a < top
    }

    /** deque(n, value): n copies of value, bufSize from __deque_buf_size. */
    constructor (n: nat, value: int, bufferSize: nat, elementSize: nat)
      requires 0 < elementSize
      ensures bufSize == DequeIterator.BufSize(bufferSize, elementSize)
      ensures Valid() && elems == Repeat(value, n) && fresh(slots)
      ensures slots.Length == Max(8, n / bufSize + 1 + 2)
      ensures start == Cursor((slots.Length - (n / bufSize + 1)) / 2, 0)
      ensures finish == Cursor(start.node + n / bufSize, n % bufSize)
    {
      bufSize := DequeIterator.BufSize(bufferSize, elementSize);
      slots := new nat[0];
      buffers := map[];
      top := 0;
      start := Cursor(0, 0);
      finish := Cursor(0, 0);
      elems := [];
      new;
      CreateMapAndNodes(n);
      FillInitialize(n, value);
    }

    /** allocate_node: a fresh buffer of bufSize slots. */
    method AllocateNode() returns (p: nat)
      modifies this
      ensures p == old(top) && top == p + 1 && buffers == old(buffers)[p := Zeros(bufSize)]
      ensures slots == old(slots) && start == old(start) && finish == old(finish) && elems == old(elems)
    {
      p := top;
      top := top + 1;
      buffers := buffers[p := Zeros(bufSize)];
    }

    /** deallocate_node: the buffer at p is released. */
    method DeallocateNode(p: nat)
      modifies this
      ensures buffers == old(buffers) - {p}
      ensures top == old(top) && slots == old(slots) && start == old(start) && finish == old(finish)
      ensures elems == old(elems)
    {
      buffers := buffers - {p};
    }

    /** Releases the buffers of map slots lo..hi-1. */
    method ReleaseNodes(lo: nat, hi: nat)
      requires hi <= slots.Length
      modifies this
      ensures buffers == old(buffers) - Addresses(slots[..], lo, hi)
      ensures top == old(top) && slots == old(slots) && start == old(start) && finish == old(finish)
      ensures elems == old(elems)
    {
      ghost var b0 := buffers;
      var node := lo;
      while node < hi
        invariant node == lo || lo <= node <= hi
        invariant buffers == b0 - Addresses(slots[..], lo, node)
        invariant top == old(top) && slots == old(slots) && start == old(start) && finish == old(finish)
        invariant elems == old(elems)
      {
        assert Addresses(slots[..], lo, node + 1) == Addresses(slots[..], lo, node) + {slots[node]};
        DeallocateNode(slots[node]);
        node := node + 1;
      }
    }

    /** create_map_and_nodes: the map and the buffers for n elements, centred in the map. */
    method CreateMapAndNodes(n: nat)
      requires 1 <= bufSize && buffers == map[]
      modifies this
      ensures fresh(slots) && elems == old(elems)
      ensures Shape(slots[..], buffers, bufSize, start, finish) && Gap(start, finish, bufSize) == n
      ensures forall a :: a in buffers ==> a < top
      ensures slots.Length == Max(8, n / bufSize + 1 + 2)
      ensures start == Cursor((slots.Length - (n / bufSize + 1)) / 2, 0)
      ensures finish == Cursor(start.node + n / bufSize, n % bufSize)
    {
      var numNodes := n / bufSize + 1;
      var mapSize := Max(8, numNodes + 2);
      slots := new nat[mapSize];
      var nbegin := (mapSize - numNodes) / 2;
      var nend := nbegin + numNodes - 1;
      ghost var t0 := top;
      CreateNodes(nbegin, nend);
      start := Cursor(nbegin, 0);
      finish := Cursor(nend, n % bufSize);
      SequentialShape(slots[..], buffers, bufSize, nbegin, nend, t0, n);
    }

    /** The loop of create_map_and_nodes: a fresh buffer for every slot in [nbegin, nend]. */
    method CreateNodes(nbegin: nat, nend: nat)
      requires buffers == map[] && nbegin <= nend < slots.Length
      modifies this, slots
      ensures slots == old(slots) && elems == old(elems) && top == old(top) + (nend + 1 - nbegin)
      ensures forall p :: nbegin <= p <= nend ==> slots[p] == old(top) + (p - nbegin)
      ensures forall a :: a in buffers <==> old(top) <= a < top
      ensures forall a :: a in buffers ==> |buffers[a]| == bufSize
    {
      var cur := nbegin;
      while cur <= nend
        invariant nbegin <= cur <= nend + 1 && slots == old(slots)
        invariant top == old(top) + (cur - nbegin) && elems == old(elems)
        invariant forall p :: nbegin <= p < cur ==> slots[p] == old(top) + (p - nbegin)
        invariant forall a :: a in buffers <==> old(top) <= a < top
        invariant forall a :: a in buffers ==> |buffers[a]| == bufSize
      {
        var p := AllocateNode();
        slots[cur] := p;
        cur := cur + 1;
      }
    }

    /** fill_initialize: every buffer before the end node is filled whole, the end node up to its cursor. */
    method FillInitialize(n: nat, value: int)
      requires Shape(slots[..], buffers, bufSize, start, finish) && Gap(start, finish, bufSize) == n
      requires start.off == 0 && forall a :: a in buffers ==> a < top
      modifies this
      ensures Valid() && elems == Repeat(value, n)
      ensures slots == old(slots) && start == old(start) && finish == old(finish)
    {
      FillWholeNodes(value);
      var last := slots[finish.node];
      ShapeWrite(slots[..], buffers, bufSize, start, finish, last, Repeat(value, finish.off) + buffers[last][finish.off..]);
      buffers := buffers[last := Repeat(value, finish.off) + buffers[last][finish.off..]];
      Filled(slots[..], buffers, bufSize, start, finish, value, n);
      elems := Repeat(value, n);
    }

    /** The loop of fill_initialize: every buffer before the end node is filled whole. */
    method FillWholeNodes(value: int)
      requires Shape(slots[..], buffers, bufSize, start, finish) && forall a :: a in buffers ==> a < top
      modifies this
      ensures Shape(slots[..], buffers, bufSize, start, finish) && forall a :: a in buffers ==> a < top
      ensures slots == old(slots) && start == old(start) && finish == old(finish) && top == old(top)
      ensures forall m, o :: start.node <= m < finish.node && 0 <= o < bufSize ==> buffers[slots[m]][o] == value
    {
      var cur := start.node;
      while cur < finish.node
        invariant start.node <= cur <= finish.node
        invariant Shape(slots[..], buffers, bufSize, start, finish) && forall a :: a in buffers ==> a < top
        invariant slots == old(slots) && start == old(start) && finish == old(finish) && top == old(top)
        invariant forall m, o :: start.node <= m < cur && 0 <= o < bufSize ==> buffers[slots[m]][o] == value
      {
        ShapeWrite(slots[..], buffers, bufSize, start, finish, slots[cur], Repeat(value, bufSize));
        buffers := buffers[slots[cur] := Repeat(value, bufSize)];
        cur := cur + 1;
      }
    }

    // ------------------------------------------------------------ queries

    /** size(): end_ - begin_ by the iterator difference formula. */
    method Size() returns (n: nat)
      requires Valid()
      ensures n == |elems|
    {
      GapFormula(start, finish, bufSize);
      n := bufSize * (finish.node - start.node - 1) + finish.off + (bufSize - start.off);
    }

    /** empty(): begin_ == end_, which compares the cursors' element addresses. */
    method Empty() returns (b: bool)
      requires Valid()
      ensures b <==> |elems| == 0
    {
      EmptyIffSame(slots[..], buffers, bufSize, start, finish, elems);
      b := slots[start.node] == slots[finish.node] && start.off == finish.off;
    }

    /** operator[](k): *(begin_ + k). */
    method At(k: nat) returns (x: int)
      requires Valid() && k < |elems|
      ensures x == elems[k]
    {
      ReadAt(slots[..], buffers, bufSize, start, finish, elems, k);
      var c := Locate(start, bufSize, k);
      x := buffers[slots[c.node]][c.off];
    }

    /** front(): *begin_. */
    method Front() returns (x: int)
      requires Valid() && 1 <= |elems|
      ensures x == elems[0]
    {
      assert Rank(start, bufSize, start.node, start.off) == 0;
      x := buffers[slots[start.node]][start.off];
    }

    /** back(): *(end_ - 1), stepping back over a buffer boundary when end_ is at its node's first slot. */
    method Back() returns (x: int)
      requires Valid() && 1 <= |elems|
      ensures x == elems[|elems| - 1]
    {
      if finish.off != 0 {
        assert Rank(start, bufSize, finish.node, finish.off - 1) == |elems| - 1;
        x := buffers[slots[finish.node]][finish.off - 1];
      } else {
        PopBackSlow(slots[..], buffers, bufSize, start, finish, elems);
        MulStep(finish.node - 1 - start.node, bufSize);
        assert Rank(start, bufSize, finish.node - 1, bufSize - 1) == |elems| - 1;
        x := buffers[slots[finish.node - 1]][bufSize - 1];
      }
    }

    /** *(begin_ + k) = v. */
    method Set(k: nat, v: int)
      requires Valid() && k < |elems|
      modifies this
      ensures Valid() && elems == old(elems)[k := v]
      ensures slots == old(slots) && start == old(start) && finish == old(finish) && top == old(top)
    {
      WriteAt(slots[..], buffers, bufSize, start, finish, elems, k, v);
      var c := Locate(start, bufSize, k);
      var a := slots[c.node];
      buffers := buffers[a := buffers[a][c.off := v]];
      elems := elems[k := v];
    }

    /** algo::copy(begin_ + src, begin_ + src + n, begin_ + dst), dst <= src. */
    method Copy(src: nat, dst: nat, n: nat)
      requires Valid() && dst <= src && src + n <= |elems|
      modifies this
      ensures Valid() && elems == Shifted(old(elems), src, dst, n)
      ensures slots == old(slots) && start == old(start) && finish == old(finish) && top == old(top)
    {
      ghost var e0 := elems;
      ShiftNone(e0, src, dst);
      var i := 0;
      while i < n
        invariant 0 <= i <= n
        invariant Valid() && elems == Shifted(e0, src, dst, i)
        invariant slots == old(slots) && start == old(start) && finish == old(finish) && top == old(top)
      {
        ShiftStep(e0, src, dst, i);
        var x := At(src + i);
        Set(dst + i, x);
        i := i + 1;
      }
    }

    /** algo::copy_backward(begin_ + src, begin_ + src + n, begin_ + dst + n), src <= dst. */
    method CopyBackward(src: nat, dst: nat, n: nat)
      requires Valid() && src <= dst && dst + n <= |elems|
      modifies this
      ensures Valid() && elems == Shifted(old(elems), src, dst, n)
      ensures slots == old(slots) && start == old(start) && finish == old(finish) && top == old(top)
    {
      ghost var e0 := elems;
      ShiftNone(e0, src + n, dst + n);
      var i := n;
      while 0 < i
        invariant 0 <= i <= n
        invariant Valid() && elems == Shifted(e0, src + i, dst + i, n - i)
        invariant slots == old(slots) && start == old(start) && finish == old(finish) && top == old(top)
      {
        ShiftStepBack(e0, src, dst, i, n);
        var x := At(src + i - 1);
        Set(dst + i - 1, x);
        i := i - 1;
      }
    }

    // ------------------------------------------------------------ map management

    /** The used slots, from the begin node to the end node, are those of s0 from node b0 on. */
    ghost predicate SlotsFrom(s0: seq<nat>, b0: nat)
      reads this, slots
    {
      SlotsMatch(slots[..], s0, start.node, finish.node, b0)
    }

    /** reallocate_map: recentre the live slots in the map, or move them into a larger one. */
    method ReallocateMap(nodesToAdd: nat, addAtFront: bool)
      requires Valid()
      modifies this, slots
      ensures Valid() && elems == old(elems) && buffers == old(buffers) && top == old(top)
      ensures slots == old(slots) || fresh(slots)
      ensures start.off == old(start.off) && finish.off == old(finish.off)
      ensures finish.node - start.node == old(finish.node - start.node)
      ensures SlotsFrom(old(slots[..]), old(start.node))
      ensures addAtFront ==> nodesToAdd <= start.node
      ensures !addAtFront ==> finish.node + nodesToAdd < slots.Length
      ensures old(slots.Length) > 2 * (old(finish.node - start.node) + 1 + nodesToAdd) ==> slots == old(slots)
      ensures old(slots.Length) <= 2 * (old(finish.node - start.node) + 1 + nodesToAdd) ==>
        slots.Length == old(slots.Length) + Max(old(slots.Length), nodesToAdd) + 2
      ensures start.node ==
        (slots.Length - (old(finish.node - start.node) + 1 + nodesToAdd)) / 2 + (if addAtFront then nodesToAdd else 0)
    {
      var oldNum := finish.node - start.node + 1;
      var newNum := oldNum + nodesToAdd;
      if slots.Length > 2 * newNum {
        var newStart := (slots.Length - newNum) / 2 + (if addAtFront then nodesToAdd else 0);
        Recentre(newStart);
      } else {
        var newSize := slots.Length + Max(slots.Length, nodesToAdd) + 2;
        var newStart := (newSize - newNum) / 2 + (if addAtFront then nodesToAdd else 0);
        Regrow(newSize, newStart);
      }
    }

    /** The first branch of reallocate_map: the live slots move to start at newStart in the same map. */
    method Recentre(newStart: nat)
      requires Valid() && newStart + (finish.node - start.node) < slots.Length
      modifies this, slots
      ensures Valid() && elems == old(elems) && buffers == old(buffers) && top == old(top) && slots == old(slots)
      ensures start == Cursor(newStart, old(start.off))
      ensures finish == Cursor(newStart + old(finish.node - start.node), old(finish.off))
      ensures SlotsFrom(old(slots[..]), old(start.node))
    {
      var oldNum := finish.node - start.node + 1;
      MoveSlots(slots, start.node, newStart, oldNum);
      Rebase(newStart, old(slots[..]));
    }

    /** The second branch of reallocate_map: the live slots move to start at newStart in a new map of newSize slots. */
    method Regrow(newSize: nat, newStart: nat)
      requires Valid() && newStart + (finish.node - start.node) < newSize
      modifies this
      ensures Valid() && elems == old(elems) && buffers == old(buffers) && top == old(top)
      ensures fresh(slots) && slots.Length == newSize
      ensures start == Cursor(newStart, old(start.off))
      ensures finish == Cursor(newStart + old(finish.node - start.node), old(finish.off))
      ensures SlotsFrom(old(slots[..]), old(start.node))
    {
      var oldNum := finish.node - start.node + 1;
      var newMap := new nat[newSize];
      CopySlotsAcross(slots, newMap, start.node, newStart, oldNum);
      slots := newMap;
      Rebase(newStart, old(slots[..]));
    }

    /** Renumbers the cursors once the live slots of s0 have been copied to start at newStart. */
    method Rebase(newStart: nat, ghost s0: seq<nat>)
      requires Layout(s0, buffers, bufSize, start, finish, elems) && forall a :: a in buffers ==> a < top
      requires newStart + (finish.node - start.node) < slots.Length
      requires SlotsMatch(slots[..], s0, newStart, newStart + (finish.node - start.node), start.node)
      modifies this
      ensures Valid() && elems == old(elems) && buffers == old(buffers) && top == old(top) && slots == old(slots)
      ensures start == Cursor(newStart, old(start.off))
      ensures finish == Cursor(newStart + old(finish.node - start.node), old(finish.off))
      ensures SlotsFrom(s0, old(start.node))
    {
      Remap(s0, buffers, bufSize, start, finish, elems, slots[..], newStart);
      start, finish := Cursor(newStart, start.off), Cursor(newStart + (finish.node - start.node), finish.off);
    }

    /** reserve_map_at_back: room for nodesToAdd more slots after the end node. */
    method ReserveMapAtBack(nodesToAdd: nat)
      requires Valid()
      modifies this, slots
      ensures Valid() && elems == old(elems) && buffers == old(buffers) && top == old(top)
      ensures slots == old(slots) || fresh(slots)
      ensures start.off == old(start.off) && finish.off == old(finish.off)
      ensures finish.node + nodesToAdd < slots.Length
    {
      if nodesToAdd > slots.Length - finish.node - 1 {
        ReallocateMap(nodesToAdd, false);
      }
    }

    /** reserve_map_at_front: room for nodesToAdd more slots before the begin node. */
    method ReserveMapAtFront(nodesToAdd: nat)
      requires Valid()
      modifies this, slots
      ensures Valid() && elems == old(elems) && buffers == old(buffers) && top == old(top)
      ensures slots == old(slots) || fresh(slots)
      ensures start.off == old(start.off) && finish.off == old(finish.off)
      ensures nodesToAdd <= start.node
    {
      if nodesToAdd > start.node {
        ReallocateMap(nodesToAdd, true);
      }
    }

    // ------------------------------------------------------------ push and pop

    /** push_back. */
    method PushBack(v: int)
      requires Valid()
      modifies this, slots
      ensures Valid() && elems == old(elems) + [v]
      ensures slots == old(slots) || fresh(slots)
    {
      if finish.off != bufSize - 1 {
        PushBackFast(slots[..], buffers, bufSize, start, finish, elems, v);
        var a := slots[finish.node];
        buffers := buffers[a := buffers[a][finish.off := v]];
        finish := Cursor(finish.node, finish.off + 1);
        elems := elems + [v];
      } else {
        PushBackAux(v);
      }
    }

    /** push_back_aux: the end buffer is full after this element; a new buffer follows it. */
    method PushBackAux(v: int)
      requires Valid() && finish.off == bufSize - 1
      modifies this, slots
      ensures Valid() && elems == old(elems) + [v]
      ensures slots == old(slots) || fresh(slots)
    {
      ReserveMapAtBack(1);
      StoreAtNewBackNode(v);
    }

    /** The rest of push_back_aux once the map has room: a new end node, v in the last slot of the old one. */
    method StoreAtNewBackNode(v: int)
      requires Valid() && finish.off == bufSize - 1 && finish.node + 1 < slots.Length
      modifies this, slots
      ensures Valid() && elems == old(elems) + [v] && slots == old(slots)
    {
      ghost var s0 := slots[..];
      ghost var b0 := buffers;
      ghost var f0 := finish;
      ghost var x0 := top;
      var x := AllocateNode();
      slots[finish.node + 1] := x;
      var a := slots[finish.node];
      buffers := buffers[a := buffers[a][finish.off := v]];
      finish := Cursor(finish.node + 1, 0);
      elems := elems + [v];
      assert slots[..] == s0[f0.node + 1 := x0];
      assert a == s0[f0.node];
      PushBackSlow(s0, b0, bufSize, start, f0, old(elems), v, x0, Zeros(bufSize), slots[..], buffers, finish, elems);
    }

    /** push_front. */
    method PushFront(v: int)
      requires Valid()
      modifies this, slots
      ensures Valid() && elems == [v] + old(elems)
      ensures slots == old(slots) || fresh(slots)
    {
      if start.off != 0 {
        PushFrontFast(slots[..], buffers, bufSize, start, finish, elems, v);
        var a := slots[start.node];
        buffers := buffers[a := buffers[a][start.off - 1 := v]];
        start := Cursor(start.node, start.off - 1);
        elems := [v] + elems;
      } else {
        PushFrontAux(v);
      }
    }

    /** push_front_aux: a new buffer before the begin node, the element in its last slot. */
    method PushFrontAux(v: int)
      requires Valid() && start.off == 0
      modifies this, slots
      ensures Valid() && elems == [v] + old(elems)
      ensures slots == old(slots) || fresh(slots)
    {
      ReserveMapAtFront(1);
      StoreAtNewFrontNode(v);
    }

    /** The rest of push_front_aux once the map has room: a new begin node holding v in its last slot. */
    method StoreAtNewFrontNode(v: int)
      requires Valid() && start.off == 0 && 1 <= start.node
      modifies this, slots
      ensures Valid() && elems == [v] + old(elems) && slots == old(slots)
    {
      ghost var s0 := slots[..];
      ghost var b0 := buffers;
      ghost var st0 := start;
      ghost var x0 := top;
      var x := AllocateNode();
      slots[start.node - 1] := x;
      start := Cursor(start.node - 1, bufSize - 1);
      var a := slots[start.node];
      buffers := buffers[a := buffers[a][start.off := v]];
      elems := [v] + elems;
      assert slots[..] == s0[st0.node - 1 := x0];
      PushFrontSlow(s0, b0, bufSize, st0, finish, old(elems), v, x0, Zeros(bufSize), slots[..], buffers, start, elems);
    }

    /** pop_back. */
    method PopBack()
      requires Valid() && 1 <= |elems|
      modifies this
      ensures Valid() && elems == old(elems)[..|old(elems)| - 1]
      ensures slots == old(slots)
    {
      if finish.off != 0 {
        PopBackFast(slots[..], buffers, bufSize, start, finish, elems);
        finish := Cursor(finish.node, finish.off - 1);
        elems := elems[..|elems| - 1];
      } else {
        PopBackAux();
      }
    }

    /** pop_back_aux: the end buffer is released and end_ moves to the previous node's last slot. */
    method PopBackAux()
      requires Valid() && 1 <= |elems| && finish.off == 0
      modifies this
      ensures Valid() && elems == old(elems)[..|old(elems)| - 1]
      ensures slots == old(slots)
    {
      PopBackSlow(slots[..], buffers, bufSize, start, finish, elems);
      DeallocateNode(slots[finish.node]);
      finish := Cursor(finish.node - 1, bufSize - 1);
      elems := elems[..|elems| - 1];
    }

    /** pop_front. */
    method PopFront()
      requires Valid() && 1 <= |elems|
      modifies this
      ensures Valid() && elems == old(elems)[1..]
      ensures slots == old(slots)
    {
      if start.off != bufSize - 1 {
        PopFrontFast(slots[..], buffers, bufSize, start, finish, elems);
        start := Cursor(start.node, start.off + 1);
        elems := elems[1..];
      } else {
        PopFrontAux();
      }
    }

    /** pop_front_aux: the begin buffer is released and begin_ moves to the next node's first slot. */
    method PopFrontAux()
      requires Valid() && 1 <= |elems| && start.off == bufSize - 1
      modifies this
      ensures Valid() && elems == old(elems)[1..]
      ensures slots == old(slots)
    {
      PopFrontSlow(slots[..], buffers, bufSize, start, finish, elems);
      DeallocateNode(slots[start.node]);
      start := Cursor(start.node + 1, 0);
      elems := elems[1..];
    }

    // ------------------------------------------------------------ clear, erase, insert

    /** clear: all buffers but the begin node's are released; end_ is set to begin_. */
    method Clear()
      requires Valid()
      modifies this
      ensures Valid() && elems == [] && start == old(start) && finish == start && slots == old(slots)
      ensures buffers.Keys == {slots[start.node]}
    {
      ghost var s0 := slots[..];
      ghost var b0 := buffers;
      assert Layout(s0, b0, bufSize, start, finish, elems);
      ReleaseNodes(start.node + 1, finish.node);
      if start.node != finish.node {
        DeallocateNode(slots[finish.node]);
      }
      ClearTo(s0, b0, bufSize, start, finish, elems, buffers);
      finish := start;
      elems := [];
    }

    /** erase(begin_ + idx): shift the shorter side over the erased element, then pop it. */
    method Erase(idx: nat) returns (r: nat)
      requires Valid() && idx < |elems|
      modifies this
      ensures Valid() && r == idx && elems == old(elems)[..idx] + old(elems)[idx + 1..]
    {
      ghost var e0 := elems;
      var n := Size();
      if idx < n / 2 {
        CopyBackward(0, 1, idx);
        EraseByFront(e0, idx);
        PopFront();
      } else {
        Copy(idx + 1, idx, n - idx - 1);
        EraseByBack(e0, idx);
        PopBack();
      }
      r := idx;
    }

    /** erase(begin_ + first, begin_ + last). */
    method EraseRange(first: nat, last: nat) returns (r: nat)
      requires Valid() && first <= last <= |elems|
      modifies this
      ensures Valid() && r == first && elems == old(elems)[..first] + old(elems)[last..]
      ensures first == 0 && last == |old(elems)| ==> start == old(start) && buffers.Keys == {slots[start.node]}
    {
      var size := Size();
      if first == 0 && last == size {
        Clear();
        return 0;
      }
      ghost var e0 := elems;
      var n := last - first;
      if first < (size - n) / 2 {
        CopyBackward(0, n, first);
        EraseRangeByFront(e0, first, last);
        EraseFront(n);
      } else {
        Copy(last, first, size - last);
        EraseRangeByBack(e0, first, last);
        EraseBack(n);
      }
      r := first;
    }

    /** The front part of erase(first, last): begin_ moves k elements on, freeing the buffers it leaves. */
    method EraseFront(k: nat)
      requires Valid() && k <= |elems|
      modifies this
      ensures Valid() && elems == old(elems)[k..]
    {
      ghost var s0 := slots[..];
      ghost var b0 := buffers;
      assert Layout(s0, b0, bufSize, start, finish, elems);
      var newStart := Locate(start, bufSize, k);
      LocateIn(start, finish, bufSize, k);
      ReleaseNodes(start.node, newStart.node);
      forall m | newStart.node <= m <= finish.node
        ensures s0[m] !in Addresses(s0, start.node, newStart.node)
      {
      }
      TrimFront(s0, b0, bufSize, start, finish, elems, k, buffers);
      start := newStart;
      elems := elems[k..];
    }

    /** The back part of erase(first, last): end_ moves k elements back, freeing the buffers it leaves. */
    method EraseBack(k: nat)
      requires Valid() && k <= |elems|
      modifies this
      ensures Valid() && elems == old(elems)[..|old(elems)| - k]
    {
      ghost var s0 := slots[..];
      ghost var b0 := buffers;
      assert Layout(s0, b0, bufSize, start, finish, elems);
      var size := Size();
      var newFinish := Locate(start, bufSize, size - k);
      LocateIn(start, finish, bufSize, |elems| - k);
      ReleaseNodes(newFinish.node + 1, finish.node + 1);
      forall m | start.node <= m <= newFinish.node
        ensures s0[m] !in Addresses(s0, newFinish.node + 1, finish.node + 1)
      {
      }
      forall m | newFinish.node < m <= finish.node
        ensures s0[m] !in buffers
      {
        assert s0[m] in Addresses(s0, newFinish.node + 1, finish.node + 1);
      }
      assert newFinish == Locate(start, bufSize, |elems| - k);
      TrimBack(s0, b0, bufSize, start, finish, elems, k, buffers);
      finish := newFinish;
      elems := elems[..|elems| - k];
    }

    /** insert(begin_ + idx, v): push at either end, insert_aux in the middle. */
    method Insert(idx: nat, v: int) returns (r: nat)
      requires Valid() && idx <= |elems|
      modifies this, slots
      ensures Valid() && r == idx && elems == old(elems)[..idx] + [v] + old(elems)[idx..]
      ensures slots == old(slots) || fresh(slots)
    {
      ghost var e0 := elems;
      var size := Size();
      if idx == 0 {
        PushFront(v);
        assert e0[..0] + [v] + e0[0..] == [v] + e0;
        r := 0;
      } else if idx == size {
        PushBack(v);
        assert e0[..size] + [v] + e0[size..] == e0 + [v];
        r := size;
      } else {
        r := InsertAux(idx, v);
      }
    }

    /**
     * insert_aux with the front branch corrected: it keeps copy(begin_ + 2, pos, begin_ + 1) and
     * stores v through begin_ + idx, which after push_front is pos - 1. The element that was at
     * idx is kept and v lands at index idx.
     */
    method InsertAux(idx: nat, v: int) returns (r: nat)
      requires Valid() && 1 <= idx < |elems|
      modifies this, slots
      ensures Valid() && r == idx && elems == old(elems)[..idx] + [v] + old(elems)[idx..]
      ensures slots == old(slots) || fresh(slots)
    {
      ghost var e0 := elems;
      var size := Size();
      if idx < size / 2 {
        var x := Front();
        PushFront(x);
        ghost var e2 := elems;
        assert e2 == [e0[0]] + e0;
        Copy(2, 1, idx - 1);
        ghost var e1 := elems;
        Set(idx, v);
        InsertByFront(e0, idx, v);
        assert e1 == Shifted([e0[0]] + e0, 2, 1, idx - 1);
      } else {
        var x := Back();
        PushBack(x);
        ghost var e2 := elems;
        assert e2 == e0 + [e0[|e0| - 1]];
        CopyBackward(idx, idx + 1, size - 1 - idx);
        ghost var e1 := elems;
        Set(idx, v);
        InsertByBack(e0, idx, v);
        assert e1 == Shifted(e0 + [e0[|e0| - 1]], idx, idx + 1, |e0| - 1 - idx);
      }
      r := idx;
    }

    /**
     * insert_aux as the source writes it: after push_front the iterator pos still denotes the
     * element that was at idx, now at index idx + 1, so the copy stops short and v overwrites it.
     */
    method InsertAuxAsWritten(idx: nat, v: int) returns (r: nat)
      requires Valid() && 1 <= idx < |elems|
      modifies this, slots
      ensures Valid()
      ensures idx < |old(elems)| / 2 ==>
        r == idx + 1 && elems == old(elems)[..idx] + [old(elems)[idx - 1]] + [v] + old(elems)[idx + 1..]
      ensures |old(elems)| / 2 <= idx ==> r == idx && elems == old(elems)[..idx] + [v] + old(elems)[idx..]
      ensures slots == old(slots) || fresh(slots)
    {
      ghost var e0 := elems;
      var size := Size();
      if idx < size / 2 {
        var x := Front();
        PushFront(x);
        var pos := idx + 1;
        Copy(2, 1, pos - 2);
        ghost var e1 := elems;
        Set(pos, v);
        InsertByFrontAsWritten(e0, idx, v);
        assert e1 == Shifted([e0[0]] + e0, 2, 1, idx - 1);
        r := pos;
      } else {
        var x := Back();
        PushBack(x);
        ghost var e2 := elems;
        assert e2 == e0 + [e0[|e0| - 1]];
        CopyBackward(idx, idx + 1, size - 1 - idx);
        ghost var e1 := elems;
        Set(idx, v);
        InsertByBack(e0, idx, v);
        assert e1 == Shifted(e0 + [e0[|e0| - 1]], idx, idx + 1, |e0| - 1 - idx);
        r := idx;
      }
    }
  }

  /** A deque<int, alloc, 3> holding xs, built by push_back: the buffer size of the "advanced"
      deque test, so that the pushes cross buffer boundaries. */
  method Built(xs: seq<int>) returns (d: Deque)
    ensures d.Valid() && d.elems == xs && d.bufSize == 3 && fresh(d) && fresh(d.slots)
  {
    d := new Deque(0, 0, 3, 4);
    var i := 0;
    while i < |xs|
      invariant 0 <= i <= |xs|
      invariant d.Valid() && d.elems == xs[..i] && fresh(d) && fresh(d.slots)
    {
      d.PushBack(xs[i]);
      assert xs[..i + 1] == xs[..i] + [xs[i]];
      i := i + 1;
    }
  }

  /**
   * The insert steps of the deque test, on a "0 1 7" with 3-slot buffers (the test reaches it by
   * erasing from deque d2(8, 6); here it is built by push_back), run through the
   * source's own insert_aux: insert(begin() + 1, 100) on three elements and insert(end() - 1, 6)
   * on four both have idx >= size / 2, so both take insert_aux's back branch and never reach the
   * front branch that loses an element. The test's expected dumps follow.
   */
  method InsertScenario() returns (d: Deque, r1: nat, r2: nat, r3: nat, r4: nat)
    ensures r1 == 1 && r2 == 3 && r3 == 0 && r4 == 6
    ensures d.Valid() && d.bufSize == 3 && d.elems == [-3, 0, 100, 1, 6, 7, -1]
  {
    d := Built([0, 1, 7]);
    assert !(1 < |d.elems| / 2);
    r1 := d.InsertAuxAsWritten(1, 100);
    assert d.elems == [0, 100, 1, 7];
    assert !(3 < |d.elems| / 2);
    r2 := d.InsertAuxAsWritten(3, 6);
    assert d.elems == [0, 100, 1, 6, 7];
    r3 := d.Insert(0, -3);
    assert d.elems == [-3, 0, 100, 1, 6, 7];
    r4 := d.Insert(6, -1);
  }
}
