// __deque_iterator of mini_iterator_deque.h.  Pointers are integer
// addresses; `node` is an index into the deque's map, whose slots hold the
// start addresses of the buffers.  An iterator denotes the global position
// node * buffer_size + (cur - first).

module DequeIterator {

  /** __deque_buf_size(n, element_size): the user's buffer size when it is
      not 0, otherwise as many elements as fit in 512 bytes, at least one. */
  function BufSize(n: nat, elementSize: nat): (r: nat)
    requires 0 < elementSize
    ensures 1 <= r
    ensures n != 0 ==> r == n
    ensures n == 0 && elementSize <= 512 ==> r * elementSize <= 512 < (r + 1) * elementSize
    ensures n == 0 && 512 <= elementSize ==> r == 1
  {
    if n != 0 then n
    else if elementSize < 512 then
      DivBounds(512, elementSize);
      512 / elementSize
    else 1
  }

  /** x / d is the floor of x over d: the quotient step of NodeOffsetIsFloor's two branches,
      and of BufSize and the layout's Locate. */
  lemma DivBounds(x: int, d: int)
    requires 0 < d
    ensures (x / d) * d <= x < (x / d) * d + d
  {
  }

  /** The buffer offset that `+=` computes for a target offset outside the
      current buffer: a quotient for positive offsets, the negated quotient
      of -offset - 1, minus one, for negative ones. */
  function NodeOffset(offset: int, bufSize: nat): int
    requires 0 < bufSize
  {
    if offset > 0 then offset / bufSize else -((-offset - 1) / bufSize) - 1
  }

  /** Both branches of NodeOffset are the floor of offset / buffer_size. */
  lemma NodeOffsetIsFloor(offset: int, bufSize: nat)
    requires 0 < bufSize
    ensures NodeOffset(offset, bufSize) * bufSize <= offset < NodeOffset(offset, bufSize) * bufSize + bufSize
  {
    if offset > 0 {
      DivBounds(offset, bufSize);
    } else {
      var m := -offset - 1;
      DivBounds(m, bufSize);
      var q := m / bufSize;
      assert NodeOffset(offset, bufSize) == -q - 1;
      assert (-q - 1) * bufSize == -(q * bufSize) - bufSize;
    }
  }

  /** x * b < y * b forces x < y when b is positive: in `+=`, turns the bounds that
      NodeOffsetIsFloor gives on the target position into 0 <= target node < map size. */
  lemma MulLess(x: int, y: int, b: int)
    requires 0 < b && x * b < y * b
    ensures x < y
  {
    assert y * b - x * b == (y - x) * b;
  }

  /** A product of naturals is a natural: PosOrder's step for the whole buffers between two
      nodes (it takes no part in NodeOffsetIsFloor or `+=`). */
  lemma MulNonneg(a: int, b: int)
    requires 0 <= a && 0 <= b
    ensures 0 <= a * b
  {
  }

  /** Positions in different buffers order by buffer. */
  lemma PosOrder(n1: int, o1: int, n2: int, o2: int, b: int)
    requires 0 <= o1 < b && 0 <= o2 < b && n1 < n2
    ensures n1 * b + o1 < n2 * b + o2
  {
    var k := n2 - n1 - 1;
    MulNonneg(k, b);
    assert n2 * b == n1 * b + k * b + b;
  }

  /** How two cursors compare, node by node, against their global positions. */
  lemma CursorOrder(n1: int, f1: int, c1: int, n2: int, f2: int, c2: int, b: int)
    requires f1 <= c1 < f1 + b && f2 <= c2 < f2 + b
    requires n1 == n2 ==> f1 == f2
    ensures (if n1 == n2 then c1 < c2 else n1 < n2) <==> n1 * b + (c1 - f1) < n2 * b + (c2 - f2)
    ensures n1 != n2 ==> n1 * b + (c1 - f1) != n2 * b + (c2 - f2)
  {
    if n1 < n2 {
      PosOrder(n1, c1 - f1, n2, c2 - f2, b);
    } else if n2 < n1 {
      PosOrder(n2, c2 - f2, n1, c1 - f1, b);
    }
  }

  class Iter {
    const bufSize: nat
    var cur: int
    var first: int
    var last: int
    var node: int

    /** A default-constructed iterator: all pointers null. */
    constructor (bufSize: nat)
      ensures this.bufSize == bufSize && cur == 0 && first == 0 && last == 0 && node == 0
    {
      this.bufSize := bufSize;
      cur, first, last, node := 0, 0, 0, 0;
    }

    /** The copy `self tmp = *this`. */
    method Clone() returns (r: Iter)
      ensures fresh(r) && r.bufSize == bufSize
      ensures r.cur == cur && r.first == first && r.last == last && r.node == node
    {
      r := new Iter(bufSize);
      r.cur, r.first, r.last, r.node := cur, first, last, node;
    }

    /** The cursor lies in a buffer of buffer_size() slots. */
    ghost predicate Shaped()
      reads this
    {
      1 <= bufSize && last == first + bufSize && first <= cur < last
    }

    /** Shaped, on a node of the map whose slot holds the buffer. */
    ghost predicate Valid(slots: seq<int>)
      reads this
    {
      Shaped() && 0 <= node < |slots| && first == slots[node]
    }

    /** node * buffer_size + (cur - first). */
    ghost function Pos(): int
      reads this
    {
      node * bufSize + (cur - first)
    }

    /** set_node(new_node): first = *new_node, last = first + buffer_size(). */
    method SetNode(slots: seq<int>, newNode: int)
      requires 0 <= newNode < |slots|
      modifies this
      ensures node == newNode && first == slots[newNode] && last == first + bufSize && cur == old(cur)
    {
      node := newNode;
      first := slots[newNode];
      last := first + bufSize;
    }

    /** operator++(): one slot on, or the first slot of the next buffer. */
    method Increment(slots: seq<int>)
      requires Valid(slots) && (cur + 1 == last ==> node + 1 < |slots|)
      modifies this
      ensures Valid(slots) && Pos() == old(Pos()) + 1
      ensures old(cur) + 1 < old(last) ==> node == old(node) && cur == old(cur) + 1
      ensures old(cur) + 1 == old(last) ==> node == old(node) + 1 && cur == first
    {
      cur := cur + 1;
      if cur == last {
        SetNode(slots, node + 1);
        cur := first;
      }
    }

    /** operator++(int): increments and returns the old iterator. */
    method PostIncrement(slots: seq<int>) returns (tmp: Iter)
      requires Valid(slots) && (cur + 1 == last ==> node + 1 < |slots|)
      modifies this
      ensures fresh(tmp) && tmp.Valid(slots) && tmp.Pos() == old(Pos())
      ensures Valid(slots) && Pos() == old(Pos()) + 1
    {
      tmp := Clone();
      Increment(slots);
    }

    /** operator--(): one slot back, or the last slot of the previous buffer. */
    method Decrement(slots: seq<int>)
      requires Valid(slots) && (cur == first ==> 0 < node)
      modifies this
      ensures Valid(slots) && Pos() == old(Pos()) - 1
      ensures old(cur) != old(first) ==> node == old(node) && cur == old(cur) - 1
      ensures old(cur) == old(first) ==> node == old(node) - 1 && cur == last - 1
    {
      if cur == first {
        SetNode(slots, node - 1);
        cur := last;
      }
      cur := cur - 1;
    }

    /** operator--(int): decrements and returns the old iterator. */
    method PostDecrement(slots: seq<int>) returns (tmp: Iter)
      requires Valid(slots) && (cur == first ==> 0 < node)
      modifies this
      ensures fresh(tmp) && tmp.Valid(slots) && tmp.Pos() == old(Pos())
      ensures Valid(slots) && Pos() == old(Pos()) - 1
    {
      tmp := Clone();
      Decrement(slots);
    }

    /** operator+=(n): moves the global position by n, in either direction,
        as long as the target lies on a node of the map. */
    method AddAssign(slots: seq<int>, n: int)
      requires Valid(slots) && 0 <= Pos() + n < |slots| * bufSize
      modifies this
      ensures Valid(slots) && Pos() == old(Pos()) + n
      ensures 0 <= old(cur - first) + n < bufSize ==> node == old(node) && cur == old(cur) + n
    {
      var offset := n + (cur - first);
      if offset >= 0 && offset < bufSize {
        cur := cur + n;
      } else {
        var nodeOffset := NodeOffset(offset, bufSize);
        NodeOffsetIsFloor(offset, bufSize);
        ghost var target := node * bufSize + offset;
        assert (node + nodeOffset) * bufSize == node * bufSize + nodeOffset * bufSize;
        MulLess(node + nodeOffset, |slots|, bufSize);
        MulLess(-1, node + nodeOffset, bufSize);
        SetNode(slots, node + nodeOffset);
        cur := first + (offset - nodeOffset * bufSize);
        assert Pos() == target;
      }
    }

    /** operator-=(n): += -n. */
    method SubAssign(slots: seq<int>, n: int)
      requires Valid(slots) && 0 <= Pos() - n < |slots| * bufSize
      modifies this
      ensures Valid(slots) && Pos() == old(Pos()) - n
    {
      AddAssign(slots, -n);
    }

    /** operator+(n): a moved copy. */
    method Plus(slots: seq<int>, n: int) returns (r: Iter)
      requires Valid(slots) && 0 <= Pos() + n < |slots| * bufSize
      ensures fresh(r) && r.bufSize == bufSize && r.Valid(slots) && r.Pos() == Pos() + n
    {
      r := Clone();
      r.AddAssign(slots, n);
    }

    /** operator-(n): a copy moved back by n. */
    method Minus(slots: seq<int>, n: int) returns (r: Iter)
      requires Valid(slots) && 0 <= Pos() - n < |slots| * bufSize
      ensures fresh(r) && r.bufSize == bufSize && r.Valid(slots) && r.Pos() == Pos() - n
    {
      r := Clone();
      r.SubAssign(slots, n);
    }

    /** operator-(other): whole buffers between the nodes plus the two
        partial buffers, which is the difference of the global positions
        whichever iterator comes first. */
    function Diff(other: Iter): (d: int)
      reads this, other
      requires Shaped() && other.Shaped() && bufSize == other.bufSize
      ensures d == Pos() - other.Pos()
    {
      assert bufSize * (node - other.node - 1) == node * bufSize - other.node * bufSize - bufSize;
      bufSize * (node - other.node - 1) + (cur - first) + (other.last - other.cur)
    }

    /** operator<: by node, then by cursor, which orders the global
        positions when one node means one buffer. */
    function Less(other: Iter): (b: bool)
      reads this, other
      requires Shaped() && other.Shaped() && bufSize == other.bufSize
      requires node == other.node ==> first == other.first
      ensures b <==> Pos() < other.Pos()
    {
      CursorOrder(node, first, cur, other.node, other.first, other.cur, bufSize);
      if node == other.node then cur < other.cur else node < other.node
    }

    /** operator==: compares cursors only, which is equality of the global
        positions when distinct nodes hold disjoint buffers. */
    function Equal(other: Iter): (b: bool)
      reads this, other
      requires Shaped() && other.Shaped() && bufSize == other.bufSize
      requires node == other.node ==> first == other.first
      requires node != other.node ==> last <= other.first || other.last <= first
      ensures b <==> Pos() == other.Pos()
    {
      CursorOrder(node, first, cur, other.node, other.first, other.cur, bufSize);
      cur == other.cur
    }
  }

  /** `(it + n) - it == n`, through the code of += and of operator-. */
  method PlusThenDiff(slots: seq<int>, it: Iter, n: int) returns (d: int)
    requires it.Valid(slots) && 0 <= it.Pos() + n < |slots| * it.bufSize
    ensures d == n
  {
    var r := it.Plus(slots, n);
    d := r.Diff(it);
  }

  /** ++ then -- returns to the same cursor and node. */
  method IncrementThenDecrement(slots: seq<int>, it: Iter) returns (same: bool)
    requires it.Valid(slots) && (it.cur + 1 == it.last ==> it.node + 1 < |slots|)
    ensures same
  {
    var r := it.Clone();
    r.Increment(slots);
    r.Decrement(slots);
    same := r.cur == it.cur && r.node == it.node && r.first == it.first;
  }
}
