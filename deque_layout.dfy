// Value-level layout of mini::ctnr::deque.
//
// The map is a sequence of node slots, each naming a buffer address; `bufs` maps every
// buffer the deque owns to its bufSize element slots. A Cursor (node index, offset inside
// that node's buffer) plays the role of the begin_ and end_ iterators: the offset is the
// source's `cur - first`. The lemmas here describe, on values, what each deque operation
// does to the layout; the class in deque.dfy applies them step by step.
module DequeLayout {
  import opened DequeIterator

  /** A position in the map: node index and offset `cur - first` inside that node's buffer. */
  datatype Cursor = Cursor(node: nat, off: nat)

  /** Rank of slot (n, o) counted from cursor b: the iterator difference `(n, o) - b`. */
  function Rank(b: Cursor, bufSize: nat, n: int, o: int): int
  {
    (n - b.node) * bufSize + o - b.off
  }

  /** Number of elements from b up to f: `end_ - begin_`. */
  function Gap(b: Cursor, f: Cursor, bufSize: nat): int
  {
    Rank(b, bufSize, f.node, f.off)
  }

  /** The cursor k elements after b: the iterator `b + k`, node offset by floor division. */
  function Locate(b: Cursor, bufSize: nat, k: nat): (c: Cursor)
    requires 1 <= bufSize
    ensures c.off < bufSize && b.node <= c.node
    ensures Rank(b, bufSize, c.node, c.off) == k
  {
    DivBounds(b.off + k, bufSize);
    Cursor(b.node + (b.off + k) / bufSize, (b.off + k) % bufSize)
  }

  function Repeat(v: int, n: nat): (r: seq<int>)
    ensures |r| == n && forall i :: 0 <= i < n ==> r[i] == v
  {
    seq(n, _ => v)
  }

  /** Buffer addresses named by map slots lo..hi (inclusive). */
  ghost function Live(s: seq<nat>, lo: nat, hi: nat): set<nat>
    requires hi < |s|
  {
    set n | lo <= n <= hi :: s[n]
  }

  /** Buffer addresses named by map slots lo..hi-1. */
  ghost function Addresses(s: seq<nat>, lo: nat, hi: nat): set<nat>
  {
    set n | lo <= n < hi && n < |s| :: s[n]
  }

  ghost predicate Distinct(s: seq<nat>, lo: nat, hi: nat)
    requires hi < |s|
  {
    forall n, m :: lo <= n < m <= hi ==> s[n] != s[m]
  }

  /**
   * The shape of a deque: cursors inside the map and inside their buffers, every node from
   * the begin node to the end node naming its own buffer of bufSize slots, and the owned
   * buffers being exactly those (nothing leaked).
   */
  ghost predicate Shape(s: seq<nat>, bufs: map<nat, seq<int>>, bufSize: nat, b: Cursor, f: Cursor)
  {
    && 1 <= bufSize && b.node <= f.node < |s| && b.off < bufSize && f.off < bufSize
    && (forall n :: b.node <= n <= f.node ==> s[n] in bufs && |bufs[s[n]]| == bufSize)
    && Distinct(s, b.node, f.node)
    && bufs.Keys == Live(s, b.node, f.node)
  }

  /** The layout stores exactly the element sequence e from cursor b up to cursor f. */
  ghost predicate Layout(s: seq<nat>, bufs: map<nat, seq<int>>, bufSize: nat, b: Cursor, f: Cursor, e: seq<int>)
  {
    && Shape(s, bufs, bufSize, b, f)
    && |e| == Gap(b, f, bufSize)
    && forall n, o :: b.node <= n <= f.node && 0 <= o < bufSize && 0 <= Rank(b, bufSize, n, o) < |e| ==>
         bufs[s[n]][o] == e[Rank(b, bufSize, n, o)]
  }

  // ---------------------------------------------------------------- positions

  lemma RankInjective(b: Cursor, bufSize: nat, n1: int, o1: int, n2: int, o2: int)
    requires 0 <= o1 < bufSize && 0 <= o2 < bufSize
    requires Rank(b, bufSize, n1, o1) == Rank(b, bufSize, n2, o2)
    ensures n1 == n2 && o1 == o2
  {
    if n1 < n2 {
      PosOrder(n1 - b.node, o1, n2 - b.node, o2, bufSize);
    } else if n2 < n1 {
      PosOrder(n2 - b.node, o2, n1 - b.node, o1, bufSize);
    }
  }

  /** A cursor at most |e| elements after begin stays at or before the end node. */
  lemma LocateIn(b: Cursor, f: Cursor, bufSize: nat, k: nat)
    requires 1 <= bufSize && b.off < bufSize && f.off < bufSize
    requires k <= Gap(b, f, bufSize)
    ensures Locate(b, bufSize, k).node <= f.node
    ensures k == Gap(b, f, bufSize) ==> Locate(b, bufSize, k) == f
  {
    var c := Locate(b, bufSize, k);
    if f.node < c.node {
      PosOrder(f.node - b.node, f.off, c.node - b.node, c.off, bufSize);
    }
    if k == Gap(b, f, bufSize) {
      RankInjective(b, bufSize, c.node, c.off, f.node, f.off);
    }
  }

  /** Every slot of the end node from its offset on, and of later nodes, ranks at or past |e|. */
  lemma RankPast(b: Cursor, f: Cursor, bufSize: nat, n: int, o: int)
    requires 0 <= o < bufSize && f.off < bufSize
    requires f.node < n || (n == f.node && f.off <= o)
    ensures Gap(b, f, bufSize) <= Rank(b, bufSize, n, o)
  {
    if f.node < n {
      PosOrder(f.node - b.node, f.off, n - b.node, o, bufSize);
    }
  }

  lemma MulStep(x: int, y: int)
    ensures (x + 1) * y == x * y + y
  {
  }

  // ---------------------------------------------------------------- owned buffers

  lemma LiveFrame(s: seq<nat>, t: seq<nat>, lo: nat, hi: nat)
    requires hi < |s| && hi < |t|
    requires forall n :: lo <= n <= hi ==> s[n] == t[n]
    ensures Live(s, lo, hi) == Live(t, lo, hi)
  {
  }

  lemma LiveHigh(s: seq<nat>, lo: nat, hi: nat)
    requires lo <= hi + 1 < |s|
    ensures Live(s, lo, hi + 1) == Live(s, lo, hi) + {s[hi + 1]}
  {
  }

  lemma LiveLow(s: seq<nat>, lo: nat, hi: nat)
    requires 1 <= lo <= hi < |s|
    ensures Live(s, lo - 1, hi) == Live(s, lo, hi) + {s[lo - 1]}
  {
  }

  lemma LiveShift(s: seq<nat>, t: seq<nat>, lo: nat, hi: nat, lo': nat, hi': nat)
    requires lo <= hi < |s| && hi' < |t| && hi' - lo' == hi - lo
    requires forall n :: lo' <= n <= hi' ==> t[n] == s[n - lo' + lo]
    ensures Live(t, lo', hi') == Live(s, lo, hi)
  {
    forall a | a in Live(s, lo, hi)
      ensures a in Live(t, lo', hi')
    {
      var n :| lo <= n <= hi && s[n] == a;
      assert t[n - lo + lo'] == a;
    }
  }

  /** Buffers numbered a0, a0+1, ... in consecutive slots. */
  lemma LiveSequential(s: seq<nat>, lo: nat, hi: nat, a0: nat)
    requires lo <= hi < |s|
    requires forall n :: lo <= n <= hi ==> s[n] == a0 + (n - lo)
    ensures forall a :: a in Live(s, lo, hi) <==> a0 <= a <= a0 + (hi - lo)
  {
    forall a | a0 <= a <= a0 + (hi - lo)
      ensures a in Live(s, lo, hi)
    {
      assert s[lo + (a - a0)] == a;
    }
  }

  /**
   * create_map_and_nodes: fresh buffers a0, a0+1, ... in the slots lo..hi, with hi - lo the
   * quotient count / bufSize, have the shape of a deque of count elements.
   */
  lemma SequentialShape(s: seq<nat>, bufs: map<nat, seq<int>>, bufSize: nat, lo: nat, hi: nat, a0: nat, count: nat)
    requires 1 <= bufSize && lo <= hi < |s| && hi - lo == count / bufSize
    requires forall n :: lo <= n <= hi ==> s[n] == a0 + (n - lo)
    requires forall a :: a in bufs <==> a0 <= a <= a0 + (hi - lo)
    requires forall a :: a in bufs ==> |bufs[a]| == bufSize
    ensures Shape(s, bufs, bufSize, Cursor(lo, 0), Cursor(hi, count % bufSize))
    ensures Gap(Cursor(lo, 0), Cursor(hi, count % bufSize), bufSize) == count
  {
    LiveSequential(s, lo, hi, a0);
    assert bufs.Keys == Live(s, lo, hi);
    DivBounds(count, bufSize);
  }

  // ---------------------------------------------------------------- element access

  /** Writing through the iterator `begin + k` replaces element k and nothing else. */
  lemma WriteAt(s: seq<nat>, bufs: map<nat, seq<int>>, bufSize: nat, b: Cursor, f: Cursor, e: seq<int>, k: nat, v: int)
    requires Layout(s, bufs, bufSize, b, f, e) && k < |e|
    ensures Locate(b, bufSize, k).node <= f.node
    ensures var c := Locate(b, bufSize, k);
      Layout(s, bufs[s[c.node] := bufs[s[c.node]][c.off := v]], bufSize, b, f, e[k := v])
  {
    var c := Locate(b, bufSize, k);
    LocateIn(b, f, bufSize, k);
    var x := s[c.node];
    var bufs' := bufs[x := bufs[x][c.off := v]];
    var e' := e[k := v];
    assert bufs'.Keys == bufs.Keys;
    forall n, o | b.node <= n <= f.node && 0 <= o < bufSize && 0 <= Rank(b, bufSize, n, o) < |e'|
      ensures bufs'[s[n]][o] == e'[Rank(b, bufSize, n, o)]
    {
      if s[n] == x {
        assert n == c.node;
        if o != c.off && Rank(b, bufSize, n, o) == k {
          RankInjective(b, bufSize, n, o, c.node, c.off);
        }
      } else if Rank(b, bufSize, n, o) == k {
        RankInjective(b, bufSize, n, o, c.node, c.off);
      }
    }
  }

  /** Reading through the iterator `begin + k` yields element k. */
  lemma ReadAt(s: seq<nat>, bufs: map<nat, seq<int>>, bufSize: nat, b: Cursor, f: Cursor, e: seq<int>, k: nat)
    requires Layout(s, bufs, bufSize, b, f, e) && k < |e|
    ensures var c := Locate(b, bufSize, k);
      c.node <= f.node && s[c.node] in bufs && c.off < |bufs[s[c.node]]| &&
      bufs[s[c.node]][c.off] == e[k]
  {
    LocateIn(b, f, bufSize, k);
  }

  /** The element count from the source's iterator difference formula. */
  lemma GapFormula(b: Cursor, f: Cursor, bufSize: nat)
    ensures Gap(b, f, bufSize) == bufSize * (f.node - b.node - 1) + f.off + (bufSize - b.off)
  {
    assert (f.node - b.node) * bufSize == bufSize * (f.node - b.node - 1) + bufSize;
  }

  /** A deque is empty exactly when its two cursors coincide. */
  lemma EmptyIffSame(s: seq<nat>, bufs: map<nat, seq<int>>, bufSize: nat, b: Cursor, f: Cursor, e: seq<int>)
    requires Layout(s, bufs, bufSize, b, f, e)
    ensures |e| == 0 <==> b == f
  {
    if |e| == 0 {
      RankInjective(b, bufSize, f.node, f.off, b.node, b.off);
    }
  }

  // ---------------------------------------------------------------- push and pop

  /** push_back with room left in the end buffer. */
  lemma PushBackFast(s: seq<nat>, bufs: map<nat, seq<int>>, bufSize: nat, b: Cursor, f: Cursor, e: seq<int>, v: int)
    requires Layout(s, bufs, bufSize, b, f, e) && f.off + 1 < bufSize
    ensures Layout(s, bufs[s[f.node] := bufs[s[f.node]][f.off := v]], bufSize, b, Cursor(f.node, f.off + 1), e + [v])
  {
    var x := s[f.node];
    var bufs' := bufs[x := bufs[x][f.off := v]];
    var f' := Cursor(f.node, f.off + 1);
    var e' := e + [v];
    assert bufs'.Keys == bufs.Keys;
    forall n, o | b.node <= n <= f'.node && 0 <= o < bufSize && 0 <= Rank(b, bufSize, n, o) < |e'|
      ensures bufs'[s[n]][o] == e'[Rank(b, bufSize, n, o)]
    {
      if n == f.node && o == f.off {
      } else if Rank(b, bufSize, n, o) == |e| {
        RankInjective(b, bufSize, n, o, f.node, f.off);
      }
    }
  }

  /** A fresh buffer x placed in the slot after the end node extends the shape by one node. */
  lemma ShapeBack(s: seq<nat>, bufs: map<nat, seq<int>>, bufSize: nat, b: Cursor, f: Cursor,
                  x: nat, buf: seq<int>, off: nat)
    requires Shape(s, bufs, bufSize, b, f) && f.node + 1 < |s| && off < bufSize
    requires x !in bufs && |buf| == bufSize
    ensures Shape(s[f.node + 1 := x], bufs[x := buf], bufSize, b, Cursor(f.node + 1, off))
  {
    var s' := s[f.node + 1 := x];
    LiveFrame(s, s', b.node, f.node);
    LiveHigh(s', b.node, f.node);
    forall n, m | b.node <= n < m <= f.node + 1
      ensures s'[n] != s'[m]
    {
      if m == f.node + 1 {
        assert s'[n] == s[n] && s[n] in bufs;
      }
    }
  }

  /** Overwriting one owned buffer with one of the same size keeps the shape. */
  lemma ShapeWrite(s: seq<nat>, bufs: map<nat, seq<int>>, bufSize: nat, b: Cursor, f: Cursor, a: nat, buf: seq<int>)
    requires Shape(s, bufs, bufSize, b, f) && a in bufs && |buf| == bufSize
    ensures Shape(s, bufs[a := buf], bufSize, b, f)
  {
    assert bufs[a := buf].Keys == bufs.Keys;
  }

  /** push_back_aux: a fresh buffer x goes into the slot after the end node. */
  lemma PushBackSlow(s: seq<nat>, bufs: map<nat, seq<int>>, bufSize: nat, b: Cursor, f: Cursor, e: seq<int>,
                     v: int, x: nat, buf0: seq<int>,
                     s': seq<nat>, bufs': map<nat, seq<int>>, f': Cursor, e': seq<int>)
    requires Layout(s, bufs, bufSize, b, f, e) && f.off + 1 == bufSize && f.node + 1 < |s|
    requires x !in bufs && |buf0| == bufSize
    requires s' == s[f.node + 1 := x] && bufs' == bufs[x := buf0][s[f.node] := bufs[s[f.node]][f.off := v]]
    requires f' == Cursor(f.node + 1, 0) && e' == e + [v]
    ensures Layout(s', bufs', bufSize, b, f', e')
  {
    var w := s[f.node];
    assert s'[f.node] == w;
    ShapeBack(s, bufs, bufSize, b, f, x, buf0, 0);
    ShapeWrite(s', bufs[x := buf0], bufSize, b, f', w, bufs[w][f.off := v]);
    MulStep(f.node - b.node, bufSize);
    assert Gap(b, f', bufSize) == |e'|;
    forall n, o | b.node <= n <= f'.node && 0 <= o < bufSize && 0 <= Rank(b, bufSize, n, o) < |e'|
      ensures bufs'[s'[n]][o] == e'[Rank(b, bufSize, n, o)]
    {
      if n == f'.node {
        RankPast(b, f', bufSize, n, o);
      } else if n == f.node && o == f.off {
      } else if Rank(b, bufSize, n, o) == |e| {
        RankInjective(b, bufSize, n, o, f.node, f.off);
      } else {
        assert s'[n] == s[n];
      }
    }
  }

  /** push_front with room left before the begin cursor. */
  lemma PushFrontFast(s: seq<nat>, bufs: map<nat, seq<int>>, bufSize: nat, b: Cursor, f: Cursor, e: seq<int>, v: int)
    requires Layout(s, bufs, bufSize, b, f, e) && 1 <= b.off
    ensures Layout(s, bufs[s[b.node] := bufs[s[b.node]][b.off - 1 := v]], bufSize, Cursor(b.node, b.off - 1), f, [v] + e)
  {
    var x := s[b.node];
    var bufs' := bufs[x := bufs[x][b.off - 1 := v]];
    var b' := Cursor(b.node, b.off - 1);
    var e' := [v] + e;
    assert bufs'.Keys == bufs.Keys;
    forall n, o | b'.node <= n <= f.node && 0 <= o < bufSize && 0 <= Rank(b', bufSize, n, o) < |e'|
      ensures bufs'[s[n]][o] == e'[Rank(b', bufSize, n, o)]
    {
      assert Rank(b', bufSize, n, o) == Rank(b, bufSize, n, o) + 1;
      if n == b.node && o == b.off - 1 {
      } else if Rank(b', bufSize, n, o) == 0 {
        RankInjective(b', bufSize, n, o, b.node, b.off - 1);
      }
    }
  }

  /** A fresh buffer x placed in the slot before the begin node extends the shape by one node. */
  lemma ShapeFront(s: seq<nat>, bufs: map<nat, seq<int>>, bufSize: nat, b: Cursor, f: Cursor,
                   x: nat, buf: seq<int>, off: nat)
    requires Shape(s, bufs, bufSize, b, f) && 1 <= b.node && off < bufSize
    requires x !in bufs && |buf| == bufSize
    ensures Shape(s[b.node - 1 := x], bufs[x := buf], bufSize, Cursor(b.node - 1, off), f)
  {
    var s' := s[b.node - 1 := x];
    LiveFrame(s, s', b.node, f.node);
    LiveLow(s', b.node, f.node);
    forall n, m | b.node - 1 <= n < m <= f.node
      ensures s'[n] != s'[m]
    {
      if n == b.node - 1 {
        assert s'[m] == s[m] && s[m] in bufs;
      }
    }
  }

  /** A cell of the old layout keeps its element one place further from a begin cursor moved to
      the last slot of the node before. */
  lemma FrontShiftCell(s: seq<nat>, bufs: map<nat, seq<int>>, bufSize: nat, b: Cursor, f: Cursor, e: seq<int>,
                       x: nat, n: int, o: int)
    requires Layout(s, bufs, bufSize, b, f, e) && b.off == 0 && 1 <= b.node && x !in bufs
    requires b.node <= n <= f.node && 0 <= o < bufSize
    requires Rank(Cursor(b.node - 1, bufSize - 1), bufSize, n, o) < |e| + 1
    ensures Rank(Cursor(b.node - 1, bufSize - 1), bufSize, n, o) == Rank(b, bufSize, n, o) + 1
    ensures 0 <= Rank(b, bufSize, n, o) < |e|
    ensures s[n] != x && bufs[s[n]][o] == e[Rank(b, bufSize, n, o)]
  {
    MulStep(n - b.node, bufSize);
    var r := Rank(b, bufSize, n, o);
    assert 0 <= (n - b.node) * bufSize;
    assert 0 <= r < |e|;
    assert s[n] in bufs;
  }

  /** push_front_aux: a fresh buffer x goes into the slot before the begin node, v at its last slot. */
  lemma PushFrontSlow(s: seq<nat>, bufs: map<nat, seq<int>>, bufSize: nat, b: Cursor, f: Cursor, e: seq<int>,
                      v: int, x: nat, buf0: seq<int>,
                      s': seq<nat>, bufs': map<nat, seq<int>>, b': Cursor, e': seq<int>)
    requires Layout(s, bufs, bufSize, b, f, e) && b.off == 0 && 1 <= b.node
    requires x !in bufs && |buf0| == bufSize
    requires s' == s[b.node - 1 := x] && bufs' == bufs[x := buf0[bufSize - 1 := v]]
    requires b' == Cursor(b.node - 1, bufSize - 1) && e' == [v] + e
    ensures Layout(s', bufs', bufSize, b', f, e')
  {
    ShapeFront(s, bufs, bufSize, b, f, x, buf0[bufSize - 1 := v], bufSize - 1);
    MulStep(f.node - b.node, bufSize);
    assert Gap(b', f, bufSize) == |e'|;
    forall n, o | b'.node <= n <= f.node && 0 <= o < bufSize && 0 <= Rank(b', bufSize, n, o) < |e'|
      ensures bufs'[s'[n]][o] == e'[Rank(b', bufSize, n, o)]
    {
      if n == b'.node {
        assert Rank(b', bufSize, n, o) == o - (bufSize - 1);
        assert s'[n] == x;
      } else {
        FrontShiftCell(s, bufs, bufSize, b, f, e, x, n, o);
        assert s'[n] == s[n];
      }
    }
  }

  /**
   * A sub-range of a layout, from the cursor d elements after begin up to a cursor no later
   * than end, is itself a layout once the buffers of that range are kept unchanged.
   */
  lemma SubLayout(s: seq<nat>, bufs: map<nat, seq<int>>, bufSize: nat, b: Cursor, f: Cursor, e: seq<int>,
                  bufs': map<nat, seq<int>>, b': Cursor, f': Cursor, d: nat, e': seq<int>)
    requires Layout(s, bufs, bufSize, b, f, e)
    requires b.node <= b'.node <= f'.node <= f.node && b'.off < bufSize && f'.off < bufSize
    requires Rank(b, bufSize, b'.node, b'.off) == d <= Rank(b, bufSize, f'.node, f'.off) <= |e|
    requires bufs'.Keys == Live(s, b'.node, f'.node)
    requires forall n :: b'.node <= n <= f'.node ==> bufs'[s[n]] == bufs[s[n]]
    requires e' == e[d..Rank(b, bufSize, f'.node, f'.off)]
    ensures Layout(s, bufs', bufSize, b', f', e')
  {
    forall n, o | b'.node <= n <= f'.node && 0 <= o < bufSize && 0 <= Rank(b', bufSize, n, o) < |e'|
      ensures bufs'[s[n]][o] == e'[Rank(b', bufSize, n, o)]
    {
      assert (n - b.node) * bufSize == (n - b'.node) * bufSize + (b'.node - b.node) * bufSize;
      assert Rank(b, bufSize, n, o) == Rank(b', bufSize, n, o) + d;
    }
    assert (f'.node - b.node) * bufSize == (f'.node - b'.node) * bufSize + (b'.node - b.node) * bufSize;
  }

  lemma LiveDropHigh(s: seq<nat>, lo: nat, hi: nat)
    requires lo < hi < |s| && Distinct(s, lo, hi)
    ensures Live(s, lo, hi - 1) == Live(s, lo, hi) - {s[hi]}
  {
    LiveHigh(s, lo, hi - 1);
    assert s[hi] !in Live(s, lo, hi - 1);
  }

  lemma LiveDropLow(s: seq<nat>, lo: nat, hi: nat)
    requires lo < hi < |s| && Distinct(s, lo, hi)
    ensures Live(s, lo + 1, hi) == Live(s, lo, hi) - {s[lo]}
  {
    LiveLow(s, lo + 1, hi);
    assert s[lo] !in Live(s, lo + 1, hi);
  }

  /** pop_back with an element in the end buffer. */
  lemma PopBackFast(s: seq<nat>, bufs: map<nat, seq<int>>, bufSize: nat, b: Cursor, f: Cursor, e: seq<int>)
    requires Layout(s, bufs, bufSize, b, f, e) && 1 <= |e| && 1 <= f.off
    ensures Layout(s, bufs, bufSize, b, Cursor(f.node, f.off - 1), e[..|e| - 1])
  {
    SubLayout(s, bufs, bufSize, b, f, e, bufs, b, Cursor(f.node, f.off - 1), 0, e[..|e| - 1]);
  }

  /** pop_back_aux: the end buffer holds no element; it is released and end_ steps back a node. */
  lemma PopBackSlow(s: seq<nat>, bufs: map<nat, seq<int>>, bufSize: nat, b: Cursor, f: Cursor, e: seq<int>)
    requires Layout(s, bufs, bufSize, b, f, e) && 1 <= |e| && f.off == 0
    ensures b.node < f.node
    ensures Layout(s, bufs - {s[f.node]}, bufSize, b, Cursor(f.node - 1, bufSize - 1), e[..|e| - 1])
  {
    if f.node == b.node {
      assert false;
    }
    LiveDropHigh(s, b.node, f.node);
    var f' := Cursor(f.node - 1, bufSize - 1);
    MulStep(f'.node - b.node, bufSize);
    assert Rank(b, bufSize, f'.node, f'.off) == |e| - 1;
    SubLayout(s, bufs, bufSize, b, f, e, bufs - {s[f.node]}, b, f', 0, e[..|e| - 1]);
  }

  /** pop_front with at least two slots left in the begin buffer. */
  lemma PopFrontFast(s: seq<nat>, bufs: map<nat, seq<int>>, bufSize: nat, b: Cursor, f: Cursor, e: seq<int>)
    requires Layout(s, bufs, bufSize, b, f, e) && 1 <= |e| && b.off + 1 < bufSize
    ensures Layout(s, bufs, bufSize, Cursor(b.node, b.off + 1), f, e[1..])
  {
    SubLayout(s, bufs, bufSize, b, f, e, bufs, Cursor(b.node, b.off + 1), f, 1, e[1..]);
  }

  /** pop_front_aux: the last slot of the begin buffer goes; the buffer is released. */
  lemma PopFrontSlow(s: seq<nat>, bufs: map<nat, seq<int>>, bufSize: nat, b: Cursor, f: Cursor, e: seq<int>)
    requires Layout(s, bufs, bufSize, b, f, e) && 1 <= |e| && b.off + 1 == bufSize
    ensures b.node < f.node
    ensures Layout(s, bufs - {s[b.node]}, bufSize, Cursor(b.node + 1, 0), f, e[1..])
  {
    if f.node == b.node {
      assert false;
    }
    LiveDropLow(s, b.node, f.node);
    assert Rank(b, bufSize, b.node + 1, 0) == 1;
    SubLayout(s, bufs, bufSize, b, f, e, bufs - {s[b.node]}, Cursor(b.node + 1, 0), f, 1, e[1..]);
  }

  // ---------------------------------------------------------------- map and buffers

  lemma ShapeRemap(s: seq<nat>, bufs: map<nat, seq<int>>, bufSize: nat, b: Cursor, f: Cursor, t: seq<nat>, nb: nat)
    requires Shape(s, bufs, bufSize, b, f)
    requires nb + (f.node - b.node) < |t|
    requires forall n :: nb <= n <= nb + (f.node - b.node) ==> t[n] == s[n - nb + b.node]
    ensures Shape(t, bufs, bufSize, Cursor(nb, b.off), Cursor(nb + (f.node - b.node), f.off))
  {
    LiveShift(s, t, b.node, f.node, nb, nb + (f.node - b.node));
    forall n | nb <= n <= nb + (f.node - b.node)
      ensures t[n] in bufs && |bufs[t[n]]| == bufSize
    {
      assert t[n] == s[n - nb + b.node];
    }
    forall n, m | nb <= n < m <= nb + (f.node - b.node)
      ensures t[n] != t[m]
    {
      assert t[n] == s[n - nb + b.node] && t[m] == s[m - nb + b.node];
    }
  }

  /** reallocate_map: the live slots move to a new place, in the same order; nothing else changes. */
  lemma Remap(s: seq<nat>, bufs: map<nat, seq<int>>, bufSize: nat, b: Cursor, f: Cursor, e: seq<int>,
              t: seq<nat>, nb: nat)
    requires Layout(s, bufs, bufSize, b, f, e)
    requires nb + (f.node - b.node) < |t|
    requires forall n :: nb <= n <= nb + (f.node - b.node) ==> t[n] == s[n - nb + b.node]
    ensures Layout(t, bufs, bufSize, Cursor(nb, b.off), Cursor(nb + (f.node - b.node), f.off), e)
  {
    var b' := Cursor(nb, b.off);
    var f' := Cursor(nb + (f.node - b.node), f.off);
    ShapeRemap(s, bufs, bufSize, b, f, t, nb);
    forall n, o | b'.node <= n <= f'.node && 0 <= o < bufSize && 0 <= Rank(b', bufSize, n, o) < |e|
      ensures bufs[t[n]][o] == e[Rank(b', bufSize, n, o)]
    {
      var m := n - nb + b.node;
      assert t[n] == s[m];
      assert Rank(b', bufSize, n, o) == Rank(b, bufSize, m, o);
    }
  }

  /** The buffers left after freeing the nodes outside lo..hi are exactly those of lo..hi. */
  lemma KeysBetween(s: seq<nat>, bufs: map<nat, seq<int>>, lo0: nat, hi0: nat, lo: nat, hi: nat)
    requires lo0 <= lo <= hi <= hi0 < |s|
    requires bufs.Keys <= Live(s, lo0, hi0)
    requires forall n :: lo0 <= n < lo ==> s[n] !in bufs
    requires forall n :: hi < n <= hi0 ==> s[n] !in bufs
    requires forall n :: lo <= n <= hi ==> s[n] in bufs
    ensures bufs.Keys == Live(s, lo, hi)
  {
    forall a | a in bufs
      ensures a in Live(s, lo, hi)
    {
      var n :| lo0 <= n <= hi0 && s[n] == a;
    }
  }

  /** clear: every buffer except the begin node's is gone and end_ is set to begin_. */
  lemma ClearTo(s: seq<nat>, bufs: map<nat, seq<int>>, bufSize: nat, b: Cursor, f: Cursor, e: seq<int>,
                bufs': map<nat, seq<int>>)
    requires Layout(s, bufs, bufSize, b, f, e)
    requires bufs'.Keys <= bufs.Keys
    requires s[b.node] in bufs' && |bufs'[s[b.node]]| == bufSize
    requires forall n :: b.node < n <= f.node ==> s[n] !in bufs'
    ensures Layout(s, bufs', bufSize, b, b, [])
    ensures bufs'.Keys == {s[b.node]}
  {
    KeysBetween(s, bufs', b.node, f.node, b.node, b.node);
  }

  /** erase at the front: drop the buffers before the node of `begin + k`. */
  lemma TrimFront(s: seq<nat>, bufs: map<nat, seq<int>>, bufSize: nat, b: Cursor, f: Cursor, e: seq<int>,
                  k: nat, bufs': map<nat, seq<int>>)
    requires Layout(s, bufs, bufSize, b, f, e) && k <= |e|
    requires bufs'.Keys <= bufs.Keys
    requires forall n :: b.node <= n < Locate(b, bufSize, k).node && n < |s| ==> s[n] !in bufs'
    requires forall n :: Locate(b, bufSize, k).node <= n <= f.node ==> s[n] in bufs' && bufs'[s[n]] == bufs[s[n]]
    ensures Locate(b, bufSize, k).node <= f.node
    ensures Layout(s, bufs', bufSize, Locate(b, bufSize, k), f, e[k..])
  {
    var c := Locate(b, bufSize, k);
    LocateIn(b, f, bufSize, k);
    KeysBetween(s, bufs', b.node, f.node, c.node, f.node);
    SubLayout(s, bufs, bufSize, b, f, e, bufs', c, f, k, e[k..]);
  }

  /** erase at the back: drop the buffers after the node of `end - k`. */
  lemma TrimBack(s: seq<nat>, bufs: map<nat, seq<int>>, bufSize: nat, b: Cursor, f: Cursor, e: seq<int>,
                 k: nat, bufs': map<nat, seq<int>>)
    requires Layout(s, bufs, bufSize, b, f, e) && k <= |e|
    requires bufs'.Keys <= bufs.Keys
    requires forall n :: Locate(b, bufSize, |e| - k).node < n <= f.node ==> s[n] !in bufs'
    requires forall n :: b.node <= n <= Locate(b, bufSize, |e| - k).node && n < |s| ==>
               s[n] in bufs' && bufs'[s[n]] == bufs[s[n]]
    ensures Locate(b, bufSize, |e| - k).node <= f.node
    ensures Layout(s, bufs', bufSize, b, Locate(b, bufSize, |e| - k), e[..|e| - k])
  {
    var c := Locate(b, bufSize, |e| - k);
    LocateIn(b, f, bufSize, |e| - k);
    KeysBetween(s, bufs', b.node, f.node, b.node, c.node);
    SubLayout(s, bufs, bufSize, b, f, e, bufs', b, c, 0, e[..|e| - k]);
  }

  /** fill_initialize: every slot in range holds value, so the deque holds n copies of it. */
  lemma Filled(s: seq<nat>, bufs: map<nat, seq<int>>, bufSize: nat, b: Cursor, f: Cursor, v: int, count: nat)
    requires Shape(s, bufs, bufSize, b, f) && Gap(b, f, bufSize) == count
    requires forall n, o :: b.node <= n <= f.node && 0 <= o < bufSize && 0 <= Rank(b, bufSize, n, o) < count ==>
               bufs[s[n]][o] == v
    ensures Layout(s, bufs, bufSize, b, f, Repeat(v, count))
  {
  }
}
