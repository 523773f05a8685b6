// The circular doubly-linked list of mini_container_list.h for int values.
// Node memory is addressed: a node is a positive address, and a `Nodes`
// object holds every allocated node's prev and next words and its data,
// keyed by address (0 is null).  Lists built on one `Nodes` share that
// memory, so nodes can move between them.  A list owns its sentinel node_;
// the ghost sequence `elems` lists the addresses of its element nodes from
// begin() on, and its ring is elems + [node_].  An iterator is the address
// of the node it points at; a ghost index names its place in the ring.

module ListContainer {
  import opened ListLinks
  import opened ListSeqs

  /** Every node address outside s keeps its link words and its data. */
  ghost predicate Kept(ln0: Links, d0: map<nat, int>, ln1: Links, d1: map<nat, int>, s: seq<nat>)
  {
    (forall x :: x in ln0.next && x !in s ==> x in ln1.next && ln1.next[x] == ln0.next[x]) &&
    (forall x :: x in ln0.prev && x !in s ==> x in ln1.prev && ln1.prev[x] == ln0.prev[x]) &&
    (forall x :: x in d0 && x !in s ==> x in d1 && d1[x] == d0[x])
  }

  /** A node allocated off s then linked in before a node of s keeps every
      node off s as it was. */
  lemma KeptInsert(ln0: Links, d0: map<nat, int>, ln2: Links, q: seq<nat>, p: nat, v: int)
    requires p !in ln0.next && p !in ln0.prev && p !in d0
    requires AgreeOff(Links(ln0.next[p := 0], ln0.prev[p := 0]), ln2, q + [p])
    ensures Kept(ln0, d0, ln2, d0[p := v], q)
  {
  }

  /** The outcome of moving the range [f, l) of eb in front of position p
      of ea: within one sequence (same), the range moves inside it;
      otherwise it leaves eb for ea. */
  ghost predicate Moved<T>(same: bool, ea: seq<T>, eb: seq<T>, ea1: seq<T>, eb1: seq<T>, p: nat, f: nat, l: nat)
  {
    if same then f <= l <= |ea| && p <= |ea| && ea1 == MoveRange(ea, p, f, l)
    else p <= |ea| && f <= l <= |eb| && ea1 == ea[..p] + eb[f..l] + ea[p..] && eb1 == eb[..f] + eb[l..]
  }

  /** Moving a range in front of a position inside it or just after it
      changes nothing. */
  lemma MovedStay<T>(same: bool, ea: seq<T>, eb: seq<T>, p: nat, f: nat, l: nat)
    requires same && f <= p <= l <= |ea|
    ensures Moved(same, ea, eb, ea, eb, p, f, l)
  {
  }

  /** When pos is i or the node after it, i and pos lie on one ring, at
      the same place or one apart. */
  lemma OneInPlace(qa: seq<nat>, qb: seq<nat>, same: bool, p: nat, f: nat)
    requires p < |qa| && f + 1 < |qb| && (same ==> qa == qb && NoDup(qa)) && (!same ==> NoDup(qa + qb))
    ensures qa[p] == qb[f] || qa[p] == qb[f + 1] ==> same && (p == f || p == f + 1)
  {
    if same {
      NoDupIndex(qa, p, f);
      NoDupIndex(qa, p, f + 1);
    } else {
      NoDupApart(qa, qb, p, f);
      NoDupApart(qa, qb, p, f + 1);
    }
  }

  /** A position that is neither the moved node nor the one after it lies
      outside the moved range. */
  lemma InPlaceApart(qa: seq<nat>, qb: seq<nat>, same: bool, p: nat, f: nat, pos: nat, i: nat, j: nat)
    requires p < |qa| && f + 1 < |qb| && (same ==> qa == qb && NoDup(qa)) && (!same ==> NoDup(qa + qb))
    requires pos == qa[p] && i == qb[f] && j == qb[f + 1] && pos != i && pos != j
    ensures same ==> p < f || f + 1 <= p
  {
    OneInPlace(qa, qb, same, p, f);
  }

  /** Moving an empty range changes nothing. */
  lemma MovedEmpty<T>(same: bool, ea: seq<T>, eb: seq<T>, p: nat, f: nat)
    requires p <= |ea| && f <= |eb| && (same ==> f <= |ea|)
    ensures Moved(same, ea, eb, ea, eb, p, f, f)
  {
    if same {
      MoveEmpty(ea, p, f);
    } else {
      assert ea == ea[..p] + eb[f..f] + ea[p..];
      assert eb == eb[..f] + eb[f..];
    }
  }

  lemma SliceAll<T>(s: seq<T>)
    ensures s[0..|s|] == s && s[..0] + s[|s|..] == []
  {
  }

  /** Links that agree off s, over unchanged data, keep every node off s. */
  lemma KeptAgree(ln0: Links, ln1: Links, d: map<nat, int>, s: seq<nat>)
    requires AgreeOff(ln0, ln1, s)
    ensures Kept(ln0, d, ln1, d, s)
  {
  }

  /** Two steps that each keep every node off their sequences keep every
      node off the first sequence, when the second touches no other node. */
  lemma KeptChain(ln0: Links, d0: map<nat, int>, ln1: Links, d1: map<nat, int>, ln2: Links, d2: map<nat, int>, s: seq<nat>, t: seq<nat>)
    requires Kept(ln0, d0, ln1, d1, s) && Kept(ln1, d1, ln2, d2, t) && multiset(t) <= multiset(s)
    ensures Kept(ln0, d0, ln2, d2, s)
  {
    forall x | x !in s ensures x !in t {
      assert multiset(s)[x] == 0;
    }
  }

  /** Keeping the nodes off q + q is keeping those off q. */
  lemma KeptTwice(ln0: Links, d0: map<nat, int>, ln1: Links, d1: map<nat, int>, q: seq<nat>)
    requires Kept(ln0, d0, ln1, d1, q + q)
    ensures Kept(ln0, d0, ln1, d1, q)
  {
  }

  /** The two lists' rings in either order. */
  lemma SwapPerm(a: seq<nat>, b: seq<nat>)
    requires NoDup(a + b)
    ensures NoDup(b + a) && multiset(b + a) == multiset(a + b)
  {
    NoDupPerm(a + b, b + a);
  }

  /** Destroying x keeps every node off s and x as it was. */
  lemma KeptDestroy(ln0: Links, d0: map<nat, int>, ln1: Links, d1: map<nat, int>, ln2: Links, d2: map<nat, int>, s: seq<nat>, x: nat)
    requires Kept(ln0, d0, ln1, d1, s)
    requires ln2.next == ln1.next - {x} && ln2.prev == ln1.prev - {x} && d2 == d1 - {x}
    ensures Kept(ln0, d0, ln2, d2, s + [x])
  {
  }

  /** The i-th node of e0 is off its first i and not the sentinel. */
  lemma ClearAt(e0: seq<nat>, i: nat)
    requires NoDup(e0) && i < |e0|
    ensures e0[i] !in e0[..i] && e0[..i + 1] == e0[..i] + [e0[i]]
  {
  }

  /** At the end of clear's loop every element node is destroyed. */
  lemma ClearDone(e0: seq<nat>, n: nat, i: nat)
    requires i == |e0|
    ensures e0[..i] == e0
  {
  }

  /** Agreeing off s is agreeing off any longer sequence. */
  lemma AgreeOffMore(ln0: Links, ln1: Links, s: seq<nat>, t: seq<nat>)
    requires AgreeOff(ln0, ln1, s)
    ensures AgreeOff(ln0, ln1, s + t)
  {
  }

  /** Node memory, and the node allocator the list draws on. */
  class Nodes {
    var next: map<nat, nat>
    var prev: map<nat, nat>
    var data: map<nat, int>
    /** The address the allocator hands out next. */
    var top: nat

    ghost predicate Valid()
      reads this
    {
      0 < top && next.Keys == prev.Keys && data.Keys <= next.Keys &&
      forall a :: a in next ==> 0 < a < top
    }

    function Words(): Links
      reads this
    {
      Links(next, prev)
    }

    constructor ()
      ensures Valid() && next == map[] && prev == map[] && data == map[] && top == 1
    {
      next, prev, data, top := map[], map[], map[], 1;
    }

    /** get_node(): a node not in use, its link words not yet set (null). */
    method GetNode() returns (p: nat)
      requires Valid()
      modifies this
      ensures Valid() && p == old(top) && p !in old(next) && top == p + 1
      ensures next == old(next)[p := 0] && prev == old(prev)[p := 0] && data == old(data)
    {
      p := top;
      next := next[p := 0];
      prev := prev[p := 0];
      top := top + 1;
    }

    /** create_node(value): get_node, then the data constructed. */
    method CreateNode(value: int) returns (p: nat)
      requires Valid()
      modifies this
      ensures Valid() && p == old(top) && p !in old(next) && top == p + 1
      ensures next == old(next)[p := 0] && prev == old(prev)[p := 0] && data == old(data)[p := value]
    {
      p := GetNode();
      data := data[p := value];
    }

    /** put_node(p): the node's memory given back. */
    method PutNode(p: nat)
      requires Valid() && p in next
      modifies this
      ensures Valid() && top == old(top)
      ensures next == old(next) - {p} && prev == old(prev) - {p} && data == old(data) - {p}
    {
      next := next - {p};
      prev := prev - {p};
      data := data - {p};
    }

    /** destroy_node(p): the data destroyed, then put_node. */
    method DestroyNode(p: nat)
      requires Valid() && p in next
      modifies this
      ensures Valid() && top == old(top)
      ensures next == old(next) - {p} && prev == old(prev) - {p} && data == old(data) - {p}
    {
      data := data - {p};
      PutNode(p);
    }

    /** a->next = b. */
    method SetNext(a: nat, b: nat)
      requires Valid() && a in next
      modifies this
      ensures Valid() && next == old(next)[a := b] && prev == old(prev) && data == old(data) && top == old(top)
    {
      next := next[a := b];
    }

    /** The six link writes of transfer(pos, first, last), pos != last. */
    method Relink(pos: nat, first: nat, last: nat)
      requires Valid() && pos in prev && first in prev && last in prev
      requires prev[pos] in next && prev[first] in next && prev[last] in next
      requires pos != last
      modifies this
      ensures Valid() && Words() == TransferLinks(old(Words()), pos, first, last)
      ensures data == old(data) && top == old(top)
    {
      SetNext(prev[last], pos);
      SetNext(prev[first], last);
      SetNext(prev[pos], first);
      var tmp := prev[pos];
      SetPrev(pos, prev[last]);
      SetPrev(last, prev[first]);
      SetPrev(first, tmp);
    }

    /** a->prev = b. */
    method SetPrev(a: nat, b: nat)
      requires Valid() && a in prev
      modifies this
      ensures Valid() && prev == old(prev)[a := b] && next == old(next) && data == old(data) && top == old(top)
    {
      prev := prev[a := b];
    }
  }

  class List {
    /** The node memory the list's nodes live in. */
    const mem: Nodes
    /** node_: the sentinel, which end() points at. */
    const node: nat
    /** The element nodes from begin() up to the sentinel. */
    ghost var elems: seq<nat>

    /** The ring of the list: the elements, then the sentinel. */
    ghost function Q(): seq<nat>
      reads this
    {
      elems + [node]
    }

    ghost predicate Valid()
      reads this, mem
    {
      mem.Valid() && Ring(mem.Words(), elems + [node]) && NoDup(elems + [node]) && AllIn(mem.data, elems)
    }

    /** The values from begin() to end(). */
    ghost function Contents(): seq<int>
      reads this, mem
      requires Valid()
    {
      Values(mem.data, elems)
    }

    /** list(): empty_initialize, a sentinel from get_node, then reset. */
    constructor (mem: Nodes)
      requires mem.Valid()
      modifies mem
      ensures Valid() && this.mem == mem && elems == [] && node == old(mem.top)
      ensures mem.next == old(mem.next)[node := node] && mem.prev == old(mem.prev)[node := node]
      ensures mem.data == old(mem.data) && mem.top == node + 1
    {
      this.mem := mem;
      var p := mem.GetNode();
      node := p;
      elems := [];
      new;
      Reset();
    }

    /** reset(): the sentinel linked to itself. */
    method Reset()
      requires mem.Valid() && node in mem.next
      modifies mem
      ensures mem.Valid() && mem.next == old(mem.next)[node := node] && mem.prev == old(mem.prev)[node := node]
      ensures mem.data == old(mem.data) && mem.top == old(mem.top)
    {
      mem.SetNext(node, node);
      mem.SetPrev(node, node);
    }

    /** begin(): the sentinel's successor, the first element or end(). */
    function Begin(): (it: nat)
      reads this, mem
      requires Valid()
      ensures it == Q()[0]
      ensures it == node <==> elems == []
    {
      assert (elems + [node])[|elems|] == node;
      NoDupEnds(elems + [node]);
      mem.next[node]
    }

    /** empty(): the sentinel leads to itself exactly when there is no
        element. */
    function Empty(): (b: bool)
      reads this, mem
      requires Valid()
      ensures b <==> elems == []
    {
      Begin() == node
    }

    /** size(): the steps from begin() to end(). */
    method Size() returns (n: nat)
      requires Valid()
      ensures n == |elems|
    {
      n := 0;
      var cur := Begin();
      while cur != node
        invariant n <= |elems| && cur == Q()[n]
        decreases |elems| - n
      {
        cur := mem.next[cur];
        n := n + 1;
      }
      NoDupIndex(Q(), n, |elems|);
    }

    /** front(): the value of begin(). */
    function Front(): (v: int)
      reads this, mem
      requires Valid() && elems != []
      ensures v == Contents()[0]
    {
      mem.data[Begin()]
    }

    /** back(): the value of the node before end(). */
    function Back(): (v: int)
      reads this, mem
      requires Valid() && elems != []
      ensures v == Contents()[|elems| - 1]
    {
      assert (elems + [node])[|elems| - 1] == elems[|elems| - 1] && (elems + [node])[|elems|] == node;
      mem.data[mem.prev[node]]
    }

    /** insert_at(pos, value): a new node holding value, linked in just
        before pos, the k-th node of the ring; returns the new node. */
    method InsertAt(pos: nat, value: int, ghost k: nat) returns (it: nat)
      requires Valid() && k <= |elems| && pos == Q()[k]
      modifies mem, this
      ensures Valid() && it == old(mem.top) && mem.top == it + 1
      ensures elems == old(elems[..k]) + [it] + old(elems[k..])
      ensures Contents() == old(Contents()[..k]) + [value] + old(Contents()[k..])
      ensures Kept(old(mem.Words()), old(mem.data), mem.Words(), mem.data, old(Q()))
    {
      ghost var ln0, d0 := mem.Words(), mem.data;
      var p := mem.CreateNode(value);
      ghost var ln1 := mem.Words();
      RingAlloc(ln0, Q(), p, 0, 0);
      RingPrev(ln1, Q(), k);
      InsertElems(ln1, elems, node, k, p);
      mem.SetNext(mem.prev[pos], p);
      mem.SetPrev(p, mem.prev[pos]);
      mem.SetNext(p, pos);
      mem.SetPrev(pos, p);
      assert mem.Words() == InsertLinks(ln1, pos, p);
      ValuesInsert(d0, elems, k, p, value);
      KeptInsert(ln0, d0, mem.Words(), Q(), p, value);
      elems := elems[..k] + [p] + elems[k..];
      it := p;
    }

    /** erase_at(pos): pos, the k-th element, unlinked and destroyed;
        returns its successor. */
    method EraseAt(pos: nat, ghost k: nat) returns (it: nat)
      requires Valid() && k < |elems| && pos == elems[k]
      modifies mem, this
      ensures Valid() && it == old(Q())[k + 1] && pos !in mem.next && mem.top == old(mem.top)
      ensures elems == old(elems[..k] + elems[k + 1..])
      ensures Contents() == old(Contents()[..k] + Contents()[k + 1..])
      ensures Kept(old(mem.Words()), old(mem.data), mem.Words(), mem.data, old(Q()))
    {
      ghost var ln0, d0 := mem.Words(), mem.data;
      EraseElems(ln0, elems, node, k);
      NoDupSplit(elems, [node]);
      var prevNode := mem.prev[pos];
      var nextNode := mem.next[pos];
      mem.SetNext(prevNode, nextNode);
      mem.SetPrev(nextNode, prevNode);
      mem.DestroyNode(pos);
      assert mem.Words() == EraseLinks(ln0, pos);
      ValuesErase(d0, elems, k);
      elems := elems[..k] + elems[k + 1..];
      it := nextNode;
    }

    /** push_back(value): insert_at(end(), value). */
    method PushBack(value: int)
      requires Valid()
      modifies mem, this
      ensures Valid() && Contents() == old(Contents()) + [value]
      ensures elems == old(elems) + [old(mem.top)] && mem.top == old(mem.top) + 1
      ensures Kept(old(mem.Words()), old(mem.data), mem.Words(), mem.data, old(Q()))
    {
      InsertEnds(elems, mem.top);
      InsertEnds(Contents(), value);
      var _ := InsertAt(node, value, |elems|);
    }

    /** push_front(value): insert_at(begin(), value). */
    method PushFront(value: int)
      requires Valid()
      modifies mem, this
      ensures Valid() && Contents() == [value] + old(Contents())
      ensures elems == [old(mem.top)] + old(elems) && mem.top == old(mem.top) + 1
      ensures Kept(old(mem.Words()), old(mem.data), mem.Words(), mem.data, old(Q()))
    {
      InsertEnds(elems, mem.top);
      InsertEnds(Contents(), value);
      var _ := InsertAt(Begin(), value, 0);
    }

    /** pop_back(): erase_at(--end()); the list must not be empty. */
    method PopBack()
      requires Valid() && elems != []
      modifies mem, this
      ensures Valid() && Contents() == old(Contents()[..|elems| - 1])
      ensures elems == old(elems[..|elems| - 1]) && mem.top == old(mem.top)
      ensures Kept(old(mem.Words()), old(mem.data), mem.Words(), mem.data, old(Q()))
    {
      ghost var e, c := elems, Contents();
      var it := node;
      assert Q()[|elems| - 1] == elems[|elems| - 1] && Q()[|elems|] == node;
      it := mem.prev[it];
      var _ := EraseAt(it, |elems| - 1);
      assert e[|e| - 1 + 1..] == [] && c[|e| - 1 + 1..] == [];
    }

    /** pop_front(): erase_at(begin()); the list must not be empty. */
    method PopFront()
      requires Valid() && elems != []
      modifies mem, this
      ensures Valid() && Contents() == old(Contents()[1..])
      ensures elems == old(elems[1..]) && mem.top == old(mem.top)
      ensures Kept(old(mem.Words()), old(mem.data), mem.Words(), mem.data, old(Q()))
    {
      ghost var e, c := elems, Contents();
      var _ := EraseAt(Begin(), 0);
      assert e[..0] == [] && c[..0] == [];
    }

    /** insert(pos, value): insert_at(pos, value), with no iterator
        returned. */
    method Insert(pos: nat, value: int, ghost k: nat)
      requires Valid() && k <= |elems| && pos == Q()[k]
      modifies mem, this
      ensures Valid() && mem.top == old(mem.top) + 1
      ensures elems == old(elems[..k]) + [old(mem.top)] + old(elems[k..])
      ensures Contents() == old(Contents()[..k]) + [value] + old(Contents()[k..])
      ensures Kept(old(mem.Words()), old(mem.data), mem.Words(), mem.data, old(Q()))
    {
      var _ := InsertAt(pos, value, k);
    }

    /** erase(pos): erase_at(pos). */
    method Erase(pos: nat, ghost k: nat) returns (it: nat)
      requires Valid() && k < |elems| && pos == elems[k]
      modifies mem, this
      ensures Valid() && it == old(Q())[k + 1] && pos !in mem.next && mem.top == old(mem.top)
      ensures elems == old(elems[..k] + elems[k + 1..])
      ensures Contents() == old(Contents()[..k] + Contents()[k + 1..])
      ensures Kept(old(mem.Words()), old(mem.data), mem.Words(), mem.data, old(Q()))
    {
      it := EraseAt(pos, k);
    }

    /** transfer(pos, first, last): the nodes [first, last) of src, its
        f-th to (l - 1)-th, move in front of pos, the p-th node of this
        ring.  src may be this list when pos lies outside [first, last).
        The range is never empty: with first == last the code breaks the
        ring, and its callers rule that out. */
    method Transfer(pos: nat, first: nat, last: nat, ghost src: List, ghost p: nat, ghost f: nat, ghost l: nat)
      requires Valid() && src.Valid() && src.mem == mem
      requires p <= |elems| && pos == Q()[p] && f < l <= |src.elems| && first == src.Q()[f] && last == src.Q()[l]
      requires src == this ==> p < f || l <= p
      requires src != this ==> NoDup(Q() + src.Q())
      modifies mem, this, src
      ensures Valid() && src.Valid() && mem.data == old(mem.data) && mem.top == old(mem.top)
      ensures Moved(src == this, old(elems), old(src.elems), elems, src.elems, p, f, l)
      ensures Moved(src == this, old(Contents()), old(src.Contents()), Contents(), src.Contents(), p, f, l)
      ensures src != this ==> NoDup(Q() + src.Q())
      ensures Kept(old(mem.Words()), old(mem.data), mem.Words(), mem.data, old(Q() + src.Q()))
    {
      ghost var ln0 := mem.Words();
      ghost var q0 := Q() + src.Q();
      if src != this {
        NoDupApart(Q(), src.Q(), p, l);
      } else {
        NoDupIndex(Q(), p, l);
      }
      if pos == last {
        return;
      }
      RingPrev(ln0, Q(), p);
      RingPrev(ln0, src.Q(), f);
      RingPrev(ln0, src.Q(), l);
      mem.Relink(pos, first, last);
      if src == this {
        MovedWithin(ln0, p, f, l);
      } else {
        MovedAcross(src, ln0, p, f, l);
      }
      KeptAgree(ln0, mem.Words(), mem.data, q0);
    }

    /** The ghost state after transfer within this list: the ring read in
        its new order. */
    ghost method MovedWithin(ln0: Links, p: nat, f: nat, l: nat)
      requires mem.Valid() && Ring(ln0, elems + [node]) && NoDup(elems + [node]) && AllIn(mem.data, elems)
      requires p <= |elems| && f < l <= |elems| && (p < f || l < p)
      requires mem.Words() == TransferLinks(ln0, Q()[p], Q()[f], Q()[l])
      modifies this
      ensures Valid()
      ensures Moved(true, old(elems), old(elems), elems, elems, p, f, l)
      ensures Moved(true, Values(mem.data, old(elems)), Values(mem.data, old(elems)), Contents(), Contents(), p, f, l)
      ensures AgreeOff(ln0, mem.Words(), old(Q() + Q()))
    {
      ghost var e := elems;
      TransferInside(ln0, e, node, p, f, l);
      AgreeOffMore(ln0, mem.Words(), Q(), Q());
      ValuesMove(mem.data, e, p, f, l);
      elems := MoveRange(e, p, f, l);
    }

    /** The ghost state after transfer from src into this list: both rings
        read in their new order. */
    ghost method MovedAcross(src: List, ln0: Links, p: nat, f: nat, l: nat)
      requires src != this && src.mem == mem && mem.Valid()
      requires Ring(ln0, elems + [node]) && Ring(ln0, src.elems + [src.node]) && NoDup(Q() + src.Q())
      requires AllIn(mem.data, elems) && AllIn(mem.data, src.elems)
      requires p <= |elems| && f < l <= |src.elems|
      requires mem.Words() == TransferLinks(ln0, Q()[p], src.Q()[f], src.Q()[l])
      modifies this, src
      ensures Valid() && src.Valid() && NoDup(Q() + src.Q())
      ensures Moved(false, old(elems), old(src.elems), elems, src.elems, p, f, l)
      ensures Moved(false, Values(mem.data, old(elems)), Values(mem.data, old(src.elems)), Contents(), src.Contents(), p, f, l)
      ensures AgreeOff(ln0, mem.Words(), old(Q() + src.Q()))
    {
      ghost var ea, eb := elems, src.elems;
      TransferCross(ln0, ea, node, eb, src.node, p, f, l);
      ValuesCross(mem.data, ea, eb, p, f, l);
      elems := ea[..p] + eb[f..l] + ea[p..];
      src.elems := eb[..f] + eb[l..];
      NoDupSplit(Q(), src.Q());
    }

    /** The loop state of reverse(): the first i of the elements e0 in
        reverse order, then the others in place; cur the i-th node. */
    ghost predicate Reversing(e0: seq<nat>, ln0: Links, d0: map<nat, int>, i: nat, cur: nat)
      reads this, mem
    {
      Valid() && mem.data == d0 && 1 <= i <= |e0| && elems == Reversed(e0[..i]) + e0[i..] && cur == Q()[i] &&
      multiset(Q()) == multiset(e0 + [node]) && Kept(ln0, d0, mem.Words(), d0, e0 + [node])
    }

    /** reverse(): nothing for at most one element; otherwise each element
        from the second on moves in front of begin(). */
    method Reverse()
      requires Valid()
      modifies mem, this
      ensures Valid() && mem.data == old(mem.data) && mem.top == old(mem.top)
      ensures elems == Reversed(old(elems)) && Contents() == Reversed(old(Contents()))
      ensures Kept(old(mem.Words()), old(mem.data), mem.Words(), mem.data, old(Q()))
    {
      ValuesReversed(mem.data, elems);
      var n := Size();
      if n <= 1 {
        ReversedShort(elems);
        ReversedShort(Contents());
        return;
      }
      ReverseLoop();
    }

    /** The loop of reverse() on a list of two or more elements. */
    method ReverseLoop()
      requires Valid() && 2 <= |elems|
      modifies mem, this
      ensures Valid() && mem.data == old(mem.data) && mem.top == old(mem.top)
      ensures elems == Reversed(old(elems))
      ensures Kept(old(mem.Words()), old(mem.data), mem.Words(), mem.data, old(Q()))
    {
      ghost var e0, ln0, d0 := elems, mem.Words(), mem.data;
      var cur := Begin();
      RingNext(ln0, Q(), 0);
      cur := mem.next[cur];
      ghost var i: nat := 1;
      ReverseStart(e0);
      while cur != node
        invariant Reversing(e0, ln0, d0, i, cur) && mem.top == old(mem.top)
        decreases |e0| - i
      {
        cur := ReverseOne(cur, e0, ln0, d0, i);
        i := i + 1;
      }
      NoDupIndex(Q(), i, |elems|);
      ReverseEnd(e0, elems, i);
    }

    /** One round of reverse(): the node cur, the i-th, moves in front of
        begin(); returns the node after it. */
    method ReverseOne(cur: nat, ghost e0: seq<nat>, ghost ln0: Links, ghost d0: map<nat, int>, ghost i: nat) returns (next: nat)
      requires Reversing(e0, ln0, d0, i, cur) && cur != node
      modifies mem, this
      ensures Reversing(e0, ln0, d0, i + 1, next) && mem.top == old(mem.top)
    {
      ghost var e, ln1 := elems, mem.Words();
      NoDupIndex(Q(), i, |elems|);
      RingNext(ln1, Q(), i);
      var moved := cur;
      next := mem.next[cur];
      ReverseRound(e0, e, node, i);
      Transfer(Begin(), moved, next, this, 0, i, i + 1);
      KeptTwice(ln1, d0, mem.Words(), d0, e + [node]);
      KeptChain(ln0, d0, ln1, d0, mem.Words(), d0, e0 + [node], e + [node]);
    }

    /** The loop state of merge(other), which started from elements a0
        and b0: the merge of a0 and b0 is the first k elements followed by
        the merge of the rest with other's elements; cur1 is the k-th node
        and cur2 the front of other. */
    ghost predicate Merging(other: List, a0: seq<nat>, b0: seq<nat>, ln0: Links, d0: map<nat, int>, k: nat, cur1: nat, cur2: nat)
      reads this, mem, other
    {
      other.mem == mem && Valid() && other.Valid() && other != this && NoDup(Q() + other.Q()) && mem.data == d0 &&
      AllIn(d0, a0) && AllIn(d0, b0) && k <= |elems| && cur1 == Q()[k] && cur2 == other.Q()[0] &&
      AllIn(d0, elems[k..]) &&
      MergeNodes(d0, a0, b0) == elems[..k] + MergeNodes(d0, elems[k..], other.elems) &&
      multiset(Q() + other.Q()) == multiset(a0 + [node] + (b0 + [other.node])) &&
      Kept(ln0, d0, mem.Words(), d0, a0 + [node] + (b0 + [other.node]))
    }

    /** merge(other): other's elements move in among this list's, each in
        front of the first element of greater value, the rest at the back;
        other ends empty. */
    method Merge(other: List)
      requires Valid() && other.Valid() && other.mem == mem && other != this && NoDup(Q() + other.Q())
      modifies mem, this, other
      ensures Valid() && other.Valid() && NoDup(Q() + other.Q()) && mem.data == old(mem.data) && mem.top == old(mem.top)
      ensures elems == MergeNodes(mem.data, old(elems), old(other.elems)) && other.elems == []
      ensures Contents() == Merged(old(Contents()), old(other.Contents()))
      ensures Kept(old(mem.Words()), old(mem.data), mem.Words(), mem.data, old(Q() + other.Q()))
    {
      ghost var a0, b0, ln0, d0 := elems, other.elems, mem.Words(), mem.data;
      ValuesMerge(d0, a0, b0);
      var cur1 := Begin();
      var last1 := node;
      var cur2 := other.Begin();
      var last2 := other.node;
      ghost var k: nat := 0;
      MergeStartStep(d0, a0, b0);
      while cur1 != last1 && cur2 != last2
        invariant Merging(other, a0, b0, ln0, d0, k, cur1, cur2) && mem.top == old(mem.top)
        decreases |other.elems| + |elems| - k
      {
        if mem.data[cur2] < mem.data[cur1] {
          cur2 := MergeTake(other, cur1, cur2, a0, b0, ln0, d0, k);
        } else {
          cur1 := MergeSkip(other, cur1, cur2, a0, b0, ln0, d0, k);
        }
        k := k + 1;
      }
      MergeRest(other, cur1, cur2, a0, b0, ln0, d0, k);
    }

    /** merge's round for a front of other less than cur1's value: that
        node moves in front of cur1; returns other's new front. */
    method MergeTake(other: List, cur1: nat, cur2: nat, ghost a0: seq<nat>, ghost b0: seq<nat>, ghost ln0: Links, ghost d0: map<nat, int>, ghost k: nat) returns (next: nat)
      requires Merging(other, a0, b0, ln0, d0, k, cur1, cur2) && cur1 != node && cur2 != other.node
      requires d0[cur2] < d0[cur1]
      modifies mem, this, other
      ensures Merging(other, a0, b0, ln0, d0, k + 1, cur1, next) && mem.top == old(mem.top)
      ensures |other.elems| + |elems| == old(|other.elems| + |elems|)
    {
      ghost var e, b, ln1 := elems, other.elems, mem.Words();
      NoDupIndex(Q(), k, |elems|);
      NoDupIndex(other.Q(), 0, |other.elems|);
      RingNext(ln1, other.Q(), 0);
      MergeTakeStep(d0, MergeNodes(d0, a0, b0), e, b, k, e[..k] + b[0..1] + e[k..], b[..0] + b[1..]);
      CrossMultiset(e, node, b, other.node, k, 0, 1);
      TakeCursors(e, node, b, other.node, k);
      next := mem.next[cur2];
      Transfer(cur1, cur2, next, other, k, 0, 1);
      KeptChain(ln0, d0, ln1, d0, mem.Words(), d0, a0 + [node] + (b0 + [other.node]), e + [node] + (b + [other.node]));
    }

    /** merge's round for a front of other not less than cur1's value:
        cur1 steps on; returns the node after it. */
    method MergeSkip(other: List, cur1: nat, cur2: nat, ghost a0: seq<nat>, ghost b0: seq<nat>, ghost ln0: Links, ghost d0: map<nat, int>, ghost k: nat) returns (next: nat)
      requires Merging(other, a0, b0, ln0, d0, k, cur1, cur2) && cur1 != node && cur2 != other.node
      requires d0[cur1] <= d0[cur2]
      ensures Merging(other, a0, b0, ln0, d0, k + 1, next, cur2)
    {
      NoDupIndex(Q(), k, |elems|);
      NoDupIndex(other.Q(), 0, |other.elems|);
      RingNext(mem.Words(), Q(), k);
      MergeSkipStep(d0, MergeNodes(d0, a0, b0), elems, other.elems, k);
      next := mem.next[cur1];
    }

    /** The end of merge(other): what is left of other goes to the back. */
    method MergeRest(other: List, cur1: nat, cur2: nat, ghost a0: seq<nat>, ghost b0: seq<nat>, ghost ln0: Links, ghost d0: map<nat, int>, ghost k: nat)
      requires Merging(other, a0, b0, ln0, d0, k, cur1, cur2) && (cur1 == node || cur2 == other.node)
      modifies mem, this, other
      ensures Valid() && other.Valid() && NoDup(Q() + other.Q()) && mem.data == d0 && mem.top == old(mem.top)
      ensures elems == MergeNodes(d0, a0, b0) && other.elems == []
      ensures Kept(ln0, d0, mem.Words(), d0, a0 + [node] + (b0 + [other.node]))
    {
      NoDupIndex(Q(), k, |elems|);
      NoDupIndex(other.Q(), 0, |other.elems|);
      if cur2 != other.node {
        ghost var e, b, ln1 := elems, other.elems, mem.Words();
        MergeTailStep(d0, MergeNodes(d0, a0, b0), e, b);
        CrossMultiset(e, node, b, other.node, |e|, 0, |b|);
        Transfer(node, cur2, other.node, other, |elems|, 0, |other.elems|);
        KeptChain(ln0, d0, ln1, d0, mem.Words(), d0, a0 + [node] + (b0 + [other.node]), e + [node] + (b + [other.node]));
      } else {
        MergeDoneStep(d0, MergeNodes(d0, a0, b0), elems, k);
      }
    }

    /** The loop state of remove(v), which started from the elements e0
        with data d0: the first i of them filtered, the others in place,
        the kept ones holding their data; cur is e0's i-th node. */
    ghost predicate Removing(e0: seq<nat>, ln0: Links, d0: map<nat, int>, v: int, i: nat, cur: nat)
      reads this, mem
    {
      Valid() && AllIn(d0, e0) && NoDup(e0 + [node]) && i <= |e0| &&
      elems == Keep(d0, e0[..i], v) + e0[i..] && cur == (e0 + [node])[i] &&
      AllIn(d0, elems) && Contents() == Values(d0, elems) &&
      multiset(Q()) <= multiset(e0 + [node]) && Kept(ln0, d0, mem.Words(), mem.data, e0 + [node])
    }

    /** remove(value): every element holding value erased, the others
        left in order. */
    method Remove(value: int)
      requires Valid()
      modifies mem, this
      ensures Valid() && mem.top == old(mem.top)
      ensures elems == Keep(old(mem.data), old(elems), value)
      ensures Contents() == Removed(old(Contents()), value)
      ensures Kept(old(mem.Words()), old(mem.data), mem.Words(), mem.data, old(Q()))
    {
      ghost var e0, ln0, d0 := elems, mem.Words(), mem.data;
      NoDupSplit(e0, [node]);
      ValuesKeep(d0, e0, value);
      RemoveEnds(d0, e0, value);
      var cur := Begin();
      var last := node;
      ghost var i: nat := 0;
      while cur != last
        invariant Removing(e0, ln0, d0, value, i, cur) && mem.top == old(mem.top)
        decreases |e0| - i
      {
        cur := RemoveOne(cur, value, e0, ln0, d0, i);
        i := i + 1;
      }
      NoDupIndex(e0 + [node], i, |e0|);
    }

    /** One round of remove(value): cur, the i-th of e0, erased when it
        holds value; returns the node after it. */
    method RemoveOne(cur: nat, value: int, ghost e0: seq<nat>, ghost ln0: Links, ghost d0: map<nat, int>, ghost i: nat) returns (next: nat)
      requires Removing(e0, ln0, d0, value, i, cur) && cur != node
      modifies mem, this
      ensures Removing(e0, ln0, d0, value, i + 1, next) && mem.top == old(mem.top)
    {
      assert i < |e0| && cur == e0[i];
      ghost var k := |Keep(d0, e0[..i], value)|;
      RemoveCursor(d0, e0, value, i, elems);
      assert elems[k] == cur && cur in mem.data;
      assert mem.data[cur] == Values(mem.data, elems)[k] == Values(d0, elems)[k] == d0[cur];
      if mem.data[cur] == value {
        RemoveErased(d0, e0, node, value, i, elems);
        next := EraseMatch(cur, k, e0, ln0, d0, value, i);
      } else {
        next := SkipMatch(cur, e0, ln0, d0, value, i);
      }
    }

    /** remove's step past cur, the i-th of e0, which does not hold value. */
    method SkipMatch(cur: nat, ghost e0: seq<nat>, ghost ln0: Links, ghost d0: map<nat, int>, ghost value: int, ghost i: nat) returns (next: nat)
      requires Removing(e0, ln0, d0, value, i, cur) && i < |e0| && cur == e0[i] && d0[cur] != value
      ensures Removing(e0, ln0, d0, value, i + 1, next)
    {
      RemoveKept(d0, e0, node, value, i, elems);
      RingNext(mem.Words(), Q(), |Keep(d0, e0[..i], value)|);
      next := mem.next[cur];
    }

    /** remove's erase of cur, the k-th element, in the round for e0[i]. */
    method EraseMatch(cur: nat, ghost k: nat, ghost e0: seq<nat>, ghost ln0: Links, ghost d0: map<nat, int>, ghost value: int, ghost i: nat) returns (next: nat)
      requires Removing(e0, ln0, d0, value, i, cur) && i < |e0| && cur == e0[i] && d0[cur] == value
      requires k == |Keep(d0, e0[..i], value)| && k < |elems| && elems[k] == cur
      requires elems[..k] + elems[k + 1..] == Keep(d0, e0[..i + 1], value) + e0[i + 1..]
      requires (elems[..k] + elems[k + 1..] + [node])[|Keep(d0, e0[..i + 1], value)|] == (e0 + [node])[i + 1]
      modifies mem, this
      ensures Removing(e0, ln0, d0, value, i + 1, next) && mem.top == old(mem.top)
    {
      ghost var e, ln1, d1 := elems, mem.Words(), mem.data;
      RingNext(ln1, Q(), k);
      ValuesCut(d0, e, k, k + 1);
      EraseSub(e, node, k);
      next := Erase(cur, k);
      KeptChain(ln0, d0, ln1, d1, mem.Words(), mem.data, e0 + [node], e + [node]);
    }

    /** The loop state of clear(): the first i of the elements e0 are
        destroyed, every other node as it was; cur is e0's i-th node. */
    ghost predicate Clearing(e0: seq<nat>, ln0: Links, d0: map<nat, int>, i: nat, cur: nat)
      reads this, mem
    {
      mem.Valid() && elems == e0 && Ring(ln0, e0 + [node]) && NoDup(e0 + [node]) && i <= |e0| &&
      cur == (e0 + [node])[i] && Kept(ln0, d0, mem.Words(), mem.data, e0[..i]) &&
      forall j :: 0 <= j < i ==> e0[j] !in mem.next && e0[j] !in mem.data
    }

    /** clear(): every element node destroyed, then reset(). */
    method Clear()
      requires Valid()
      modifies mem, this
      ensures Valid() && elems == [] && Contents() == [] && mem.top == old(mem.top)
      ensures forall x :: x in old(elems) ==> x !in mem.next && x !in mem.data
      ensures Kept(old(mem.Words()), old(mem.data), mem.Words(), mem.data, old(Q()))
    {
      ghost var e0, ln0, d0 := elems, mem.Words(), mem.data;
      assert Q()[|elems|] == node;
      var cur := mem.next[node];
      ghost var i: nat := 0;
      while cur != node
        invariant Clearing(e0, ln0, d0, i, cur) && mem.top == old(mem.top)
        decreases |e0| - i
      {
        cur := ClearOne(cur, e0, ln0, d0, i);
        i := i + 1;
      }
      ClearEnd(e0, ln0, d0, i);
    }

    /** One round of clear(): the i-th element destroyed; returns the node
        after it. */
    method ClearOne(cur: nat, ghost e0: seq<nat>, ghost ln0: Links, ghost d0: map<nat, int>, ghost i: nat) returns (next: nat)
      requires Clearing(e0, ln0, d0, i, cur) && cur != node
      modifies mem
      ensures Clearing(e0, ln0, d0, i + 1, next) && mem.top == old(mem.top)
    {
      NoDupIndex(e0 + [node], i, |e0|);
      assert i < |e0|;
      RingNext(ln0, e0 + [node], i);
      NoDupSplit(e0, [node]);
      ClearAt(e0, i);
      next := mem.next[cur];
      ghost var ln1, d1 := mem.Words(), mem.data;
      mem.DestroyNode(cur);
      KeptDestroy(ln0, d0, ln1, d1, mem.Words(), mem.data, e0[..i], cur);
    }

    /** The end of clear(): reset() of the sentinel. */
    method ClearEnd(ghost e0: seq<nat>, ghost ln0: Links, ghost d0: map<nat, int>, ghost i: nat)
      requires Clearing(e0, ln0, d0, i, node)
      modifies mem, this
      ensures Valid() && elems == [] && mem.top == old(mem.top)
      ensures forall x :: x in e0 ==> x !in mem.next && x !in mem.data
      ensures Kept(ln0, d0, mem.Words(), mem.data, e0 + [node])
    {
      NoDupIndex(e0 + [node], i, |e0|);
      ClearDone(e0, node, i);
      assert (e0 + [node])[|e0|] == node && node in ln0.next;
      assert node !in e0 by {
        forall j | 0 <= j < |e0| ensures e0[j] != node {
          assert (e0 + [node])[j] == e0[j];
        }
      }
      Reset();
      elems := [];
    }

    /** swap(other): the two lists exchange their nodes, by splicing
        other's nodes in front of begin() and then this list's old nodes
        into other.  Swapping a list with itself leaves it as it is (see
        SelfSwapCycle for what the unguarded code does then). */
    method Swap(other: List)
      requires Valid() && other.Valid() && other.mem == mem
      requires other != this ==> NoDup(Q() + other.Q())
      modifies mem, this, other
      ensures Valid() && other.Valid() && mem.data == old(mem.data) && mem.top == old(mem.top)
      ensures other == this ==> elems == old(elems)
      ensures other != this ==> elems == old(other.elems) && other.elems == old(elems)
      ensures other != this ==> Contents() == old(other.Contents()) && other.Contents() == old(Contents())
      ensures other != this ==> NoDup(Q() + other.Q())
      ensures Kept(old(mem.Words()), old(mem.data), mem.Words(), mem.data, old(Q() + other.Q()))
    {
      if other == this {
        return;
      }
      SwapApart(other);
    }

    /** swap(other) of two different lists. */
    method SwapApart(other: List)
      requires Valid() && other.Valid() && other.mem == mem && other != this && NoDup(Q() + other.Q())
      modifies mem, this, other
      ensures Valid() && other.Valid() && mem.data == old(mem.data) && mem.top == old(mem.top)
      ensures elems == old(other.elems) && other.elems == old(elems)
      ensures Contents() == old(other.Contents()) && other.Contents() == old(Contents())
      ensures NoDup(Q() + other.Q())
      ensures Kept(old(mem.Words()), old(mem.data), mem.Words(), mem.data, old(Q() + other.Q()))
    {
      ghost var e, eo, c, co := elems, other.elems, Contents(), other.Contents();
      ghost var ln0, d0, q0 := mem.Words(), mem.data, Q() + other.Q();
      var oldBegin := Begin();
      SpliceAll(Begin(), other, 0);
      assert other.Q() == [other.node];
      SwapMiddle(e, eo, node, other.node, elems, c, co, Contents(), q0);
      ghost var ln1 := mem.Words();
      other.SpliceRange(other.Begin(), oldBegin, node, this, 0, |eo|, |elems|);
      SwapEnd(e, eo, c, co, elems, other.elems, Contents(), other.Contents());
      SwapPerm(other.Q(), Q());
      KeptChain(ln0, d0, ln1, d0, mem.Words(), mem.data, q0, other.Q() + Q());
    }

    /** Between swap's two splices: this holds other's old nodes followed
        by its own, whose first is old_begin. */
    static lemma SwapMiddle(e: seq<nat>, eo: seq<nat>, n: nat, on: nat, el: seq<nat>, c: seq<int>, co: seq<int>, cl: seq<int>, q0: seq<nat>)
      requires el == e[..0] + eo + e[0..] && cl == c[..0] + co + c[0..]
      requires NoDup(el + [n] + [on]) && q0 == e + [n] + (eo + [on])
      ensures el == eo + e && cl == co + c && (e + [n])[0] == (el + [n])[|eo|] && (el + [n])[|el|] == n
      ensures NoDup([on] + (el + [n])) && multiset([on] + (el + [n])) == multiset(q0)
    {
      assert e[..0] + eo + e[0..] == eo + e;
      assert c[..0] + co + c[0..] == co + c;
      NoDupPerm(el + [n] + [on], [on] + (el + [n]));
    }

    /** After swap's second splice: the elements and values exchanged. */
    static lemma SwapEnd(e: seq<nat>, eo: seq<nat>, c: seq<int>, co: seq<int>, ea: seq<nat>, eb: seq<nat>, ca: seq<int>, cb: seq<int>)
      requires |c| == |e| && |co| == |eo|
      requires Moved(false, [], eo + e, eb, ea, 0, |eo|, |eo + e|)
      requires Moved(false, [], co + c, cb, ca, 0, |co|, |co + c|)
      ensures ea == eo && eb == e && ca == co && cb == c
    {
      assert (eo + e)[..|eo|] == eo && (eo + e)[|eo|..] == e;
      assert (co + c)[..|co|] == co && (co + c)[|co|..] == c;
    }

    /** splice(pos, other): all of other's elements move in front of pos,
        the p-th node of this ring; nothing happens when other is empty or
        is this list. */
    method SpliceAll(pos: nat, other: List, ghost p: nat)
      requires Valid() && other.Valid() && other.mem == mem
      requires p <= |elems| && pos == Q()[p]
      requires other != this ==> NoDup(Q() + other.Q())
      modifies mem, this, other
      ensures Valid() && other.Valid() && mem.data == old(mem.data) && mem.top == old(mem.top)
      ensures other == this ==> elems == old(elems)
      ensures other != this ==> elems == old(elems[..p]) + old(other.elems) + old(elems[p..]) && other.elems == []
      ensures other != this ==> Contents() == old(Contents()[..p]) + old(other.Contents()) + old(Contents()[p..])
      ensures other != this ==> NoDup(Q() + other.Q())
      ensures Kept(old(mem.Words()), old(mem.data), mem.Words(), mem.data, old(Q() + other.Q()))
    {
      ghost var e, c := elems, Contents();
      if other.Empty() {
        assert e == e[..p] + [] + e[p..] && c == c[..p] + [] + c[p..];
        return;
      }
      if this == other {
        return;
      }
      ghost var eo, co := other.elems, other.Contents();
      SliceAll(eo);
      SliceAll(co);
      Transfer(pos, other.Begin(), other.node, other, p, 0, |other.elems|);
    }

    /** splice(pos, x, i): the element i, the f-th of src's elements, moves
        in front of pos, the p-th node of this ring; nothing happens when
        pos is i or the node after i.  src may be this list. */
    method SpliceOne(pos: nat, i: nat, ghost src: List, ghost p: nat, ghost f: nat)
      requires Valid() && src.Valid() && src.mem == mem
      requires p <= |elems| && pos == Q()[p] && f < |src.elems| && i == src.elems[f]
      requires src != this ==> NoDup(Q() + src.Q())
      modifies mem, this, src
      ensures Valid() && src.Valid() && mem.data == old(mem.data) && mem.top == old(mem.top)
      ensures Moved(src == this, old(elems), old(src.elems), elems, src.elems, p, f, f + 1)
      ensures Moved(src == this, old(Contents()), old(src.Contents()), Contents(), src.Contents(), p, f, f + 1)
      ensures src != this ==> NoDup(Q() + src.Q())
      ensures Kept(old(mem.Words()), old(mem.data), mem.Words(), mem.data, old(Q() + src.Q()))
    {
      assert src.Q()[f] == i;
      var j := mem.next[i];
      assert j == src.Q()[f + 1];
      if j == pos || i == pos {
        OneInPlace(Q(), src.Q(), src == this, p, f);
        MovedStay(src == this, elems, src.elems, p, f, f + 1);
        MovedStay(src == this, Contents(), src.Contents(), p, f, f + 1);
        return;
      }
      MoveOne(pos, i, j, src, p, f);
    }

    /** The move of splice(pos, x, i) once pos is neither i nor the node
        j after it. */
    method MoveOne(pos: nat, i: nat, j: nat, ghost src: List, ghost p: nat, ghost f: nat)
      requires Valid() && src.Valid() && src.mem == mem
      requires p <= |elems| && pos == Q()[p] && f < |src.elems| && i == src.Q()[f] && j == src.Q()[f + 1]
      requires pos != i && pos != j
      requires src != this ==> NoDup(Q() + src.Q())
      modifies mem, this, src
      ensures Valid() && src.Valid() && mem.data == old(mem.data) && mem.top == old(mem.top)
      ensures Moved(src == this, old(elems), old(src.elems), elems, src.elems, p, f, f + 1)
      ensures Moved(src == this, old(Contents()), old(src.Contents()), Contents(), src.Contents(), p, f, f + 1)
      ensures src != this ==> NoDup(Q() + src.Q())
      ensures Kept(old(mem.Words()), old(mem.data), mem.Words(), mem.data, old(Q() + src.Q()))
    {
      InPlaceApart(Q(), src.Q(), src == this, p, f, pos, i, j);
      ghost var l := f + 1;
      Transfer(pos, i, j, src, p, f, l);
    }

    /** splice(pos, x, first, last): the range [first, last) of src, its
        f-th to (l - 1)-th elements, moves in front of pos, the p-th node
        of this ring; nothing happens for an empty range.  src may be this
        list as long as pos lies outside [first, last). */
    method SpliceRange(pos: nat, first: nat, last: nat, ghost src: List, ghost p: nat, ghost f: nat, ghost l: nat)
      requires Valid() && src.Valid() && src.mem == mem
      requires p <= |elems| && pos == Q()[p] && f <= l <= |src.elems| && first == src.Q()[f] && last == src.Q()[l]
      requires src == this ==> p < f || l <= p
      requires src != this ==> NoDup(Q() + src.Q())
      modifies mem, this, src
      ensures Valid() && src.Valid() && mem.data == old(mem.data) && mem.top == old(mem.top)
      ensures Moved(src == this, old(elems), old(src.elems), elems, src.elems, p, f, l)
      ensures Moved(src == this, old(Contents()), old(src.Contents()), Contents(), src.Contents(), p, f, l)
      ensures src != this ==> NoDup(Q() + src.Q())
      ensures Kept(old(mem.Words()), old(mem.data), mem.Words(), mem.data, old(Q() + src.Q()))
    {
      ghost var e, c, es, cs := elems, Contents(), src.elems, src.Contents();
      NoDupIndex(src.Q(), f, l);
      if first == last {
        MovedEmpty(src == this, e, es, p, f);
        MovedEmpty(src == this, c, cs, p, f);
        return;
      }
      Transfer(pos, first, last, src, p, f, l);
    }
  }
}
