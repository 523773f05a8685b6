// list::sort of mini_container_list.h, on the element values: the
// bottom-up merge sort with one carry list and 64 counter lists, where
// counter[k] holds either nothing or a sorted run of 2^k elements.
// Each list is the sequence of its values; splice, merge and swap of the
// lists are the corresponding updates of those sequences.

module ListSort {
  import opened ListSeqs

  /** 2 to the power k. */
  function Pow2(k: nat): (r: nat)
    ensures r >= 1
  {
    if k == 0 then 1 else 2 * Pow2(k - 1)
  }

  lemma {:induction false} Pow2Mono(j: nat, k: nat)
    requires j <= k
    ensures Pow2(j) <= Pow2(k)
    decreases k
  {
    if j < k {
      Pow2Mono(j, k - 1);
    }
  }

  /** All the values held by the lists c, counted with multiplicity. */
  ghost function Bag(c: seq<seq<int>>): multiset<int>
  {
    if c == [] then multiset{} else multiset(c[0]) + Bag(c[1..])
  }

  /** Replacing one list of c replaces its values in the bag. */
  lemma {:induction false} BagUpdate(c: seq<seq<int>>, k: nat, v: seq<int>)
    requires k < |c|
    ensures Bag(c[k := v]) + multiset(c[k]) == Bag(c) + multiset(v)
  {
    var c1 := c[k := v];
    assert c1 != [] && c1[0] == (if k == 0 then v else c[0]);
    assert Bag(c1) == multiset(c1[0]) + Bag(c1[1..]);
    assert Bag(c) == multiset(c[0]) + Bag(c[1..]);
    if k == 0 {
      assert c1[1..] == c[1..];
    } else {
      BagUpdate(c[1..], k - 1, v);
      assert c1[1..] == c[1..][k - 1 := v] && c[1..][k - 1] == c[k];
      calc {
        Bag(c1) + multiset(c[k]);
        multiset(c[0]) + (Bag(c[1..][k - 1 := v]) + multiset(c[1..][k - 1]));
        multiset(c[0]) + (Bag(c[1..]) + multiset(v));
      }
    }
  }

  /** Cancelling the same values on both sides. */
  lemma Cancel(a: multiset<int>, b: multiset<int>, x: multiset<int>)
    requires a + x == b + x
    ensures a == b
  {
    forall v ensures a[v] == b[v] {
      assert (a + x)[v] == (b + x)[v];
    }
  }

  /** When every list but the k-th is empty, the bag is the k-th's values. */
  lemma {:induction false} BagOne(c: seq<seq<int>>, k: nat)
    requires k < |c| && forall j :: 0 <= j < |c| && j != k ==> c[j] == []
    ensures Bag(c) == multiset(c[k])
  {
    var e := c[k := []];
    assert forall j :: 0 <= j < |e| ==> e[j] == [];
    BagEmpty(e);
    BagUpdate(c, k, []);
    var none: seq<int> := [];
    assert multiset(none) == multiset{};
    assert Bag(e) + multiset(c[k]) == Bag(c);
  }

  lemma {:induction false} BagEmpty(c: seq<seq<int>>)
    requires forall j :: 0 <= j < |c| ==> c[j] == []
    ensures Bag(c) == multiset{}
  {
    if c != [] {
      assert forall j :: 0 <= j < |c[1..]| ==> c[1..][j] == c[j + 1];
      BagEmpty(c[1..]);
    }
  }

  /** The merged list holds the values of both, so its length adds up. */
  lemma MergedSize(a: seq<int>, b: seq<int>)
    ensures |Merged(a, b)| == |a| + |b| && multiset(Merged(a, b)) == multiset(a) + multiset(b)
  {
    MergePerm(a, b);
    assert |multiset(Merged(a, b))| == |Merged(a, b)|;
  }

  /** The counters between two rounds of sort's outer loop: each sorted,
      each empty or holding 2^k values, none from fill on. */
  ghost predicate Counters(c: seq<seq<int>>, fill: nat)
  {
    |c| == 64 && fill <= 64 &&
    (forall k :: 0 <= k < 64 ==> Run(c[k], k)) &&
    (forall k :: fill <= k < 64 ==> c[k] == [])
  }

  /** What counter[k] may hold: nothing, or a sorted run of 2^k values. */
  ghost predicate Run(r: seq<int>, k: nat)
  {
    Sorted(r) && (r == [] || |r| == Pow2(k))
  }

  /** Storing a run fit for counter[i] keeps the counters in shape. */
  lemma CountersSet(c: seq<seq<int>>, fill: nat, fill': nat, i: nat, v: seq<int>)
    requires Counters(c, fill) && i < 64 && Run(v, i) && fill <= fill' <= 64 && (v != [] ==> i < fill')
    ensures Counters(c[i := v], fill')
  {
    var c1 := c[i := v];
    forall k | 0 <= k < 64
      ensures Run(c1[k], k) && (fill' <= k ==> c1[k] == [])
    {
      if k != i {
        assert c1[k] == c[k];
      }
    }
  }

  /** A round of the inner loop: the filled counter[i] merged with carry
      (two runs of 2^i) becomes the new carry, and counter[i] empties. */
  lemma CarryStep(c: seq<seq<int>>, fill: nat, i: nat, carry: seq<int>)
    requires Counters(c, fill) && i < fill && c[i] != [] && Sorted(carry) && |carry| == Pow2(i)
    requires forall k :: 0 <= k < i ==> c[k] == []
    ensures Counters(c[i := []], fill)
    ensures Sorted(Merged(c[i], carry)) && |Merged(c[i], carry)| == Pow2(i + 1)
    ensures Bag(c[i := []]) + multiset(Merged(c[i], carry)) == Bag(c) + multiset(carry)
  {
    MergedSize(c[i], carry);
    MergeSorted(c[i], carry);
    assert Run(c[i], i);
    var none: seq<int> := [];
    BagUpdate(c, i, none);
    assert multiset(none) == multiset{};
    calc {
      Bag(c[i := []]) + multiset(Merged(c[i], carry));
      Bag(c[i := []]) + multiset(c[i]) + multiset(carry);
      Bag(c) + multiset(carry);
    }
    CountersSet(c, fill, fill, i, []);
  }

  /** The end of a round: carry, a sorted run of 2^i, fills the empty
      counter[i]; fill grows when i reached it. */
  lemma Place(c: seq<seq<int>>, fill: nat, i: nat, carry: seq<int>)
    requires Counters(c, fill) && i <= fill && i < 64 && (i < fill ==> c[i] == [])
    requires Sorted(carry) && |carry| == Pow2(i)
    ensures Counters(c[i := carry], if i == fill then fill + 1 else fill)
    ensures Bag(c[i := carry]) == Bag(c) + multiset(carry)
  {
    BagUpdate(c, i, carry);
    CountersSet(c, fill, if i == fill then fill + 1 else fill, i, carry);
  }

  /** Merging counter i - 1 into counter i and emptying i - 1 keeps the bag. */
  lemma {:induction false} CollapseBag(c: seq<seq<int>>, i: nat)
    requires 1 <= i < |c|
    ensures Bag(c[i := Merged(c[i], c[i - 1])][i - 1 := []]) == Bag(c)
  {
    var c1 := c[i := Merged(c[i], c[i - 1])][i - 1 := []];
    assert Bag(c1) == multiset(c1[0]) + Bag(c1[1..]);
    assert Bag(c) == multiset(c[0]) + Bag(c[1..]);
    if i == 1 {
      MergedSize(c[1], c[0]);
      assert c1[1..][1..] == c[1..][1..];
      assert Bag(c1[1..]) == multiset(c1[1]) + Bag(c1[1..][1..]);
      assert Bag(c[1..]) == multiset(c[1]) + Bag(c[1..][1..]);
    } else {
      CollapseBag(c[1..], i - 1);
      assert c1[1..] == c[1..][i - 1 := Merged(c[i], c[i - 1])][i - 2 := []];
    }
  }

  /** A round of the final loop: counter[i].merge(counter[i - 1]). */
  lemma CollapseStep(c: seq<seq<int>>, fill: nat, i: nat, s: seq<int>)
    requires |c| == 64 && 1 <= i < fill <= 64
    requires forall k :: 0 <= k < 64 ==> Sorted(c[k])
    requires forall k :: 0 <= k < i - 1 || fill <= k < 64 ==> c[k] == []
    requires Bag(c) == multiset(s)
    ensures var c1 := c[i := Merged(c[i], c[i - 1])][i - 1 := []];
      (forall k :: 0 <= k < 64 ==> Sorted(c1[k])) &&
      (forall k :: 0 <= k < i || fill <= k < 64 ==> c1[k] == []) &&
      Bag(c1) == multiset(s)
  {
    var m := Merged(c[i], c[i - 1]);
    MergeSorted(c[i], c[i - 1]);
    var c3 := c[i := m][i - 1 := []];
    CollapseBag(c, i);
    forall k | 0 <= k < 64
      ensures Sorted(c3[k]) && (k < i || fill <= k ==> c3[k] == [])
    {
      if k != i && k != i - 1 {
        assert c3[k] == c[k];
      }
    }
  }

  /** sort(), on the values s of the list: the result is ascending and holds
      the same values.  Sixty-four counters hold fewer than 2^64 values. */
  method Sort(s: seq<int>) returns (r: seq<int>)
    requires |s| < Pow2(64)
    ensures Sorted(r) && multiset(r) == multiset(s)
  {
    if |s| <= 1 {
      return s;
    }
    var rest := s;
    var counter := new seq<int>[64](_ => []);
    var fill := 0;
    BagEmpty(counter[..]);
    while rest != []
      invariant Counters(counter[..], fill)
      invariant Bag(counter[..]) + multiset(rest) == multiset(s)
      invariant rest != s ==> fill >= 1
      decreases |rest|
    {
      fill := SortRound(counter, fill, rest, s);
      rest := rest[1..];
    }
    r := Collapse(counter, fill, s);
  }

  /** One round of sort's outer loop: the first value of rest moves to
      carry, and carry is merged with counter[0], counter[1], ... as long as
      they are filled, emptying each; then it fills the first empty one. */
  method SortRound(counter: array<seq<int>>, fill: nat, rest: seq<int>, ghost s: seq<int>) returns (fill': nat)
    requires counter.Length == 64 && Counters(counter[..], fill) && rest != [] && |s| < Pow2(64)
    requires Bag(counter[..]) + multiset(rest) == multiset(s)
    modifies counter
    ensures Counters(counter[..], fill') && fill' >= 1 && fill' >= fill
    ensures Bag(counter[..]) + multiset(rest[1..]) == multiset(s)
  {
    assert rest == [rest[0]] + rest[1..];
    var i, carry := CarryUp(counter, fill, [rest[0]], rest[1..], s);
    assert |carry| <= |s| by {
      assert |multiset(carry)| <= |multiset(s)|;
    }
    if i >= 64 {
      Pow2Mono(64, i);
      assert false;
    }
    ghost var c := counter[..];
    Place(c, fill, i, carry);
    counter[i] := carry;
    assert counter[..] == c[i := carry];
    fill' := if i == fill then fill + 1 else fill;
  }

  /** The inner loop of a round: while counter[i] is filled, it merges
      carry into itself and hands the result back to carry by swap. */
  method CarryUp(counter: array<seq<int>>, fill: nat, carry0: seq<int>, ghost rest: seq<int>, ghost s: seq<int>) returns (i: nat, carry: seq<int>)
    requires counter.Length == 64 && Counters(counter[..], fill) && |carry0| == 1
    requires Bag(counter[..]) + multiset(carry0) + multiset(rest) == multiset(s)
    modifies counter
    ensures i <= fill && Counters(counter[..], fill) && (i < fill ==> counter[i] == [])
    ensures Sorted(carry) && |carry| == Pow2(i)
    ensures Bag(counter[..]) + multiset(carry) + multiset(rest) == multiset(s)
  {
    carry := carry0;
    i := 0;
    while i < fill && counter[i] != []
      invariant Carrying(counter[..], fill, i, carry, rest, s)
      decreases fill - i
    {
      carry := CarryOne(counter, fill, i, carry, rest, s);
      i := i + 1;
    }
  }

  /** The state of the inner loop: counter[0..i) emptied into carry, a
      sorted run of 2^i values. */
  ghost predicate Carrying(c: seq<seq<int>>, fill: nat, i: nat, carry: seq<int>, rest: seq<int>, s: seq<int>)
  {
    i <= fill && Counters(c, fill) && Sorted(carry) && |carry| == Pow2(i) &&
    (forall k :: 0 <= k < i ==> c[k] == []) &&
    Bag(c) + multiset(carry) + multiset(rest) == multiset(s)
  }

  /** counter[i].merge(carry); carry.swap(counter[i]). */
  method CarryOne(counter: array<seq<int>>, fill: nat, i: nat, carry: seq<int>, ghost rest: seq<int>, ghost s: seq<int>) returns (carry': seq<int>)
    requires counter.Length == 64 && Carrying(counter[..], fill, i, carry, rest, s) && i < fill && counter[i] != []
    modifies counter
    ensures Carrying(counter[..], fill, i + 1, carry', rest, s)
  {
    ghost var c := counter[..];
    CarryStep(c, fill, i, carry);
    var emptied: seq<int>;
    counter[i], emptied := Merged(counter[i], carry), [];
    carry', counter[i] := counter[i], emptied;
    assert counter[..] == c[i := []];
  }

  /** After the outer loop: counter[i].merge(counter[i - 1]) for i from 1
      below fill, which leaves every value in counter[fill - 1], sorted. */
  method Collapse(counter: array<seq<int>>, fill: nat, ghost s: seq<int>) returns (r: seq<int>)
    requires counter.Length == 64 && Counters(counter[..], fill) && fill >= 1
    requires Bag(counter[..]) == multiset(s)
    modifies counter
    ensures Sorted(r) && multiset(r) == multiset(s)
  {
    var i := 1;
    while i < fill
      invariant 1 <= i <= fill
      invariant forall k :: 0 <= k < 64 ==> Sorted(counter[k])
      invariant forall k :: 0 <= k < i - 1 || fill <= k < 64 ==> counter[k] == []
      invariant Bag(counter[..]) == multiset(s)
      decreases fill - i
    {
      ghost var c := counter[..];
      CollapseStep(c, fill, i, s);
      counter[i], counter[i - 1] := Merged(counter[i], counter[i - 1]), [];
      assert counter[..] == c[i := Merged(c[i], c[i - 1])][i - 1 := []];
      i := i + 1;
    }
    BagOne(counter[..], fill - 1);
    r := counter[fill - 1];
  }
}
