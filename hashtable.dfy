// The chained hashtable of mini_utility_hashtable.h with int values that
// are their own keys (ExtractKey is the identity, EqualKey is ==).  The
// bucket vector is an array; the chain hanging from each bucket is the
// sequence of values met by following `next` from the head.  An iterator
// (node, table) is the position of its node: a bucket and an index in the
// chain, or End for the null node.

module Hashtable {
  import PrimeTable

  datatype Position = At(bucket: nat, index: nat) | End

  /** The chains one after the other: the order in which begin() and ++
      visit the nodes. */
  function Flatten(bs: seq<seq<int>>): seq<int>
  {
    if bs == [] then [] else Flatten(bs[..|bs| - 1]) + bs[|bs| - 1]
  }

  /** Every value sits in the bucket its hash selects modulo m. */
  ghost predicate Placed(hash: int -> nat, bs: seq<seq<int>>, m: nat)
  {
    forall b, i {:trigger InChain(bs, b, i)} :: InChain(bs, b, i) ==> 0 < m && BktNumKey(hash, bs[b][i], m) == b
  }

  /** Node i of chain b exists. */
  predicate InChain(bs: seq<seq<int>>, b: int, i: int)
  {
    0 <= b < |bs| && 0 <= i < |bs[b]|
  }

  /** bkt_num_key(key, n): hash(key) % n, always a bucket index. */
  function BktNumKey(hash: int -> nat, key: int, n: nat): (r: nat)
    requires 0 < n
    ensures r < n
  {
    hash(key) % n
  }

  /** std::hash<int> on a 64-bit size_t: the value modulo 2^64. */
  function IntHash(k: int): nat
  {
    k % 0x1_0000_0000_0000_0000
  }

  lemma {:induction false} FlattenAppend(bs: seq<seq<int>>, c: seq<int>)
    ensures Flatten(bs + [c]) == Flatten(bs) + c
  {
    assert (bs + [c])[..|bs|] == bs;
  }

  lemma {:induction false} FlattenSplit(bs: seq<seq<int>>, k: nat)
    requires k <= |bs|
    ensures Flatten(bs) == Flatten(bs[..k]) + Flatten(bs[k..])
    decreases |bs|
  {
    if k < |bs| {
      var init := bs[..|bs| - 1];
      FlattenSplit(init, k);
      assert init[..k] == bs[..k];
      assert bs[k..] == init[k..] + [bs[|bs| - 1]];
      FlattenAppend(init[k..], bs[|bs| - 1]);
    } else {
      assert bs[..k] == bs;
      assert bs[k..] == [];
    }
  }

  /** Replacing one chain changes the flattened multiset by exactly that chain. */
  lemma FlattenUpdate(bs: seq<seq<int>>, i: nat, c: seq<int>)
    requires i < |bs|
    ensures multiset(Flatten(bs[i := c])) + multiset(bs[i]) == multiset(Flatten(bs)) + multiset(c)
    ensures |Flatten(bs[i := c])| == |Flatten(bs)| - |bs[i]| + |c|
  {
    var t := bs[i := c];
    FlattenSplit(bs, i);
    FlattenSplit(t, i);
    FlattenSplit(bs[i..], 1);
    FlattenSplit(t[i..], 1);
    assert t[..i] == bs[..i];
    assert t[i..][1..] == bs[i..][1..];
    assert bs[i..][..1] == [bs[i]];
    assert t[i..][..1] == [c];
    assert Flatten([bs[i]]) == bs[i] by { assert [bs[i]][..0] == []; }
    assert Flatten([c]) == c by { assert [c][..0] == []; }
  }

  /** When `bs[b]` is the only chain that may hold x, x occurs in the
      flattening as often as in that chain. */
  lemma {:induction false} CountInBucket(hash: int -> nat, bs: seq<seq<int>>, m: nat, x: int)
    requires Placed(hash, bs, m) && 0 < m
    ensures multiset(Flatten(bs))[x] == if BktNumKey(hash, x, m) < |bs| then multiset(bs[BktNumKey(hash, x, m)])[x] else 0
    decreases |bs|
  {
    if bs != [] {
      var init := bs[..|bs| - 1];
      var last := bs[|bs| - 1];
      assert Placed(hash, init, m) by {
        forall b, i | InChain(init, b, i) ensures 0 < m && BktNumKey(hash, init[b][i], m) == b {
          assert InChain(bs, b, i) && init[b] == bs[b];
        }
      }
      CountInBucket(hash, init, m, x);
      if BktNumKey(hash, x, m) != |bs| - 1 {
        assert x !in last by {
          forall i | 0 <= i < |last| ensures last[i] != x {
            assert InChain(bs, |bs| - 1, i);
          }
        }
      }
      if BktNumKey(hash, x, m) < |init| {
        assert init[BktNumKey(hash, x, m)] == bs[BktNumKey(hash, x, m)];
      }
    }
  }

  /** Membership through the bucket a value hashes to. */
  lemma InBucket(hash: int -> nat, bs: seq<seq<int>>, x: int)
    requires Placed(hash, bs, |bs|) && 0 < |bs|
    ensures x in Flatten(bs) <==> x in bs[BktNumKey(hash, x, |bs|)]
  {
    CountInBucket(hash, bs, |bs|, x);
  }

  /** The chains all empty. */
  lemma FlattenEmpty(bs: seq<seq<int>>)
    requires forall b :: 0 <= b < |bs| ==> bs[b] == []
    ensures Flatten(bs) == []
  {
    if bs != [] {
      FlattenEmpty(bs[..|bs| - 1]);
    }
  }

  /** Empty buckets hold every value in its place. */
  lemma PlacedEmpty(hash: int -> nat, bs: seq<seq<int>>, m: nat)
    requires forall b :: 0 <= b < |bs| ==> bs[b] == []
    ensures Placed(hash, bs, m)
  {
    forall b, i ensures !InChain(bs, b, i) {
      if 0 <= b < |bs| {
        assert bs[b] == [];
      }
    }
  }

  /** Where node (b, i) lands in the traversal. */
  function FlatIndex(bs: seq<seq<int>>, b: nat, i: nat): nat
    requires b <= |bs|
  {
    |Flatten(bs[..b])| + i
  }

  /** The node at (b, i) is the FlatIndex-th element of the traversal. */
  lemma FlatIndexAt(bs: seq<seq<int>>, b: nat, i: nat)
    requires b < |bs| && i < |bs[b]|
    ensures FlatIndex(bs, b, i) < |Flatten(bs)| && Flatten(bs)[FlatIndex(bs, b, i)] == bs[b][i]
  {
    FlattenSplit(bs, b);
    FlattenSplit(bs[b..], 1);
    assert bs[b..][..1] == [bs[b]];
    assert Flatten([bs[b]]) == bs[b] by { assert [bs[b]][..0] == []; }
  }

  /** Empty chains add nothing to the traversal: the first node of the next
      non-empty chain follows the last node of chain b. */
  lemma FlatIndexSkip(bs: seq<seq<int>>, b: nat, c: nat)
    requires b < c <= |bs|
    requires forall k :: b < k < c ==> bs[k] == []
    ensures FlatIndex(bs, c, 0) == FlatIndex(bs, b, |bs[b]|)
    decreases c - b
  {
    assert bs[..b + 1] == bs[..b] + [bs[b]];
    FlattenAppend(bs[..b], bs[b]);
    if c > b + 1 {
      assert bs[..c] == bs[..c - 1] + [bs[c - 1]];
      FlattenAppend(bs[..c - 1], bs[c - 1]);
      if c - 1 > b {
        FlatIndexSkip(bs, b, c - 1);
      }
    }
  }

  /** The first non-empty chain holds the first node of the traversal. */
  lemma FlatIndexFirst(bs: seq<seq<int>>, c: nat)
    requires c <= |bs| && forall k :: 0 <= k < c ==> bs[k] == []
    ensures FlatIndex(bs, c, 0) == 0
  {
    FlattenEmpty(bs[..c]);
  }

  /** Every value of chain c hashes to bucket b modulo m. */
  ghost predicate ChainHome(hash: int -> nat, c: seq<int>, m: nat, b: nat)
  {
    c == [] || (0 < m && forall i :: 0 <= i < |c| ==> BktNumKey(hash, c[i], m) == b)
  }

  /** Storing a chain that hashes to bucket b in bucket b keeps every value
      in its bucket. */
  lemma PlacedUpdate(hash: int -> nat, bs: seq<seq<int>>, m: nat, b: nat, c: seq<int>)
    requires Placed(hash, bs, m) && b < |bs| && ChainHome(hash, c, m, b)
    ensures Placed(hash, bs[b := c], m)
  {
    var t := bs[b := c];
    forall k, i | InChain(t, k, i) ensures 0 < m && BktNumKey(hash, t[k][i], m) == k
    {
      if k != b {
        assert InChain(bs, k, i) && t[k][i] == bs[k][i];
      } else {
        assert c != [] && t[k][i] == c[i];
      }
    }
  }

  /** The chain in bucket b of a placed table hashes to b. */
  lemma PlacedChain(hash: int -> nat, bs: seq<seq<int>>, m: nat, b: nat)
    requires Placed(hash, bs, m) && b < |bs|
    ensures ChainHome(hash, bs[b], m, b)
  {
    if bs[b] != [] {
      assert InChain(bs, b, 0);
      forall i | 0 <= i < |bs[b]| ensures BktNumKey(hash, bs[b][i], m) == b {
        assert InChain(bs, b, i);
      }
    }
  }

  /** A value that hashes to b may join a chain that hashes to b anywhere. */
  lemma ChainHomeInsert(hash: int -> nat, c: seq<int>, m: nat, b: nat, pos: nat, x: int)
    requires ChainHome(hash, c, m, b) && 0 < m && BktNumKey(hash, x, m) == b && pos <= |c|
    ensures ChainHome(hash, c[..pos] + [x] + c[pos..], m, b)
  {
    var t := c[..pos] + [x] + c[pos..];
    forall i | 0 <= i < |t| ensures BktNumKey(hash, t[i], m) == b
    {
      if i < pos {
        assert t[i] == c[i];
      } else if pos < i {
        assert t[i] == c[i - 1];
      }
    }
  }

  /** What the bucket scan of ++ leaves: the first node after the end of
      chain b. */
  lemma Advanced(bs: seq<seq<int>>, b: nat, last: nat, next: Position)
    requires b <= last < |bs|
    requires forall k :: b < k < last ==> bs[k] == []
    requires next == End ==> (last == b || bs[last] == []) && last + 1 >= |bs|
    requires next != End ==> b < last && next == At(last, 0) && bs[last] != []
    ensures next == End <==> FlatIndex(bs, b, |bs[b]|) == |Flatten(bs)|
    ensures next.At? ==> next.bucket < |bs| && next.index < |bs[next.bucket]|
    ensures next.At? ==> FlatIndex(bs, next.bucket, next.index) == FlatIndex(bs, b, |bs[b]|)
  {
    if next.At? {
      FlatIndexSkip(bs, b, last);
      FlatIndexAt(bs, last, 0);
    } else {
      FlatIndexSkip(bs, b, |bs|);
      assert bs[..|bs|] == bs;
    }
  }

  /** A chain update that removes c and adds x and c added x. */
  lemma AddedOne(e0: multiset<int>, e1: multiset<int>, c: multiset<int>, x: int)
    requires e1 + c == e0 + (multiset{x} + c)
    ensures e1 == e0 + multiset{x}
  {
    forall y ensures e1[y] == (e0 + multiset{x})[y] {
      assert (e1 + c)[y] == (e0 + (multiset{x} + c))[y];
    }
  }

  /** A head moved from one table to the other leaves their union alone. */
  lemma HeadMoved(s0: multiset<int>, s1: multiset<int>, d0: multiset<int>, d1: multiset<int>,
                  x: int, t: multiset<int>, e: multiset<int>)
    requires s1 + (multiset{x} + t) == s0 + t
    requires d1 + e == d0 + (multiset{x} + e)
    ensures s1 + d1 == s0 + d0
  {
    forall y ensures (s1 + d1)[y] == (s0 + d0)[y] {
      assert (s1 + (multiset{x} + t))[y] == (s0 + t)[y];
      assert (d1 + e)[y] == (d0 + (multiset{x} + e))[y];
    }
  }

  /** The walk along a chain that stops at the first node equal to value:
      its index, or the chain's length when there is none. */
  method ChainFind(chain: seq<int>, value: int) returns (j: nat)
    ensures j <= |chain| && value !in chain[..j]
    ensures j < |chain| ==> chain[j] == value
    ensures j == |chain| <==> value !in chain
  {
    j := 0;
    while j < |chain| && chain[j] != value
      invariant j <= |chain| && value !in chain[..j]
    {
      assert chain[..j + 1] == chain[..j] + [chain[j]];
      j := j + 1;
    }
    if j == |chain| {
      assert chain[..j] == chain;
    }
  }

  /** Stores chain c in bucket idx of a bucket array. */
  method SetChain(a: array<seq<int>>, idx: nat, c: seq<int>)
    requires idx < a.Length
    modifies a
    ensures a[..] == old(a[..])[idx := c]
    ensures a[idx] == c && forall k :: 0 <= k < a.Length && k != idx ==> a[k] == old(a[k])
    ensures multiset(Flatten(a[..])) + old(multiset(a[idx])) == old(multiset(Flatten(a[..]))) + multiset(c)
    ensures |Flatten(a[..])| == old(|Flatten(a[..])|) - old(|a[idx]|) + |c|
  {
    ghost var bs := a[..];
    a[idx] := c;
    assert a[..] == bs[idx := c];
    FlattenUpdate(bs, idx, c);
  }

  /** The buckets d with x put at the head of the chain its hash selects. */
  ghost function Pushed(hash: int -> nat, d: seq<seq<int>>, x: int): seq<seq<int>>
    requires 0 < |d|
  {
    var k := BktNumKey(hash, x, |d|);
    d[k := [x] + d[k]]
  }

  /** The buckets d after the nodes of chain c, front first, are each put at
      the head of their new chain: resize's inner loop. */
  ghost function PushedAll(hash: int -> nat, d: seq<seq<int>>, c: seq<int>): (r: seq<seq<int>>)
    requires 0 < |d|
    ensures |r| == |d|
    decreases |c|
  {
    if c == [] then d else Pushed(hash, PushedAll(hash, d, c[..|c| - 1]), c[|c| - 1])
  }

  /** The buckets d after the chains of bs, bucket 0 first, are drained into
      them: resize's outer loop. */
  ghost function Rehashed(hash: int -> nat, d: seq<seq<int>>, bs: seq<seq<int>>): (r: seq<seq<int>>)
    requires 0 < |d|
    ensures |r| == |d|
    decreases |bs|
  {
    if bs == [] then d else PushedAll(hash, Rehashed(hash, d, bs[..|bs| - 1]), bs[|bs| - 1])
  }

  /** Nodes that share a new bucket end up there in reverse order, in front of
      what the bucket held, and every other bucket is unchanged. */
  lemma {:induction false} PushedAllSameBucket(hash: int -> nat, d: seq<seq<int>>, c: seq<int>, k: nat)
    requires k < |d| && forall i :: 0 <= i < |c| ==> BktNumKey(hash, c[i], |d|) == k
    ensures |PushedAll(hash, d, c)[k]| == |c| + |d[k]|
    ensures forall i :: 0 <= i < |c| ==> PushedAll(hash, d, c)[k][i] == c[|c| - 1 - i]
    ensures PushedAll(hash, d, c)[k][|c|..] == d[k]
    ensures forall b :: 0 <= b < |d| && b != k ==> PushedAll(hash, d, c)[b] == d[b]
    decreases |c|
  {
    if c != [] {
      var c' := c[..|c| - 1];
      PushedAllSameBucket(hash, d, c', k);
      var p := PushedAll(hash, d, c');
      assert PushedAll(hash, d, c)[k] == [c[|c| - 1]] + p[k];
    }
  }

  /** One step of the rehash: the head node of src[idx] moves to the head
      of dst[hash % dst.Length]. */
  method MoveHead(hash: int -> nat, src: array<seq<int>>, idx: nat, dst: array<seq<int>>)
    requires src != dst && idx < src.Length && src[idx] != [] && 0 < dst.Length
    requires Placed(hash, dst[..], dst.Length)
    modifies src, dst
    ensures Placed(hash, dst[..], dst.Length)
    ensures dst[..] == Pushed(hash, old(dst[..]), old(src[idx][0]))
    ensures src[idx] == old(src[idx])[1..]
    ensures forall k :: 0 <= k < src.Length && k != idx ==> src[k] == old(src[k])
    ensures multiset(Flatten(src[..])) + multiset(Flatten(dst[..]))
         == old(multiset(Flatten(src[..])) + multiset(Flatten(dst[..])))
  {
    ghost var s0 := multiset(Flatten(src[..]));
    ghost var d0 := multiset(Flatten(dst[..]));
    var first := src[idx][0];
    var newIdx := BktNumKey(hash, first, dst.Length);
    ghost var t := src[idx][1..];
    ghost var e := dst[newIdx];
    assert multiset(src[idx]) == multiset{first} + multiset(t) by {
      assert src[idx] == [first] + t;
    }
    SetChain(src, idx, src[idx][1..]);
    PlacedChain(hash, dst[..], dst.Length, newIdx);
    ChainHomeInsert(hash, dst[newIdx], dst.Length, newIdx, 0, first);
    assert dst[newIdx][..0] + [first] + dst[newIdx][0..] == [first] + dst[newIdx];
    PlacedUpdate(hash, dst[..], dst.Length, newIdx, [first] + dst[newIdx]);
    SetChain(dst, newIdx, [first] + dst[newIdx]);
    assert multiset([first] + e) == multiset{first} + multiset(e);
    HeadMoved(s0, multiset(Flatten(src[..])), d0, multiset(Flatten(dst[..])), first, multiset(t), multiset(e));
  }

  /** The inner loop of resize: bucket idx of src is emptied into dst. */
  method DrainBucket(hash: int -> nat, src: array<seq<int>>, idx: nat, dst: array<seq<int>>)
    requires src != dst && idx < src.Length && 0 < dst.Length
    requires Placed(hash, dst[..], dst.Length)
    modifies src, dst
    ensures Placed(hash, dst[..], dst.Length)
    ensures dst[..] == PushedAll(hash, old(dst[..]), old(src[idx]))
    ensures src[idx] == []
    ensures forall k :: 0 <= k < src.Length && k != idx ==> src[k] == old(src[k])
    ensures multiset(Flatten(src[..])) + multiset(Flatten(dst[..]))
         == old(multiset(Flatten(src[..])) + multiset(Flatten(dst[..])))
  {
    ghost var c0, d0 := src[idx], dst[..];
    while src[idx] != []
      invariant forall k :: 0 <= k < src.Length && k != idx ==> src[k] == old(src[k])
      invariant |src[idx]| <= |c0| && src[idx] == c0[|c0| - |src[idx]|..]
      invariant dst[..] == PushedAll(hash, d0, c0[..|c0| - |src[idx]|])
      invariant Placed(hash, dst[..], dst.Length)
      invariant multiset(Flatten(src[..])) + multiset(Flatten(dst[..]))
             == old(multiset(Flatten(src[..])) + multiset(Flatten(dst[..])))
      decreases |src[idx]|
    {
      ghost var j := |c0| - |src[idx]|;
      ghost var before := dst[..];
      assert src[idx][0] == c0[j];
      MoveHead(hash, src, idx, dst);
      assert c0[..j + 1][..j] == c0[..j];
      assert PushedAll(hash, d0, c0[..j + 1]) == Pushed(hash, before, c0[j]);
    }
    assert c0[..|c0|] == c0;
  }

  /** The outer loop of resize: every bucket of src is emptied into dst. */
  method Rehash(hash: int -> nat, src: array<seq<int>>, dst: array<seq<int>>)
    requires src != dst && 0 < dst.Length
    requires Placed(hash, dst[..], dst.Length)
    modifies src, dst
    ensures Placed(hash, dst[..], dst.Length)
    ensures dst[..] == Rehashed(hash, old(dst[..]), old(src[..]))
    ensures Flatten(src[..]) == []
    ensures multiset(Flatten(dst[..])) == old(multiset(Flatten(src[..])) + multiset(Flatten(dst[..])))
  {
    ghost var total := multiset(Flatten(src[..])) + multiset(Flatten(dst[..]));
    ghost var s0, d0 := src[..], dst[..];
    var idx := 0;
    while idx < src.Length
      invariant idx <= src.Length
      invariant forall k :: 0 <= k < idx ==> src[k] == []
      invariant forall k :: idx <= k < src.Length ==> src[k] == s0[k]
      invariant dst[..] == Rehashed(hash, d0, s0[..idx])
      invariant Placed(hash, dst[..], dst.Length)
      invariant multiset(Flatten(src[..])) + multiset(Flatten(dst[..])) == total
    {
      ghost var before := dst[..];
      assert src[idx] == s0[idx];
      DrainBucket(hash, src, idx, dst);
      assert s0[..idx + 1][..idx] == s0[..idx];
      assert Rehashed(hash, d0, s0[..idx + 1]) == PushedAll(hash, before, s0[idx]);
      idx := idx + 1;
    }
    assert s0[..src.Length] == s0;
    FlattenEmpty(src[..]);
  }

  class Hashtable {
    const hash: int -> nat
    var buckets: array<seq<int>>
    var numElements: nat

    /** At least one bucket, every value in its hash bucket, and
        num_elements_ counting the nodes. */
    ghost predicate Valid()
      reads this, buckets
    {
      0 < buckets.Length && Placed(hash, buckets[..], buckets.Length) &&
      numElements == |Flatten(buckets[..])|
    }

    /** All values, in traversal order. */
    ghost function Elements(): seq<int>
      reads this, buckets
    {
      Flatten(buckets[..])
    }

    /** hashtable(n, hash, equal): initialize_buckets(n), next_prime(n)
        empty buckets. */
    constructor (n: nat, hash: int -> nat)
      ensures Valid() && this.hash == hash && fresh(buckets)
      ensures buckets.Length == PrimeTable.NextPrime(n) && numElements == 0
      ensures forall b :: 0 <= b < buckets.Length ==> buckets[b] == []
      ensures Elements() == []
    {
      this.hash := hash;
      var nBuckets := PrimeTable.NextPrime(n);
      PrimeTable.TableShape();
      buckets := new seq<int>[nBuckets](_ => []);
      numElements := 0;
      new;
      FlattenEmpty(buckets[..]);
      PlacedEmpty(hash, buckets[..], buckets.Length);
    }

    function BucketCount(): nat
      reads this
    {
      buckets.Length
    }

    /** max_bucket_count(): the last table entry. */
    function MaxBucketCount(): (r: nat)
      ensures r in PrimeTable.Primes && forall p :: p in PrimeTable.Primes ==> p <= r
    {
      PrimeTable.TableShape();
      PrimeTable.Primes[PrimeTable.NumPrimes - 1]
    }

    function Size(): nat
      reads this
    {
      numElements
    }

    /** empty(): no element in any bucket. */
    function Empty(): (b: bool)
      reads this, buckets
      requires Valid()
      ensures b <==> Elements() == []
    {
      numElements == 0
    }

    /** elements_in_bucket(b): the length of the chain. */
    method ElementsInBucket(b: nat) returns (res: nat)
      requires Valid() && b < buckets.Length
      ensures res == |buckets[b]|
    {
      res := 0;
      var node := buckets[b];
      while node != []
        invariant res + |node| == |buckets[b]|
      {
        res := res + 1;
        node := node[1..];
      }
    }

    /** find(key): the first node of key's bucket equal to key, or end(). */
    method Find(key: int) returns (it: Position)
      requires Valid()
      ensures it == End <==> key !in Elements()
      ensures it.At? ==> it.bucket == BktNumKey(hash, key, buckets.Length) && it.index < |buckets[it.bucket]|
      ensures it.At? ==> buckets[it.bucket][it.index] == key && key !in buckets[it.bucket][..it.index]
    {
      var idx := BktNumKey(hash, key, buckets.Length);
      var j := ChainFind(buckets[idx], key);
      InBucket(hash, buckets[..], key);
      it := if j < |buckets[idx]| then At(idx, j) else End;
    }

    /** count(key): the nodes of key's bucket equal to key, which are all
        the nodes equal to key. */
    method Count(key: int) returns (res: nat)
      requires Valid()
      ensures res == multiset(Elements())[key]
    {
      var idx := BktNumKey(hash, key, buckets.Length);
      var chain := buckets[idx];
      res := 0;
      var j := 0;
      while j < |chain|
        invariant j <= |chain| && res == multiset(chain[..j])[key]
      {
        assert chain[..j + 1] == chain[..j] + [chain[j]];
        if chain[j] == key {
          res := res + 1;
        }
        j := j + 1;
      }
      assert chain[..j] == chain;
      CountInBucket(hash, buckets[..], buckets.Length, key);
    }

    /** Puts `chain`, whose values all hash to bucket idx, in that bucket
        and counts the nodes it adds. */
    method Relink(idx: nat, chain: seq<int>)
      requires Valid() && idx < buckets.Length && |buckets[idx]| <= |chain|
      requires ChainHome(hash, chain, buckets.Length, idx)
      modifies this, buckets
      ensures Valid() && buckets == old(buckets)
      ensures buckets[..] == old(buckets[..])[idx := chain]
      ensures numElements == old(numElements) + |chain| - |old(buckets[idx])|
      ensures multiset(Elements()) + old(multiset(buckets[idx])) == old(multiset(Elements())) + multiset(chain)
    {
      var len := |buckets[idx]|;
      PlacedUpdate(hash, buckets[..], buckets.Length, idx, chain);
      SetChain(buckets, idx, chain);
      numElements := numElements + |chain| - len;
    }

    /** insert_unique_no_resize(value): the existing equal node and false,
        or a new node at the head of the bucket and true. */
    method InsertUniqueNoResize(value: int) returns (it: Position, inserted: bool)
      requires Valid()
      modifies this, buckets
      ensures Valid() && buckets == old(buckets) && it.At?
      ensures inserted <==> value !in old(Elements())
      ensures it.bucket == BktNumKey(hash, value, buckets.Length) && it.index < |buckets[it.bucket]|
      ensures buckets[it.bucket][it.index] == value
      ensures !inserted ==> buckets[..] == old(buckets[..]) && numElements == old(numElements)
      ensures inserted ==> buckets[..] == old(buckets[..])[it.bucket := [value] + old(buckets[it.bucket])]
      ensures inserted ==> it.index == 0 && numElements == old(numElements) + 1
      ensures multiset(Elements()) == old(multiset(Elements())) + if inserted then multiset{value} else multiset{}
    {
      var idx := BktNumKey(hash, value, buckets.Length);
      var first := buckets[idx];
      var j := ChainFind(first, value);
      InBucket(hash, buckets[..], value);
      if j < |first| {
        return At(idx, j), false;
      }
      PlacedChain(hash, buckets[..], buckets.Length, idx);
      ChainHomeInsert(hash, first, buckets.Length, idx, 0, value);
      assert first[..0] + [value] + first[0..] == [value] + first;
      ghost var e0 := multiset(Elements());
      Relink(idx, [value] + first);
      assert multiset([value] + first) == multiset{value} + multiset(first);
      AddedOne(e0, multiset(Elements()), multiset(first), value);
      it, inserted := At(idx, 0), true;
    }

    /** insert_equal_no_resize(value): a new node right after the first
        equal node of the bucket, or at its head when there is none. */
    method InsertEqualNoResize(value: int) returns (it: Position)
      requires Valid()
      modifies this, buckets
      ensures Valid() && buckets == old(buckets) && it.At?
      ensures it.bucket == BktNumKey(hash, value, buckets.Length)
      ensures it.index <= |old(buckets[it.bucket])|
      ensures buckets[..] == old(buckets[..])[it.bucket :=
        old(buckets[it.bucket])[..it.index] + [value] + old(buckets[it.bucket])[it.index..]]
      ensures value in old(buckets[it.bucket]) <==> 0 < it.index
      ensures 0 < it.index ==> old(buckets[it.bucket])[it.index - 1] == value
      ensures 0 < it.index ==> value !in old(buckets[it.bucket])[..it.index - 1]
      ensures numElements == old(numElements) + 1
      ensures multiset(Elements()) == old(multiset(Elements())) + multiset{value}
    {
      var idx := BktNumKey(hash, value, buckets.Length);
      var first := buckets[idx];
      var j := ChainFind(first, value);
      var pos := if j < |first| then j + 1 else 0;
      assert value in first <==> 0 < pos;
      assert 0 < pos ==> first[pos - 1] == value && value !in first[..pos - 1];
      var chain := first[..pos] + [value] + first[pos..];
      PlacedChain(hash, buckets[..], buckets.Length, idx);
      ChainHomeInsert(hash, first, buckets.Length, idx, pos, value);
      assert multiset(chain) == multiset(first) + multiset{value} by {
        assert first == first[..pos] + first[pos..];
      }
      ghost var e0 := multiset(Elements());
      ghost var b0 := buckets[..];
      assert b0[idx] == first;
      Relink(idx, chain);
      assert buckets[..] == b0[idx := chain];
      AddedOne(e0, multiset(Elements()), multiset(first), value);
      it := At(idx, pos);
    }

    /** resize(n): nothing when n <= bucket_count(); otherwise every node
        is relinked, chain by chain, into next_prime(n) new buckets, which
        then replace the old ones. */
    method Resize(n: nat)
      requires Valid()
      modifies this, buckets
      ensures Valid() && numElements == old(numElements)
      ensures multiset(Elements()) == old(multiset(Elements()))
      ensures n <= old(buckets.Length) ==> buckets == old(buckets) && buckets[..] == old(buckets[..])
      ensures old(buckets.Length) < n ==> fresh(buckets) && buckets.Length == PrimeTable.NextPrime(n)
      ensures old(buckets.Length) < n ==> buckets[..] == Rehashed(hash, seq(buckets.Length, _ => []), old(buckets[..]))
    {
      var oldN := buckets.Length;
      if n <= oldN {
        return;
      }
      var m := PrimeTable.NextPrime(n);
      PrimeTable.TableShape();
      var newBuckets := new seq<int>[m](_ => []);
      FlattenEmpty(newBuckets[..]);
      PlacedEmpty(hash, newBuckets[..], m);
      assert newBuckets[..] == seq(m, _ => []);
      Rehash(hash, buckets, newBuckets);
      buckets := newBuckets;
      assert |Flatten(buckets[..])| == |multiset(Flatten(buckets[..]))|;
    }

    /** insert_unique(value): resize(size() + 1), then the no-resize insert;
        the table may grow even when value is already present. */
    method InsertUnique(value: int) returns (it: Position, inserted: bool)
      requires Valid()
      modifies this, buckets
      ensures Valid() && it.At? && it.bucket < buckets.Length && it.index < |buckets[it.bucket]|
      ensures buckets[it.bucket][it.index] == value
      ensures inserted <==> value !in old(Elements())
      ensures numElements == old(numElements) + if inserted then 1 else 0
      ensures multiset(Elements()) == old(multiset(Elements())) + if inserted then multiset{value} else multiset{}
      ensures buckets.Length == if old(numElements) + 1 <= old(buckets.Length) then old(buckets.Length)
                                else PrimeTable.NextPrime(old(numElements) + 1)
      ensures it.bucket == BktNumKey(hash, value, buckets.Length)
      ensures buckets == old(buckets) || fresh(buckets)
      ensures old(numElements) + 1 <= old(buckets.Length) ==> buckets == old(buckets)
      ensures old(numElements) + 1 <= old(buckets.Length) ==>
        buckets[..] == if inserted then old(buckets[..])[it.bucket := [value] + old(buckets[it.bucket])] else old(buckets[..])
    {
      Resize(numElements + 1);
      ghost var e := Elements();
      assert value in e <==> value in old(Elements()) by {
        assert value in multiset(e) <==> value in multiset(old(Elements()));
      }
      it, inserted := InsertUniqueNoResize(value);
    }

    /** insert_equal(value): resize(size() + 1), then the no-resize insert. */
    method InsertEqual(value: int) returns (it: Position)
      requires Valid()
      modifies this, buckets
      ensures Valid() && it.At?
      ensures numElements == old(numElements) + 1
      ensures multiset(Elements()) == old(multiset(Elements())) + multiset{value}
      ensures buckets.Length == if old(numElements) + 1 <= old(buckets.Length) then old(buckets.Length)
                                else PrimeTable.NextPrime(old(numElements) + 1)
      ensures buckets == old(buckets) || fresh(buckets)
      ensures it.bucket == BktNumKey(hash, value, buckets.Length)
      ensures it.index < |buckets[it.bucket]| && buckets[it.bucket][it.index] == value
      ensures old(numElements) + 1 <= old(buckets.Length) ==>
        buckets == old(buckets) &&
        it.index <= |old(buckets[it.bucket])| &&
        buckets[..] == old(buckets[..])[it.bucket :=
          old(buckets[it.bucket])[..it.index] + [value] + old(buckets[it.bucket])[it.index..]]
      ensures old(numElements) + 1 <= old(buckets.Length) ==>
        (value in old(buckets[it.bucket]) <==> 0 < it.index)
      ensures old(numElements) + 1 <= old(buckets.Length) && 0 < it.index ==>
        old(buckets[it.bucket])[it.index - 1] == value && value !in old(buckets[it.bucket])[..it.index - 1]
    {
      Resize(numElements + 1);
      ghost var b1 := buckets[..];
      it := InsertEqualNoResize(value);
      assert buckets[..][it.bucket] == b1[it.bucket][..it.index] + [value] + b1[it.bucket][it.index..];
    }

    /** clear(): every node of every chain deleted, every bucket null,
        size 0. */
    method Clear()
      requires Valid()
      modifies this, buckets
      ensures Valid() && buckets == old(buckets) && numElements == 0
      ensures forall b :: 0 <= b < buckets.Length ==> buckets[b] == []
      ensures Elements() == []
    {
      var idx := 0;
      while idx < buckets.Length
        invariant buckets == old(buckets) && idx <= buckets.Length
        invariant forall k :: 0 <= k < idx ==> buckets[k] == []
      {
        var first := buckets[idx];
        while first != []
          decreases |first|
        {
          first := first[1..];
        }
        buckets[idx] := [];
        idx := idx + 1;
      }
      numElements := 0;
      FlattenEmpty(buckets[..]);
      PlacedEmpty(hash, buckets[..], buckets.Length);
    }

    /** begin(): the head of the first non-empty bucket, or end(). */
    method Begin() returns (it: Position)
      requires Valid()
      ensures it == End <==> Elements() == []
      ensures it.At? ==> it.bucket < buckets.Length && it.index == 0 && buckets[it.bucket] != []
      ensures it.At? ==> FlatIndex(buckets[..], it.bucket, 0) == 0
    {
      var idx := 0;
      while idx < buckets.Length
        invariant idx <= buckets.Length
        invariant forall k :: 0 <= k < idx ==> buckets[k] == []
      {
        if buckets[idx] != [] {
          FlatIndexFirst(buckets[..], idx);
          FlatIndexAt(buckets[..], idx, 0);
          return At(idx, 0);
        }
        idx := idx + 1;
      }
      FlattenEmpty(buckets[..]);
      it := End;
    }

    /** operator++: the next node of the chain, or the head of the next
        non-empty bucket after the one the old value hashes to, or end(). */
    method Increment(it: Position) returns (next: Position)
      requires Valid() && it.At? && it.bucket < buckets.Length && it.index < |buckets[it.bucket]|
      ensures next == End <==> FlatIndex(buckets[..], it.bucket, it.index) + 1 == |Elements()|
      ensures next.At? ==> next.bucket < buckets.Length && next.index < |buckets[next.bucket]|
      ensures next.At? ==> FlatIndex(buckets[..], next.bucket, next.index) == FlatIndex(buckets[..], it.bucket, it.index) + 1
    {
      var oldValue := buckets[it.bucket][it.index];
      if it.index + 1 < |buckets[it.bucket]| {
        FlatIndexAt(buckets[..], it.bucket, it.index + 1);
        return At(it.bucket, it.index + 1);
      }
      var bucketIdx := BktNumKey(hash, oldValue, buckets.Length);
      PlacedChain(hash, buckets[..], buckets.Length, it.bucket);
      next := End;
      while next == End && bucketIdx + 1 < buckets.Length
        invariant it.bucket <= bucketIdx < buckets.Length
        invariant forall k :: it.bucket < k < bucketIdx ==> buckets[k] == []
        invariant next == End ==> bucketIdx == it.bucket || buckets[bucketIdx] == []
        invariant next != End ==> it.bucket < bucketIdx && next == At(bucketIdx, 0) && buckets[bucketIdx] != []
        decreases buckets.Length - bucketIdx, if next == End then 1 else 0
      {
        bucketIdx := bucketIdx + 1;
        if buckets[bucketIdx] != [] {
          next := At(bucketIdx, 0);
        }
      }
      Advanced(buckets[..], it.bucket, bucketIdx, next);
    }

    /** Walking from begin() with ++ until end() visits Elements() in order. */
    method Dump() returns (out: seq<int>)
      requires Valid()
      ensures out == Elements()
    {
      out := [];
      var it := Begin();
      while it != End
        invariant it.At? ==> it.bucket < buckets.Length && it.index < |buckets[it.bucket]|
        invariant it.At? ==> FlatIndex(buckets[..], it.bucket, it.index) == |out|
        invariant it == End ==> |out| == |Elements()|
        invariant |out| <= |Elements()| && out == Elements()[..|out|]
        decreases |Elements()| - |out|
      {
        FlatIndexAt(buckets[..], it.bucket, it.index);
        out := out + [buckets[it.bucket][it.index]];
        it := Increment(it);
      }
      assert Elements()[..|out|] == Elements();
    }
  }

  /** Chains that are all empty add nothing to a prefix of the traversal. */
  lemma FlattenSkipEmpty(bs: seq<seq<int>>, i: nat, j: nat)
    requires i <= j <= |bs| && forall k :: i <= k < j ==> bs[k] == []
    ensures Flatten(bs[..j]) == Flatten(bs[..i])
  {
    FlattenSplit(bs[..j], i);
    assert bs[..j][..i] == bs[..i];
    FlattenEmpty(bs[..j][i..]);
  }

  /** One more chain extends a prefix of the traversal by that chain. */
  lemma FlattenStep(bs: seq<seq<int>>, i: nat)
    requires i < |bs|
    ensures Flatten(bs[..i + 1]) == Flatten(bs[..i]) + bs[i]
  {
    assert bs[..i + 1][..i] == bs[..i];
  }

  /** The traversal of the unit test's 53 buckets after its six distinct
      insertions: bucket 0, then 2, 6 and 10. */
  lemma UniqueTraversal(bs: seq<seq<int>>)
    requires |bs| == 53 && bs[0] == [53] && bs[2] == [55, 2, 108] && bs[6] == [59] && bs[10] == [63]
    requires forall b :: 0 <= b < 53 && b != 0 && b != 2 && b != 6 && b != 10 ==> bs[b] == []
    ensures Flatten(bs) == [53, 55, 2, 108, 59, 63]
  {
    assert bs[..0] == [];
    FlattenStep(bs, 0);
    FlattenSkipEmpty(bs, 1, 2);
    FlattenStep(bs, 2);
    FlattenSkipEmpty(bs, 3, 6);
    FlattenStep(bs, 6);
    FlattenSkipEmpty(bs, 7, 10);
    FlattenStep(bs, 10);
    FlattenSkipEmpty(bs, 11, 53);
    assert bs[..53] == bs;
  }

  /** Bucket k of a table of 53 buckets with std::hash<int> after
      insert_unique of vs, one by one, while no rehash happens: each value
      joins the head of its bucket unless that chain already holds it. */
  function TestBucket(vs: seq<nat>, k: nat): seq<int>
  {
    if vs == [] then []
    else
      var prev := TestBucket(vs[..|vs| - 1], k);
      var v := vs[|vs| - 1];
      if IntHash(v) % 53 == k && v !in prev then [v] + prev else prev
  }

  /** The table's buckets are those TestBucket gives for vs. */
  ghost predicate Holds(ht: Hashtable, vs: seq<nat>)
    reads ht, ht.buckets
  {
    forall k :: 0 <= k < ht.buckets.Length ==> ht.buckets[k] == TestBucket(vs, k)
  }

  /** The buckets after the unit test's seven insert_unique calls. */
  lemma TestBucketValues(k: nat)
    ensures TestBucket([59, 63, 108, 2, 53, 55, 55], k) ==
      if k == 0 then [53] else if k == 2 then [55, 2, 108] else if k == 6 then [59]
      else if k == 10 then [63] else []
  {
    var vs: seq<nat> := [59, 63, 108, 2, 53, 55, 55];
    assert vs[..1][..0] == [];
    assert TestBucket(vs[..1], k) == if k == 6 then [59] else [];
    assert vs[..2][..1] == vs[..1];
    assert TestBucket(vs[..2], k) == if k == 6 then [59] else if k == 10 then [63] else [];
    assert vs[..3][..2] == vs[..2];
    assert TestBucket(vs[..3], k) == if k == 2 then [108] else if k == 6 then [59] else if k == 10 then [63] else [];
    assert vs[..4][..3] == vs[..3];
    assert TestBucket(vs[..4], k) == if k == 2 then [2, 108] else if k == 6 then [59] else if k == 10 then [63] else [];
    assert vs[..5][..4] == vs[..4];
    assert TestBucket(vs[..5], k) ==
      if k == 0 then [53] else if k == 2 then [2, 108] else if k == 6 then [59] else if k == 10 then [63] else [];
    assert vs[..6][..5] == vs[..5];
    assert TestBucket(vs[..6], k) ==
      if k == 0 then [53] else if k == 2 then [55, 2, 108] else if k == 6 then [59] else if k == 10 then [63] else [];
    assert vs[..6] == vs[..|vs| - 1];
  }

  lemma TakeSnoc(s: seq<nat>, k: nat)
    requires k < |s|
    ensures s[..k] + [s[k]] == s[..k + 1]
  {
  }

  /** The unit test's table after insert_unique of vs: std::hash<int>, 53
      buckets holding what TestBucket gives, at most |vs| elements. */
  ghost predicate Tracks(ht: Hashtable, vs: seq<nat>)
    reads ht, ht.buckets
  {
    ht.Valid() && ht.hash == IntHash && ht.buckets.Length == 53 && ht.Size() <= |vs| && Holds(ht, vs)
  }

  /** insert_unique(v) on the unit test's table while it has room: the
      buckets follow TestBucket. */
  method UniqueStep(ht: Hashtable, v: nat, ghost vs: seq<nat>)
    requires Tracks(ht, vs) && |vs| < 52
    modifies ht, ht.buckets
    ensures Tracks(ht, vs + [v]) && ht.buckets == old(ht.buckets)
  {
    ghost var bs := ht.buckets[..];
    var b := IntHash(v) % 53;
    InBucket(IntHash, bs, v);
    assert bs[b] == TestBucket(vs, b);
    var it, inserted := ht.InsertUnique(v);
    assert (vs + [v])[..|vs|] == vs;
    forall k | 0 <= k < 53 ensures ht.buckets[k] == TestBucket(vs + [v], k) {
      assert ht.buckets[k] == ht.buckets[..][k] && bs[k] == TestBucket(vs, k);
    }
  }

  /** The unit test's table: 50 buckets asked for, std::hash<int>, then
      insert_unique of each value, too few for a rehash. */
  method UniqueRun(values: seq<nat>) returns (ht: Hashtable)
    requires |values| <= 52
    ensures fresh(ht) && fresh(ht.buckets) && Tracks(ht, values)
  {
    PrimeTable.NextPrimeExamples();
    ht := new Hashtable(50, IntHash);
    var k := 0;
    while k < |values|
      invariant k <= |values|
      invariant fresh(ht) && fresh(ht.buckets)
      invariant Tracks(ht, values[..k])
    {
      UniqueStep(ht, values[k], values[..k]);
      TakeSnoc(values, k);
      k := k + 1;
    }
    assert values[..k] == values;
  }

  /** The buckets of that table: 53, then 55 2 108, 59 and 63 in buckets 0,
      2, 6 and 10, the others empty. */
  method UniqueInserts() returns (ht: Hashtable)
    ensures fresh(ht) && fresh(ht.buckets) && Tracks(ht, [59, 63, 108, 2, 53, 55, 55])
    ensures ht.buckets[0] == [53] && ht.buckets[2] == [55, 2, 108] && ht.buckets[6] == [59] && ht.buckets[10] == [63]
    ensures forall k :: 0 <= k < 53 && k != 0 && k != 2 && k != 6 && k != 10 ==> ht.buckets[k] == []
  {
    ht := UniqueRun([59, 63, 108, 2, 53, 55, 55]);
    TestBucketValues(0);
    TestBucketValues(2);
    TestBucketValues(6);
    TestBucketValues(10);
    forall b | 0 <= b < 53 && b != 0 && b != 2 && b != 6 && b != 10 ensures ht.buckets[b] == [] {
      TestBucketValues(b);
    }
  }

  /** The first part of the unit test: after the seven insert_unique calls
      the table holds six elements, traverses as 53 55 2 108 59 63, and
      buckets 0, 2, 6 and 10 hold 1, 3, 1 and 1 of them. */
  method UniqueScenario() returns (ht: Hashtable, shown: seq<int>, e0: nat, e2: nat, e6: nat, e10: nat)
    ensures fresh(ht) && fresh(ht.buckets) && ht.Valid() && ht.hash == IntHash
    ensures ht.buckets.Length == 53 && ht.Size() == 6
    ensures multiset(ht.Elements()) == multiset{53, 55, 2, 108, 59, 63}
    ensures shown == [53, 55, 2, 108, 59, 63]
    ensures e0 == 1 && e2 == 3 && e6 == 1 && e10 == 1
  {
    ht := UniqueInserts();
    UniqueTraversal(ht.buckets[..]);
    shown := ht.Dump();
    e0 := ht.ElementsInBucket(0);
    e2 := ht.ElementsInBucket(2);
    e6 := ht.ElementsInBucket(6);
    e10 := ht.ElementsInBucket(10);
  }

  /** 0, 1, ..., n - 1. */
  function Upto(n: nat): (r: seq<int>)
    ensures |r| == n
  {
    if n == 0 then [] else Upto(n - 1) + [n - 1]
  }

  /** Each of 0 .. n - 1 occurs once in Upto(n), nothing else occurs. */
  lemma {:induction false} UptoCount(n: nat, x: int)
    ensures multiset(Upto(n))[x] == if 0 <= x < n then 1 else 0
  {
    if n > 0 {
      UptoCount(n - 1, x);
      assert Upto(n) == Upto(n - 1) + [n - 1];
    }
  }

  /** The unit test's table after i of the 48 insert_equal calls. */
  ghost predicate EqualTracks(ht: Hashtable, i: nat)
    reads ht, ht.buckets
  {
    ht.Valid() && ht.hash == IntHash && ht.Size() == 6 + i &&
    ht.buckets.Length == (if 6 + i <= 53 then 53 else 97) &&
    multiset(ht.Elements()) == multiset{53, 55, 2, 108, 59, 63} + multiset(Upto(i))
  }

  /** insert_equal(i) on that table. */
  method EqualStep(ht: Hashtable, i: nat)
    requires EqualTracks(ht, i) && i < 48
    modifies ht, ht.buckets
    ensures EqualTracks(ht, i + 1)
    ensures ht.buckets == old(ht.buckets) || fresh(ht.buckets)
  {
    ghost var m0 := multiset(ht.Elements());
    ghost var n0 := ht.numElements;
    ghost var l0 := ht.buckets.Length;
    var it := ht.InsertEqual(i);
    EqualFacts(multiset{53, 55, 2, 108, 59, 63}, m0, multiset(ht.Elements()), n0, ht.numElements, l0, ht.buckets.Length, i);
  }

  /** What insert_equal(i) promises, on the numbers of EqualTracks. */
  lemma EqualFacts(m: multiset<int>, m0: multiset<int>, m1: multiset<int>, n0: nat, n1: nat, l0: nat, l1: nat, i: nat)
    requires i < 48 && n0 == 6 + i && l0 == (if 6 + i <= 53 then 53 else 97)
    requires m0 == m + multiset(Upto(i))
    requires n1 == n0 + 1 && m1 == m0 + multiset{i}
    requires l1 == if n0 + 1 <= l0 then l0 else PrimeTable.NextPrime(n0 + 1)
    ensures n1 == 6 + (i + 1) && l1 == (if 6 + (i + 1) <= 53 then 53 else 97)
    ensures m1 == m + multiset(Upto(i + 1))
  {
    UptoStep(m, i);
    if i == 47 {
      PrimeTable.NextPrimeExamples();
    }
  }

  lemma UptoStep(m: multiset<int>, i: nat)
    ensures m + multiset(Upto(i)) + multiset{i} == m + multiset(Upto(i + 1))
  {
    assert Upto(i + 1) == Upto(i) + [i];
  }

  /** The second part of the unit test: insert_equal of 0 .. 47 grows the
      table past 53 elements, so it rehashes into 97 buckets; then find(108)
      reaches 108 and count(2) is 2. */
  method EqualScenario() returns (size: nat, bucketCount: nat, found: int, count2: nat)
    ensures size == 54 && bucketCount == 97 && found == 108 && count2 == 2
  {
    var ht, shown, e0, e2, e6, e10 := UniqueScenario();
    PrimeTable.NextPrimeExamples();
    var i := 0;
    while i < 48
      invariant i <= 48
      invariant fresh(ht) && fresh(ht.buckets)
      invariant EqualTracks(ht, i)
    {
      EqualStep(ht, i);
      i := i + 1;
    }
    size := ht.Size();
    bucketCount := ht.BucketCount();
    UptoCount(48, 108);
    UptoCount(48, 2);
    assert 108 in multiset(ht.Elements());
    var it := ht.Find(108);
    found := ht.buckets[it.bucket][it.index];
    count2 := ht.Count(2);
  }
}
