// What merge, reverse and remove of mini_container_list.h compute, on the
// addresses of the element nodes and on their values: the reference
// definitions the list's loops are proved against, and their properties.

module ListSeqs {
  import opened ListLinks

  /** Ascending order. */
  ghost predicate Sorted(s: seq<int>)
  {
    forall i, j :: 0 <= i < j < |s| ==> s[i] <= s[j]
  }

  /** The nodes of a and b in the order merge leaves them: the front of b
      goes first only when its value is less than the front of a's. */
  function MergeNodes(d: map<nat, int>, a: seq<nat>, b: seq<nat>): (r: seq<nat>)
    requires AllIn(d, a) && AllIn(d, b)
    ensures AllIn(d, r) && |r| == |a| + |b|
    decreases |a| + |b|
  {
    if a == [] then b
    else if b == [] then a
    else if d[b[0]] < d[a[0]] then [b[0]] + MergeNodes(d, a, b[1..])
    else [a[0]] + MergeNodes(d, a[1..], b)
  }

  /** The same merge on values. */
  function Merged(a: seq<int>, b: seq<int>): seq<int>
    decreases |a| + |b|
  {
    if a == [] then b
    else if b == [] then a
    else if b[0] < a[0] then [b[0]] + Merged(a, b[1..])
    else [a[0]] + Merged(a[1..], b)
  }

  /** The values of the merged nodes are the merge of the values. */
  lemma {:induction false} ValuesMerge(d: map<nat, int>, a: seq<nat>, b: seq<nat>)
    requires AllIn(d, a) && AllIn(d, b)
    ensures Values(d, MergeNodes(d, a, b)) == Merged(Values(d, a), Values(d, b))
    decreases |a| + |b|
  {
    var va, vb := Values(d, a), Values(d, b);
    if a == [] || b == [] {
    } else if d[b[0]] < d[a[0]] {
      ValuesMerge(d, a, b[1..]);
      ValuesSlice(d, b, 1, |b|);
      assert vb[1..] == Values(d, b[1..]);
      ValuesAppend(d, [b[0]], MergeNodes(d, a, b[1..]));
    } else {
      ValuesMerge(d, a[1..], b);
      ValuesSlice(d, a, 1, |a|);
      assert va[1..] == Values(d, a[1..]);
      ValuesAppend(d, [a[0]], MergeNodes(d, a[1..], b));
    }
  }

  /** A round of merge's loop that steps past the k-th element of e,
      which is not greater than the front of b. */
  lemma MergeSkipStep(d: map<nat, int>, whole: seq<nat>, e: seq<nat>, b: seq<nat>, k: nat)
    requires AllIn(d, e) && AllIn(d, b) && k < |e| && b != [] && d[e[k]] <= d[b[0]]
    requires whole == e[..k] + MergeNodes(d, e[k..], b)
    ensures whole == e[..k + 1] + MergeNodes(d, e[k + 1..], b)
  {
    SliceAt(e, k);
    AllInSlices(d, e, k);
    MergeFirst(d, e[k], e[k + 1..], b);
    Assoc(e[..k], [e[k]], MergeNodes(d, e[k + 1..], b));
  }

  lemma Assoc<T>(a: seq<T>, b: seq<T>, c: seq<T>)
    ensures a + (b + c) == (a + b) + c
  {
  }

  /** The pieces of e around k have their data in d. */
  lemma AllInSlices(d: map<nat, int>, e: seq<nat>, k: nat)
    requires AllIn(d, e) && k < |e|
    ensures e[k] in d && AllIn(d, e[k..]) && AllIn(d, e[k + 1..]) && AllIn(d, [e[k]] + e[k + 1..])
  {
    assert forall i :: 0 <= i < |e| - k ==> e[k..][i] == e[k + i];
    var t := e[k + 1..];
    assert forall i :: 0 <= i < |t| ==> t[i] == e[k + 1 + i];
  }

  /** The merge of [x] + t with b starts with x when x is not greater than
      b's front. */
  lemma MergeFirst(d: map<nat, int>, x: nat, t: seq<nat>, b: seq<nat>)
    requires x in d && AllIn(d, [x] + t) && AllIn(d, t) && AllIn(d, b) && b != [] && d[x] <= d[b[0]]
    ensures MergeNodes(d, [x] + t, b) == [x] + MergeNodes(d, t, b)
  {
    assert ([x] + t)[1..] == t;
  }

  /** Inserting x at the front, or at the back, of s. */
  lemma InsertEnds<T>(s: seq<T>, x: T)
    ensures s[..0] + [x] + s[0..] == [x] + s
    ensures s[..|s|] + [x] + s[|s|..] == s + [x]
  {
    assert s[..0] == [] && s[0..] == s;
    assert s[..|s|] == s && s[|s|..] == [];
  }

  /** e around its k-th element. */
  lemma SliceAt<T>(e: seq<T>, k: nat)
    requires k < |e|
    ensures e[k..] == [e[k]] + e[k + 1..] && e[..k + 1] == e[..k] + [e[k]]
  {
  }

  /** A round of merge's loop that moves the front of b, less than the
      k-th element of e, in front of that element. */
  lemma MergeTakeStep(d: map<nat, int>, whole: seq<nat>, e: seq<nat>, b: seq<nat>, k: nat, e1: seq<nat>, b1: seq<nat>)
    requires AllIn(d, e) && AllIn(d, b) && k < |e| && b != [] && d[b[0]] < d[e[k]]
    requires whole == e[..k] + MergeNodes(d, e[k..], b)
    requires e1 == e[..k] + b[0..1] + e[k..] && b1 == b[..0] + b[1..]
    ensures AllIn(d, e1) && AllIn(d, b1) && k + 1 <= |e1|
    ensures whole == e1[..k + 1] + MergeNodes(d, e1[k + 1..], b1)
  {
    AllInSlices(d, e, k);
    var t := e[k..];
    assert t[0] == e[k];
    MergeTakeFirst(d, t, b);
    assert b1 == b[1..] && e1[..k + 1] == e[..k] + [b[0]] && e1[k + 1..] == t;
    Assoc(e[..k], [b[0]], MergeNodes(d, t, b[1..]));
    AllInJoin(d, e, b, k);
  }

  /** The merge of t with b starts with b's front when that is less than
      t's front. */
  lemma MergeTakeFirst(d: map<nat, int>, t: seq<nat>, b: seq<nat>)
    requires AllIn(d, t) && AllIn(d, b) && t != [] && b != [] && d[b[0]] < d[t[0]]
    ensures MergeNodes(d, t, b) == [b[0]] + MergeNodes(d, t, b[1..])
  {
  }

  lemma AllInJoin(d: map<nat, int>, e: seq<nat>, b: seq<nat>, k: nat)
    requires AllIn(d, e) && AllIn(d, b) && k < |e| && b != []
    ensures AllIn(d, e[..k] + b[0..1] + e[k..]) && AllIn(d, b[..0] + b[1..])
  {
    var s := e[..k] + b[0..1] + e[k..];
    assert forall i :: 0 <= i < |s| ==> s[i] == if i < k then e[i] else if i == k then b[0] else e[i - 1];
    var r := b[..0] + b[1..];
    assert forall i :: 0 <= i < |r| ==> r[i] == b[i + 1];
  }

  /** Where merge's cursors stand after its front of b moves in front of
      the k-th element of e. */
  lemma TakeCursors(e: seq<nat>, n: nat, b: seq<nat>, m: nat, k: nat)
    requires k < |e| && b != []
    ensures (e[..k] + b[0..1] + e[k..] + [n])[k + 1] == (e + [n])[k]
    ensures (b[..0] + b[1..] + [m])[0] == (b + [m])[1]
  {
  }

  /** Moving the range [f, l) of eb in front of position p of ea keeps
      the multiset of the two rings. */
  lemma CrossMultiset(ea: seq<nat>, na: nat, eb: seq<nat>, nb: nat, p: nat, f: nat, l: nat)
    requires p <= |ea| && f <= l <= |eb|
    ensures multiset((ea[..p] + eb[f..l] + ea[p..]) + [na] + ((eb[..f] + eb[l..]) + [nb])) == multiset(ea + [na] + (eb + [nb]))
  {
    assert ea == ea[..p] + ea[p..];
    assert eb == eb[..f] + eb[f..l] + eb[l..];
  }

  /** When merge's loop ends at the end of e, the rest of b goes to the
      back, as the last transfer does. */
  lemma MergeTailStep(d: map<nat, int>, whole: seq<nat>, e: seq<nat>, b: seq<nat>)
    requires AllIn(d, e) && AllIn(d, b)
    requires whole == e[..|e|] + MergeNodes(d, e[|e|..], b)
    ensures whole == e[..|e|] + b[0..|b|] + e[|e|..] && b[..0] + b[|b|..] == []
  {
    assert e[|e|..] == [] && b[0..|b|] == b;
  }

  /** When merge's loop ends with b used up, e is the merge. */
  lemma MergeDoneStep(d: map<nat, int>, whole: seq<nat>, e: seq<nat>, k: nat)
    requires AllIn(d, e) && k <= |e|
    requires whole == e[..k] + MergeNodes(d, e[k..], [])
    ensures whole == e
  {
    assert e[..k] + e[k..] == e;
  }

  /** The start of merge's loop. */
  lemma MergeStartStep(d: map<nat, int>, a: seq<nat>, b: seq<nat>)
    requires AllIn(d, a) && AllIn(d, b)
    ensures MergeNodes(d, a, b) == a[..0] + MergeNodes(d, a[0..], b)
  {
    assert a[0..] == a;
  }

  /** Merging keeps every value of both inputs, each as often. */
  lemma {:induction false} MergePerm(a: seq<int>, b: seq<int>)
    ensures multiset(Merged(a, b)) == multiset(a) + multiset(b)
    decreases |a| + |b|
  {
    if a == [] || b == [] {
    } else if b[0] < a[0] {
      MergePerm(a, b[1..]);
      assert b == [b[0]] + b[1..];
    } else {
      MergePerm(a[1..], b);
      assert a == [a[0]] + a[1..];
    }
  }

  /** Every value of the merge is at least the least front of the inputs. */
  lemma {:induction false} MergeLower(a: seq<int>, b: seq<int>, x: int)
    requires (a != [] ==> x <= a[0]) && (b != [] ==> x <= b[0]) && Sorted(a) && Sorted(b)
    ensures forall k :: 0 <= k < |Merged(a, b)| ==> x <= Merged(a, b)[k]
    decreases |a| + |b|
  {
    if a == [] || b == [] {
    } else if b[0] < a[0] {
      MergeLower(a, b[1..], x);
    } else {
      MergeLower(a[1..], b, x);
    }
  }

  /** Merging two ascending sequences gives an ascending sequence. */
  lemma {:induction false} MergeSorted(a: seq<int>, b: seq<int>)
    requires Sorted(a) && Sorted(b)
    ensures Sorted(Merged(a, b))
    decreases |a| + |b|
  {
    if a == [] || b == [] {
    } else if b[0] < a[0] {
      MergeSorted(a, b[1..]);
      MergeLower(a, b[1..], b[0]);
    } else {
      MergeSorted(a[1..], b);
      MergeLower(a[1..], b, a[0]);
    }
  }

  /** Every node of the merge comes from one of the inputs. */
  lemma {:induction false} MergeFrom(d: map<nat, int>, a: seq<nat>, b: seq<nat>, x: nat)
    requires AllIn(d, a) && AllIn(d, b) && x in MergeNodes(d, a, b)
    ensures x in a || x in b
    decreases |a| + |b|
  {
    if a == [] || b == [] {
    } else if d[b[0]] < d[a[0]] {
      if x != b[0] {
        MergeFrom(d, a, b[1..], x);
      }
    } else {
      if x != a[0] {
        MergeFrom(d, a[1..], b, x);
      }
    }
  }

  /** Merge is stable: when a is ascending and the inputs share no node, a
      node of b comes before a node of a only with a strictly smaller
      value, so on ties this list's elements stay first. */
  lemma {:induction false} MergeStable(d: map<nat, int>, a: seq<nat>, b: seq<nat>)
    requires AllIn(d, a) && AllIn(d, b) && Sorted(Values(d, a)) && NoDup(a + b)
    ensures StableOrder(d, MergeNodes(d, a, b), a, b)
    decreases |a| + |b|
  {
    var r := MergeNodes(d, a, b);
    if a == [] || b == [] {
      if a != [] {
        forall i | 0 <= i < |r| ensures r[i] !in b {
        }
      }
    } else if d[b[0]] < d[a[0]] {
      NoDupDrop(a, b);
      MergeStable(d, a, b[1..]);
      StableTakeB(d, a, b, MergeNodes(d, a, b[1..]));
    } else {
      NoDupDropA(a, b);
      SortedTail(d, a);
      MergeStable(d, a[1..], b);
      StableTakeA(d, a, b, MergeNodes(d, a[1..], b));
    }
  }

  lemma SortedTail(d: map<nat, int>, a: seq<nat>)
    requires AllIn(d, a) && a != [] && Sorted(Values(d, a))
    ensures AllIn(d, a[1..]) && Sorted(Values(d, a[1..]))
  {
    assert a[1..|a|] == a[1..];
    ValuesSlice(d, a, 1, |a|);
    var v, w := Values(d, a), Values(d, a[1..]);
    forall i, j | 0 <= i < j < |w| ensures w[i] <= w[j] {
      assert w[i] == v[i + 1] && w[j] == v[j + 1];
    }
  }

  /** The stable order step when b's smaller front goes first. */
  lemma StableTakeB(d: map<nat, int>, a: seq<nat>, b: seq<nat>, r1: seq<nat>)
    requires AllIn(d, a) && AllIn(d, b) && a != [] && b != [] && d[b[0]] < d[a[0]]
    requires Sorted(Values(d, a)) && NoDup(a + b)
    requires r1 == MergeNodes(d, a, b[1..]) && StableOrder(d, r1, a, b[1..])
    ensures StableOrder(d, MergeNodes(d, a, b), a, b)
  {
    var r := MergeNodes(d, a, b);
    assert r == [b[0]] + r1;
    forall i, j | 0 <= i < j < |r| && r[i] in b && r[j] in a ensures d[r[i]] < d[r[j]] {
      if i == 0 {
        SortedFront(d, a, r[j]);
      } else {
        StableLater(d, a, b, r1, i - 1, j - 1);
      }
    }
  }

  /** The front of an ascending sequence holds its least value. */
  lemma SortedFront(d: map<nat, int>, a: seq<nat>, x: nat)
    requires AllIn(d, a) && Sorted(Values(d, a)) && x in a
    ensures d[a[0]] <= d[x]
  {
    var k := IndexOf(a, x);
    assert Values(d, a)[0] <= Values(d, a)[k];
  }

  /** Past b's front, the merge orders as the merge with the rest of b. */
  lemma StableLater(d: map<nat, int>, a: seq<nat>, b: seq<nat>, r1: seq<nat>, i: nat, j: nat)
    requires AllIn(d, a) && AllIn(d, b) && b != [] && NoDup(a + b)
    requires r1 == MergeNodes(d, a, b[1..]) && StableOrder(d, r1, a, b[1..])
    requires i < j < |r1| && r1[i] in b && r1[j] in a
    ensures d[r1[i]] < d[r1[j]]
  {
    assert r1[i] != b[0] by {
      OutOfFront(d, a, b, r1[i]);
    }
    InTail(b, r1[i]);
  }

  /** The stable order step when a's front goes first. */
  lemma StableTakeA(d: map<nat, int>, a: seq<nat>, b: seq<nat>, r1: seq<nat>)
    requires AllIn(d, a) && AllIn(d, b) && a != [] && b != [] && d[a[0]] <= d[b[0]]
    requires NoDup(a + b)
    requires r1 == MergeNodes(d, a[1..], b) && StableOrder(d, r1, a[1..], b)
    ensures StableOrder(d, MergeNodes(d, a, b), a, b)
  {
    var r := MergeNodes(d, a, b);
    assert r == [a[0]] + r1;
    forall i, j | 0 <= i < j < |r| && r[i] in b && r[j] in a ensures d[r[i]] < d[r[j]] {
      assert i != 0 by {
        NoDupApart(a, b, 0, 0);
        if r[0] in b {
          var k := IndexOf(b, r[0]);
          NoDupApart(a, b, 0, k);
        }
      }
      assert r[i] == r1[i - 1] && r[j] == r1[j - 1];
      assert r[j] != a[0] by {
        MergeFromA(d, a, b, r[j], r1, j - 1);
      }
      InTail(a, r[j]);
      assert r1[i - 1] in b && r1[j - 1] in a[1..] && 0 <= i - 1 < j - 1 < |r1|;
      assert d[r1[i - 1]] < d[r1[j - 1]];
    }
  }

  /** A node of b comes before a node of a in r only with a strictly
      smaller value. */
  ghost predicate StableOrder(d: map<nat, int>, r: seq<nat>, a: seq<nat>, b: seq<nat>)
    requires AllIn(d, r)
  {
    forall i, j :: 0 <= i < j < |r| && r[i] in b && r[j] in a ==> d[r[i]] < d[r[j]]
  }

  lemma IndexOf(s: seq<nat>, x: nat) returns (k: nat)
    requires x in s
    ensures k < |s| && s[k] == x
  {
    k :| 0 <= k < |s| && s[k] == x;
  }

  lemma InTail(s: seq<nat>, x: nat)
    requires x in s && x != s[0]
    ensures x in s[1..]
  {
    var k := IndexOf(s, x);
    assert s[1..][k - 1] == x;
  }

  lemma NoDupDrop(a: seq<nat>, b: seq<nat>)
    requires b != [] && NoDup(a + b)
    ensures NoDup(a + b[1..])
  {
    assert forall i :: 0 <= i < |a + b[1..]| ==> (a + b[1..])[i] == (a + b)[if i < |a| then i else i + 1];
  }

  lemma NoDupDropA(a: seq<nat>, b: seq<nat>)
    requires a != [] && NoDup(a + b)
    ensures NoDup(a[1..] + b)
  {
    assert forall i :: 0 <= i < |a[1..] + b| ==> (a[1..] + b)[i] == (a + b)[i + 1];
  }

  /** After b's front is taken, it does not occur again. */
  lemma OutOfFront(d: map<nat, int>, a: seq<nat>, b: seq<nat>, x: nat)
    requires AllIn(d, a) && AllIn(d, b) && b != [] && NoDup(a + b) && x in MergeNodes(d, a, b[1..])
    ensures x != b[0]
  {
    NoDupDrop(a, b);
    MergeFrom(d, a, b[1..], x);
    if x in a {
      var k := IndexOf(a, x);
      NoDupApart(a, b, k, 0);
    } else {
      var k := IndexOf(b[1..], x);
      assert (a + b)[|a|] == b[0] && (a + b)[|a| + 1 + k] == x;
    }
  }

  /** After a's front is taken, it does not occur again. */
  lemma MergeFromA(d: map<nat, int>, a: seq<nat>, b: seq<nat>, x: nat, r1: seq<nat>, k: nat)
    requires AllIn(d, a) && AllIn(d, b) && a != [] && NoDup(a + b)
    requires r1 == MergeNodes(d, a[1..], b) && k < |r1| && r1[k] == x
    ensures x != a[0]
  {
    NoDupDropA(a, b);
    MergeFrom(d, a[1..], b, x);
    if x in b {
      var k := IndexOf(b, x);
      NoDupApart(a, b, 0, k);
    } else {
      var k := IndexOf(a[1..], x);
      assert (a + b)[0] == a[0] && (a + b)[1 + k] == x;
    }
  }

  /** s back to front. */
  function Reversed<T>(s: seq<T>): (r: seq<T>)
    ensures |r| == |s|
  {
    if s == [] then [] else Reversed(s[1..]) + [s[0]]
  }

  /** The i-th element of the reversal is the i-th from the end. */
  lemma {:induction false} ReversedAt<T>(s: seq<T>)
    ensures forall i :: 0 <= i < |s| ==> Reversed(s)[i] == s[|s| - 1 - i]
  {
    if s != [] {
      ReversedAt(s[1..]);
      assert Reversed(s) == Reversed(s[1..]) + [s[0]];
    }
  }

  /** Reversing a longer prefix puts the new element in front. */
  lemma ReversedSnoc<T>(s: seq<T>, i: nat)
    requires i < |s|
    ensures Reversed(s[..i + 1]) == [s[i]] + Reversed(s[..i])
  {
    ReversedAt(s[..i + 1]);
    ReversedAt(s[..i]);
  }

  /** Reversing twice gives the sequence back. */
  lemma ReversedTwice<T>(s: seq<T>)
    ensures Reversed(Reversed(s)) == s
  {
    ReversedAt(s);
    ReversedAt(Reversed(s));
  }

  /** Nothing to reverse in a sequence of at most one element. */
  lemma ReversedShort<T>(s: seq<T>)
    requires |s| <= 1
    ensures Reversed(s) == s
  {
    if s != [] {
      assert Reversed(s) == Reversed(s[1..]) + [s[0]];
    }
  }

  /** One round of reverse's loop: with the first i elements of e0
      reversed, moving the i-th element in front of the first reverses
      the first i + 1, and the node after it stays in place. */
  lemma ReverseRound(e0: seq<nat>, e: seq<nat>, n: nat, i: nat)
    requires 1 <= i < |e0| && e == Reversed(e0[..i]) + e0[i..]
    ensures |e| == |e0| && MoveRange(e, 0, i, i + 1) == Reversed(e0[..i + 1]) + e0[i + 1..]
    ensures (MoveRange(e, 0, i, i + 1) + [n])[i + 1] == (e + [n])[i + 1]
    ensures multiset(MoveRange(e, 0, i, i + 1) + [n]) == multiset(e + [n])
  {
    MoveFront(e, n, i);
    var r, t := Reversed(e0[..i]), e0[i..];
    FrontOf(r, t, i);
    ReversedSnoc(e0, i);
    assert t[0] == e0[i] && t[1..] == e0[i + 1..];
  }

  /** Before reverse's loop, the first element alone is reversed. */
  lemma ReverseStart<T>(e0: seq<T>)
    requires e0 != []
    ensures e0 == Reversed(e0[..1]) + e0[1..]
  {
    ReversedShort(e0[..1]);
    assert e0 == e0[..1] + e0[1..];
  }

  /** After reverse's loop, all of e0 is reversed. */
  lemma ReverseEnd<T>(e0: seq<T>, e: seq<T>, i: nat)
    requires i == |e0| && e == Reversed(e0[..i]) + e0[i..]
    ensures e == Reversed(e0)
  {
    assert e0[..i] == e0 && e0[i..] == [];
  }

  /** Moving the i-th element to the front leaves the ones after it in
      place and keeps the multiset. */
  lemma MoveFront(e: seq<nat>, n: nat, i: nat)
    requires i < |e|
    ensures (MoveRange(e, 0, i, i + 1) + [n])[i + 1] == (e + [n])[i + 1]
    ensures multiset(MoveRange(e, 0, i, i + 1) + [n]) == multiset(e + [n])
  {
    MoveRangePerm(e, 0, i, i + 1);
    if 0 < i {
      assert MoveRange(e, 0, i, i + 1) == [e[i]] + e[..i] + e[i + 1..];
    }
  }

  /** The pieces of r + t around position |r|. */
  lemma FrontOf<T>(r: seq<T>, t: seq<T>, i: nat)
    requires |r| == i && t != []
    ensures (r + t)[..i] == r && (r + t)[i..i + 1] == [t[0]] && (r + t)[i + 1..] == t[1..]
    ensures (r + t)[..0] + (r + t)[i..i + 1] + (r + t)[0..i] + (r + t)[i + 1..] == [t[0]] + r + t[1..]
  {
    assert (r + t)[0..i] == r;
  }

  /** The values of the reversed nodes are the reversed values. */
  lemma ValuesReversed(d: map<nat, int>, s: seq<nat>)
    requires AllIn(d, s)
    ensures AllIn(d, Reversed(s)) && Values(d, Reversed(s)) == Reversed(Values(d, s))
  {
    ReversedAt(s);
    ReversedAt(Values(d, s));
  }

  /** The nodes of s whose value is not v, in order. */
  function Keep(d: map<nat, int>, s: seq<nat>, v: int): (r: seq<nat>)
    requires AllIn(d, s)
    ensures AllIn(d, r) && |r| <= |s|
  {
    if s == [] then [] else if d[s[0]] == v then Keep(d, s[1..], v) else [s[0]] + Keep(d, s[1..], v)
  }

  /** The values of s other than v, in order. */
  function Removed(s: seq<int>, v: int): seq<int>
  {
    if s == [] then [] else if s[0] == v then Removed(s[1..], v) else [s[0]] + Removed(s[1..], v)
  }

  /** Keeping the nodes one element further. */
  lemma KeepSnoc(d: map<nat, int>, s: seq<nat>, i: nat, v: int)
    requires AllIn(d, s) && i < |s|
    ensures Keep(d, s[..i + 1], v) == Keep(d, s[..i], v) + (if d[s[i]] == v then [] else [s[i]])
  {
    KeepAppend(d, s[..i], [s[i]], v);
    assert s[..i + 1] == s[..i] + [s[i]];
  }

  lemma {:induction false} KeepAppend(d: map<nat, int>, a: seq<nat>, b: seq<nat>, v: int)
    requires AllIn(d, a) && AllIn(d, b)
    ensures AllIn(d, a + b) && Keep(d, a + b, v) == Keep(d, a, v) + Keep(d, b, v)
  {
    if a == [] {
      assert a + b == b;
    } else {
      KeepAppend(d, a[1..], b, v);
      assert (a + b)[0] == a[0] && (a + b)[1..] == a[1..] + b;
    }
  }

  /** A round of remove's loop that erases e0[i], the k-th element of
      e, whose value is v. */
  lemma RemoveErased(d: map<nat, int>, e0: seq<nat>, n: nat, v: int, i: nat, e: seq<nat>)
    requires AllIn(d, e0) && i < |e0| && d[e0[i]] == v && e == Keep(d, e0[..i], v) + e0[i..]
    ensures var k := |Keep(d, e0[..i], v)|;
      k < |e| && e[k] == e0[i] && e[..k] + e[k + 1..] == Keep(d, e0[..i + 1], v) + e0[i + 1..] &&
      (e[..k] + e[k + 1..] + [n])[|Keep(d, e0[..i + 1], v)|] == (e0 + [n])[i + 1]
  {
    KeepSnoc(d, e0, i, v);
    var kp := Keep(d, e0[..i], v);
    assert e0[i..] == [e0[i]] + e0[i + 1..];
    assert e[..|kp|] == kp && e[|kp| + 1..] == e0[i + 1..];
  }

  /** A round of remove's loop that keeps e0[i], the k-th element of e. */
  lemma RemoveKept(d: map<nat, int>, e0: seq<nat>, n: nat, v: int, i: nat, e: seq<nat>)
    requires AllIn(d, e0) && i < |e0| && d[e0[i]] != v && e == Keep(d, e0[..i], v) + e0[i..]
    ensures var k := |Keep(d, e0[..i], v)|;
      k < |e| && e[k] == e0[i] && e == Keep(d, e0[..i + 1], v) + e0[i + 1..] &&
      (e + [n])[|Keep(d, e0[..i + 1], v)|] == (e0 + [n])[i + 1]
  {
    KeepSnoc(d, e0, i, v);
    var kp := Keep(d, e0[..i], v);
    assert e0[i..] == [e0[i]] + e0[i + 1..];
    assert e == kp + [e0[i]] + e0[i + 1..];
  }

  /** Remove's cursor e0[i] is the element after the kept prefix. */
  lemma RemoveCursor(d: map<nat, int>, e0: seq<nat>, v: int, i: nat, e: seq<nat>)
    requires AllIn(d, e0) && i < |e0| && e == Keep(d, e0[..i], v) + e0[i..]
    ensures |Keep(d, e0[..i], v)| < |e| && e[|Keep(d, e0[..i], v)|] == e0[i]
  {
  }

  /** The start and the end of remove's loop. */
  lemma RemoveEnds(d: map<nat, int>, e0: seq<nat>, v: int)
    requires AllIn(d, e0)
    ensures Keep(d, e0[..0], v) + e0[0..] == e0
    ensures Keep(d, e0[..|e0|], v) + e0[|e0|..] == Keep(d, e0, v)
  {
    assert e0[..0] == [] && e0[0..] == e0;
    assert e0[..|e0|] == e0 && e0[|e0|..] == [];
  }

  /** Erasing the k-th element of e shrinks its multiset. */
  lemma EraseSub(e: seq<nat>, n: nat, k: nat)
    requires k < |e|
    ensures multiset(e[..k] + e[k + 1..] + [n]) <= multiset(e + [n])
  {
    assert e == e[..k] + [e[k]] + e[k + 1..];
  }

  /** The values of the kept nodes are the values with v removed. */
  lemma {:induction false} ValuesKeep(d: map<nat, int>, s: seq<nat>, v: int)
    requires AllIn(d, s)
    ensures Values(d, Keep(d, s, v)) == Removed(Values(d, s), v)
  {
    if s != [] {
      ValuesKeep(d, s[1..], v);
      ValuesSlice(d, s, 1, |s|);
      ValuesAppend(d, [s[0]], Keep(d, s[1..], v));
    }
  }

  /** remove(v) leaves no v and every other value as often as before. */
  lemma {:induction false} RemovedCount(s: seq<int>, v: int)
    ensures v !in Removed(s, v)
    ensures forall x :: x != v ==> multiset(Removed(s, v))[x] == multiset(s)[x]
  {
    if s != [] {
      RemovedCount(s[1..], v);
      assert s == [s[0]] + s[1..];
    }
  }

  /** Removing from a concatenation removes from each part, so the kept
      values keep their order. */
  lemma {:induction false} RemovedAppend(a: seq<int>, b: seq<int>, v: int)
    ensures Removed(a + b, v) == Removed(a, v) + Removed(b, v)
  {
    if a == [] {
      assert a + b == b;
    } else {
      var c := a + b;
      assert c != [] && c[0] == a[0] && c[1..] == a[1..] + b;
      RemovedAppend(a[1..], b, v);
      if a[0] == v {
        assert Removed(c, v) == Removed(c[1..], v);
      } else {
        assert Removed(c, v) == [a[0]] + Removed(c[1..], v);
        assert Removed(a, v) == [a[0]] + Removed(a[1..], v);
      }
    }
  }

  /** A sequence without v is left as it is. */
  lemma {:induction false} RemovedAbsent(s: seq<int>, v: int)
    requires v !in s
    ensures Removed(s, v) == s
  {
    if s != [] {
      RemovedAbsent(s[1..], v);
      assert s == [s[0]] + s[1..];
    }
  }
}
