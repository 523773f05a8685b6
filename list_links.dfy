// The link words of the nodes of mini_container_list.h, as maps from node
// addresses to addresses, and what insert_at, erase_at and transfer do to
// the rings those words form.  A ring is a sequence of addresses each of
// which leads to the next, the last back to the first.

module ListLinks {

  /** The prev/next link words of node memory. */
  datatype Links = Links(next: map<nat, nat>, prev: map<nat, nat>)

  /** s[i].next == s[i + 1] and s[i + 1].prev == s[i] along s. */
  ghost predicate Linked(ln: Links, s: seq<nat>)
  {
    (forall i :: 0 <= i < |s| ==> s[i] in ln.next && s[i] in ln.prev) &&
    (forall i {:trigger s[i]} :: 0 <= i < |s| - 1 ==> ln.next[s[i]] == s[i + 1] && ln.prev[s[i + 1]] == s[i])
  }

  /** s is linked and its last node links back to its first: a ring. */
  ghost predicate Ring(ln: Links, s: seq<nat>)
  {
    |s| > 0 && Linked(ln, s) && ln.next[s[|s| - 1]] == s[0] && ln.prev[s[0]] == s[|s| - 1]
  }

  /** No address occurs twice. */
  ghost predicate NoDup(s: seq<nat>)
  {
    forall i, j :: 0 <= i < j < |s| ==> s[i] != s[j]
  }

  function Last(s: seq<nat>): nat
    requires s != []
  {
    s[|s| - 1]
  }

  /** transfer(pos, first, last) on the link words, statement by statement:
      nothing when pos == last, otherwise three next words and three prev
      words rewritten, each read after the writes before it. */
  function TransferLinks(ln: Links, pos: nat, first: nat, last: nat): Links
    requires pos in ln.prev && first in ln.prev && last in ln.prev
  {
    if pos == last then ln
    else
      var n1 := ln.next[ln.prev[last] := pos];
      var n2 := n1[ln.prev[first] := last];
      var n3 := n2[ln.prev[pos] := first];
      var tmp := ln.prev[pos];
      var p1 := ln.prev[pos := ln.prev[last]];
      var p2 := p1[last := p1[first]];
      var p3 := p2[first := tmp];
      Links(n3, p3)
  }

  /** swap(*this) as written calls transfer(begin(), begin(), end()) on a
      nonempty list: afterwards the elements link up into a cycle of their
      own, which the sentinel enters at the first one, so walking from
      begin() never reaches end(). */
  lemma SelfSwapCycle(ln: Links, e: seq<nat>, n: nat)
    requires Ring(ln, e + [n]) && NoDup(e + [n]) && |e| >= 1
    ensures e[0] in ln.prev && n in ln.prev
    ensures var r := TransferLinks(ln, e[0], e[0], n);
      n in r.next && r.next[n] == e[0] && n !in e &&
      e[|e| - 1] in r.next && r.next[e[|e| - 1]] == e[0] &&
      forall i :: 0 <= i < |e| - 1 ==> e[i] in r.next && r.next[e[i]] == e[i + 1]
  {
    var q := e + [n];
    var last := e[|e| - 1];
    assert q[0] == e[0] && q[|e|] == n && q[|e| - 1] == last;
    assert ln.prev[n] == last && ln.prev[e[0]] == n;
    assert e[0] != n;
    var nx := ln.next[last := e[0]][n := e[0]];
    assert TransferLinks(ln, e[0], e[0], n).next == nx;
    assert q[|e| - 1] != q[|e|];
    forall i | 0 <= i < |e| - 1
      ensures e[i] in nx && nx[e[i]] == e[i + 1]
    {
      assert q[i] == e[i] && q[i + 1] == e[i + 1];
      assert q[i] != q[|e| - 1] && q[i] != q[|e|];
      assert ln.next[q[i]] == q[i + 1];
    }
    forall i | 0 <= i < |e| ensures e[i] != n {
      assert q[i] == e[i] && q[i] != q[|e|];
    }
  }

  /** A linked sequence splits into two linked halves joined by one link,
      and two such halves join into a linked sequence. */
  lemma LinkedAppend(ln: Links, a: seq<nat>, b: seq<nat>)
    ensures Linked(ln, a + b) <==>
      Linked(ln, a) && Linked(ln, b) &&
      (a != [] && b != [] ==> ln.next[Last(a)] == b[0] && ln.prev[b[0]] == Last(a))
  {
    var s := a + b;
    if Linked(ln, s) {
      forall i | 0 <= i < |a| ensures a[i] in ln.next && a[i] in ln.prev {
        assert s[i] == a[i];
      }
      forall i | 0 <= i < |b| ensures b[i] in ln.next && b[i] in ln.prev {
        assert s[|a| + i] == b[i];
      }
      forall i | 0 <= i < |a| - 1 ensures ln.next[a[i]] == a[i + 1] && ln.prev[a[i + 1]] == a[i] {
        assert s[i] == a[i] && s[i + 1] == a[i + 1];
      }
      forall i | 0 <= i < |b| - 1 ensures ln.next[b[i]] == b[i + 1] && ln.prev[b[i + 1]] == b[i] {
        assert s[|a| + i] == b[i] && s[|a| + i + 1] == b[i + 1];
      }
      if a != [] && b != [] {
        assert s[|a| - 1] == Last(a) && s[|a|] == b[0];
      }
    }
    if Linked(ln, a) && Linked(ln, b) && (a != [] && b != [] ==> ln.next[Last(a)] == b[0] && ln.prev[b[0]] == Last(a)) {
      forall i | 0 <= i < |s| ensures s[i] in ln.next && s[i] in ln.prev {
        if i < |a| {
          assert s[i] == a[i];
        } else {
          assert s[i] == b[i - |a|];
        }
      }
      forall i | 0 <= i < |s| - 1 ensures ln.next[s[i]] == s[i + 1] && ln.prev[s[i + 1]] == s[i] {
        if i < |a| - 1 {
          assert s[i] == a[i] && s[i + 1] == a[i + 1];
        } else if i == |a| - 1 {
          assert s[i] == Last(a) && s[i + 1] == b[0];
        } else {
          assert s[i] == b[i - |a|] && s[i + 1] == b[i - |a| + 1];
        }
      }
    }
  }

  /** A ring read from another node on is the same ring. */
  lemma RingRotate(ln: Links, a: seq<nat>, b: seq<nat>)
    requires Ring(ln, a + b)
    ensures Ring(ln, b + a)
  {
    if a == [] {
      assert b + a == a + b;
      return;
    }
    if b == [] {
      assert b + a == a + b;
      return;
    }
    LinkedAppend(ln, a, b);
    LinkedAppend(ln, b, a);
    assert (a + b)[|a + b| - 1] == Last(b) && (a + b)[0] == a[0];
    assert (b + a)[|b + a| - 1] == Last(a) && (b + a)[0] == b[0];
  }

  /** Links rewritten only at nodes off s, or at s's last next word and its
      first prev word, leave s linked. */
  lemma LinkedFrame(ln: Links, ln1: Links, s: seq<nat>)
    requires Linked(ln, s)
    requires forall i :: 0 <= i < |s| ==> s[i] in ln1.next && s[i] in ln1.prev
    requires forall i :: 0 <= i < |s| - 1 ==> ln1.next[s[i]] == ln.next[s[i]]
    requires forall i :: 0 < i < |s| ==> ln1.prev[s[i]] == ln.prev[s[i]]
    ensures Linked(ln1, s)
  {
    forall i | 0 <= i < |s| - 1 ensures ln1.next[s[i]] == s[i + 1] && ln1.prev[s[i + 1]] == s[i] {
      assert ln1.prev[s[i + 1]] == ln.prev[s[i + 1]];
    }
  }

  /** ln1 has the same nodes as ln, and their links agree off s. */
  ghost predicate AgreeOff(ln: Links, ln1: Links, s: seq<nat>)
  {
    ln1.next.Keys == ln.next.Keys && ln1.prev.Keys == ln.prev.Keys &&
    (forall x :: x in ln.next && x !in s ==> ln1.next[x] == ln.next[x]) &&
    (forall x :: x in ln.prev && x !in s ==> ln1.prev[x] == ln.prev[x])
  }

  /** ln1 has the same nodes as ln, and links that differ from ln's at
      most in the next words of a, b, c and the prev words of d, e, f. */
  ghost predicate Differs(ln: Links, ln1: Links, a: nat, b: nat, c: nat, d: nat, e: nat, f: nat)
  {
    ln1.next.Keys == ln.next.Keys && ln1.prev.Keys == ln.prev.Keys &&
    (forall x :: x in ln.next && x != a && x != b && x != c ==> ln1.next[x] == ln.next[x]) &&
    (forall x :: x in ln.prev && x != d && x != e && x != f ==> ln1.prev[x] == ln.prev[x])
  }

  /** transfer(pos, first, last) for three distinct nodes whose
      predecessors are distinct: the predecessor of last now leads to pos,
      that of first to last, that of pos to first, and the prev words of
      pos, last and first are rewritten to match. */
  lemma TransferAt(ln: Links, pos: nat, first: nat, last: nat)
    requires pos in ln.prev && first in ln.prev && last in ln.prev
    requires pos != first && pos != last && first != last
    requires ln.prev[pos] in ln.next && ln.prev[first] in ln.next && ln.prev[last] in ln.next
    requires ln.prev[pos] != ln.prev[first] && ln.prev[pos] != ln.prev[last] && ln.prev[first] != ln.prev[last]
    ensures Differs(ln, TransferLinks(ln, pos, first, last), ln.prev[last], ln.prev[first], ln.prev[pos], pos, last, first)
    ensures TransferLinks(ln, pos, first, last).next[ln.prev[last]] == pos
    ensures TransferLinks(ln, pos, first, last).next[ln.prev[first]] == last
    ensures TransferLinks(ln, pos, first, last).next[ln.prev[pos]] == first
    ensures TransferLinks(ln, pos, first, last).prev[pos] == ln.prev[last]
    ensures TransferLinks(ln, pos, first, last).prev[last] == ln.prev[first]
    ensures TransferLinks(ln, pos, first, last).prev[first] == ln.prev[pos]
  {
  }

  /** Links that differ only at nodes s avoids (next words off its last
      node, prev words off its first) leave s linked. */
  lemma LinkedAvoid(ln: Links, ln1: Links, s: seq<nat>, a: nat, b: nat, c: nat, d: nat, e: nat, f: nat)
    requires Linked(ln, s) && Differs(ln, ln1, a, b, c, d, e, f)
    requires Avoids(s, a, b, c, d, e, f)
    ensures Linked(ln1, s)
  {
    LinkedFrame(ln, ln1, s);
  }

  /** The three parts of a sequence without duplicates have none, and share
      no address. */
  lemma NoDup3(m: seq<nat>, z: seq<nat>, w: seq<nat>)
    requires NoDup(m + z + w)
    ensures NoDup(m) && NoDup(z) && NoDup(w)
    ensures forall i, j :: 0 <= i < |m| && 0 <= j < |z| ==> m[i] != z[j]
    ensures forall i, j :: 0 <= i < |m| && 0 <= j < |w| ==> m[i] != w[j]
    ensures forall i, j :: 0 <= i < |z| && 0 <= j < |w| ==> z[i] != w[j]
  {
    var all := m + z + w;
    forall i, j | 0 <= i < j < |m| ensures m[i] != m[j] {
      assert all[i] == m[i] && all[j] == m[j];
    }
    forall i, j | 0 <= i < j < |z| ensures z[i] != z[j] {
      assert all[|m| + i] == z[i] && all[|m| + j] == z[j];
    }
    forall i, j | 0 <= i < j < |w| ensures w[i] != w[j] {
      assert all[|m| + |z| + i] == w[i] && all[|m| + |z| + j] == w[j];
    }
    forall i, j | 0 <= i < |m| && 0 <= j < |z| ensures m[i] != z[j] {
      assert all[i] == m[i] && all[|m| + j] == z[j];
    }
    forall i, j | 0 <= i < |m| && 0 <= j < |w| ensures m[i] != w[j] {
      assert all[i] == m[i] && all[|m| + |z| + j] == w[j];
    }
    forall i, j | 0 <= i < |z| && 0 <= j < |w| ensures z[i] != w[j] {
      assert all[|m| + i] == z[i] && all[|m| + |z| + j] == w[j];
    }
  }

  /** In a sequence without duplicates, no node before the last is the last,
      and no node after the first is the first. */
  lemma NoDupEnds(s: seq<nat>)
    requires NoDup(s) && s != []
    ensures forall i :: 0 <= i < |s| - 1 ==> s[i] != Last(s)
    ensures forall i :: 0 < i < |s| ==> s[i] != s[0]
  {
  }

  /** The nodes transfer(w[0], m[0], z[0]) reads and rewrites when the ring
      M + Z and the ring W are apart: the predecessors of z[0], m[0] and
      w[0] are the last nodes of M, Z and W, and each part avoids them. */
  lemma ApartShape(ln: Links, m: seq<nat>, z: seq<nat>, w: seq<nat>)
    requires m != [] && z != [] && w != []
    requires Ring(ln, m + z) && Ring(ln, w) && NoDup(m + z + w)
    ensures Linked(ln, m) && Linked(ln, z) && Linked(ln, w)
    ensures ln.prev[z[0]] == Last(m) && ln.prev[m[0]] == Last(z) && ln.prev[w[0]] == Last(w)
    ensures Last(m) in ln.next && Last(z) in ln.next && Last(w) in ln.next
    ensures w[0] != m[0] && w[0] != z[0] && m[0] != z[0]
    ensures Last(m) != Last(z) && Last(m) != Last(w) && Last(z) != Last(w)
    ensures Avoids(m, Last(m), Last(z), Last(w), w[0], z[0], m[0])
    ensures Avoids(z, Last(m), Last(z), Last(w), w[0], z[0], m[0])
    ensures Avoids(w, Last(m), Last(z), Last(w), w[0], z[0], m[0])
  {
    LinkedAppend(ln, m, z);
    assert (m + z)[|m + z| - 1] == Last(z) && (m + z)[0] == m[0];
    NoDup3(m, z, w);
    NoDupEnds(m);
    NoDupEnds(z);
    NoDupEnds(w);
  }

  /** s's next words before its last node avoid a, b, c, and its prev words
      after its first node avoid d, e, f. */
  ghost predicate Avoids(s: seq<nat>, a: nat, b: nat, c: nat, d: nat, e: nat, f: nat)
  {
    (forall i :: 0 <= i < |s| - 1 ==> s[i] != a && s[i] != b && s[i] != c) &&
    (forall i :: 0 < i < |s| ==> s[i] != d && s[i] != e && s[i] != f)
  }

  /** Moving the range M, which a ring M + Z starts with, in front of pos,
      the first node of a separate ring W: the range closes up into the
      ring M + W and leaves the ring Z, and no other node's links change. */
  lemma TransferApart(ln: Links, m: seq<nat>, z: seq<nat>, w: seq<nat>)
    requires m != [] && z != [] && w != []
    requires Ring(ln, m + z) && Ring(ln, w) && NoDup(m + z + w)
    requires m[0] in ln.prev && z[0] in ln.prev && w[0] in ln.prev
    ensures Ring(TransferLinks(ln, w[0], m[0], z[0]), m + w)
    ensures Ring(TransferLinks(ln, w[0], m[0], z[0]), z)
    ensures AgreeOff(ln, TransferLinks(ln, w[0], m[0], z[0]), m + z + w)
  {
    ApartShape(ln, m, z, w);
    var ln1 := TransferLinks(ln, w[0], m[0], z[0]);
    TransferAt(ln, w[0], m[0], z[0]);
    LinkedAvoid(ln, ln1, m, Last(m), Last(z), Last(w), w[0], z[0], m[0]);
    LinkedAvoid(ln, ln1, z, Last(m), Last(z), Last(w), w[0], z[0], m[0]);
    LinkedAvoid(ln, ln1, w, Last(m), Last(z), Last(w), w[0], z[0], m[0]);
    LinkedAppend(ln1, m, w);
    assert (m + w)[|m + w| - 1] == Last(w) && (m + w)[0] == m[0];
    assert Last(m) in m + z + w && Last(z) in m + z + w && Last(w) in m + z + w;
  }

  /** The nodes transfer(z2[0], m[0], z1[0]) reads and rewrites in the ring
      M + Z1 + Z2: the predecessors of z1[0], m[0] and z2[0] are the last
      nodes of M, Z2 and Z1, and each part avoids them. */
  lemma WithinShape(ln: Links, m: seq<nat>, z1: seq<nat>, z2: seq<nat>)
    requires m != [] && z1 != [] && z2 != []
    requires Ring(ln, m + z1 + z2) && NoDup(m + z1 + z2)
    ensures Linked(ln, m) && Linked(ln, z1) && Linked(ln, z2)
    ensures ln.prev[z1[0]] == Last(m) && ln.prev[m[0]] == Last(z2) && ln.prev[z2[0]] == Last(z1)
    ensures Last(m) in ln.next && Last(z1) in ln.next && Last(z2) in ln.next
    ensures z2[0] != m[0] && z2[0] != z1[0] && m[0] != z1[0]
    ensures Last(m) != Last(z1) && Last(m) != Last(z2) && Last(z1) != Last(z2)
    ensures Avoids(m, Last(m), Last(z2), Last(z1), z2[0], z1[0], m[0])
    ensures Avoids(z1, Last(m), Last(z2), Last(z1), z2[0], z1[0], m[0])
    ensures Avoids(z2, Last(m), Last(z2), Last(z1), z2[0], z1[0], m[0])
  {
    LinkedAppend(ln, m + z1, z2);
    LinkedAppend(ln, m, z1);
    assert Last(m + z1) == Last(z1);
    assert (m + z1 + z2)[|m + z1 + z2| - 1] == Last(z2) && (m + z1 + z2)[0] == m[0];
    NoDup3(m, z1, z2);
    NoDupEnds(m);
    NoDupEnds(z1);
    NoDupEnds(z2);
  }

  /** Moving the range M of a ring M + Z1 + Z2 in front of pos, the first
      node of Z2: the ring becomes M + Z2 + Z1, and no other node's links
      change. */
  lemma TransferWithin(ln: Links, m: seq<nat>, z1: seq<nat>, z2: seq<nat>)
    requires m != [] && z1 != [] && z2 != []
    requires Ring(ln, m + z1 + z2) && NoDup(m + z1 + z2)
    requires m[0] in ln.prev && z1[0] in ln.prev && z2[0] in ln.prev
    ensures Ring(TransferLinks(ln, z2[0], m[0], z1[0]), m + z2 + z1)
    ensures AgreeOff(ln, TransferLinks(ln, z2[0], m[0], z1[0]), m + z1 + z2)
  {
    WithinShape(ln, m, z1, z2);
    var ln1 := TransferLinks(ln, z2[0], m[0], z1[0]);
    TransferAt(ln, z2[0], m[0], z1[0]);
    LinkedAvoid(ln, ln1, m, Last(m), Last(z2), Last(z1), z2[0], z1[0], m[0]);
    LinkedAvoid(ln, ln1, z1, Last(m), Last(z2), Last(z1), z2[0], z1[0], m[0]);
    LinkedAvoid(ln, ln1, z2, Last(m), Last(z2), Last(z1), z2[0], z1[0], m[0]);
    LinkedAppend(ln1, m, z2);
    LinkedAppend(ln1, m + z2, z1);
    assert Last(m + z2) == Last(z2);
    assert (m + z2 + z1)[|m + z2 + z1| - 1] == Last(z1) && (m + z2 + z1)[0] == m[0];
    assert Last(m) in m + z1 + z2 && Last(z1) in m + z1 + z2 && Last(z2) in m + z1 + z2;
  }

  /** insert_at(pos, p) on the link words, statement by statement: the node
      before pos leads to p, p's prev is that node, p leads to pos, pos's
      prev is p. */
  function InsertLinks(ln: Links, pos: nat, p: nat): Links
    requires pos in ln.prev
  {
    var n1 := ln.next[ln.prev[pos] := p];
    var p1 := ln.prev[p := ln.prev[pos]];
    var n2 := n1[p := pos];
    var p2 := p1[pos := p];
    Links(n2, p2)
  }

  /** A node off a ring, linked in before the ring's first node, joins the
      ring at its end; no other node's links change. */
  lemma InsertRing(ln: Links, r: seq<nat>, p: nat)
    requires Ring(ln, r) && NoDup(r) && p !in r && p in ln.next && p in ln.prev
    ensures Ring(InsertLinks(ln, r[0], p), r + [p])
  {
    var ln1 := InsertLinks(ln, r[0], p);
    assert r[0] in ln.next && Last(r) in ln.next;
    assert ln1.next == ln.next[Last(r) := p][p := r[0]];
    assert ln1.prev == ln.prev[p := Last(r)][r[0] := p];
    NoDupEnds(r);
    LinkedFrame(ln, ln1, r);
    LinkedAppend(ln1, r, [p]);
    assert (r + [p])[|r + [p]| - 1] == p && (r + [p])[0] == r[0];
  }

  /** erase_at(pos) on the link words: the node before pos leads to the one
      after it and back; then pos's words are freed. */
  function EraseLinks(ln: Links, pos: nat): Links
    requires pos in ln.prev && pos in ln.next
  {
    var prevNode := ln.prev[pos];
    var nextNode := ln.next[pos];
    Links(ln.next[prevNode := nextNode] - {pos}, ln.prev[nextNode := prevNode] - {pos})
  }

  /** Unlinking and freeing the first node of a ring of two or more leaves
      the rest a ring; no other node's links change. */
  lemma EraseRing(ln: Links, r: seq<nat>)
    requires Ring(ln, r) && NoDup(r) && |r| >= 2
    ensures Ring(EraseLinks(ln, r[0]), r[1..])
  {
    var ln1 := EraseLinks(ln, r[0]);
    var t := r[1..];
    assert r == [r[0]] + t;
    LinkedAppend(ln, [r[0]], t);
    NoDupEnds(r);
    assert Last(r) == Last(t) && Last(r) in ln.next;
    assert ln1.next == ln.next[Last(t) := t[0]] - {r[0]};
    assert ln1.prev == ln.prev[t[0] := Last(t)] - {r[0]};
    forall i | 0 <= i < |t| ensures t[i] != r[0] {
      assert t[i] == r[i + 1];
    }
    LinkedFrame(ln, ln1, t);
  }

  /** No duplicates is a statement about the multiset of a sequence. */
  lemma {:induction false} NoDupCount(s: seq<nat>)
    ensures NoDup(s) <==> forall x :: multiset(s)[x] <= 1
  {
    if s != [] {
      var t := s[1..];
      assert s == [s[0]] + t;
      NoDupCount(t);
      if NoDup(s) {
        assert NoDup(t) by {
          forall i, j | 0 <= i < j < |t| ensures t[i] != t[j] {
            assert t[i] == s[i + 1] && t[j] == s[j + 1];
          }
        }
        assert s[0] !in t by {
          forall i | 0 <= i < |t| ensures t[i] != s[0] {
            assert t[i] == s[i + 1];
          }
        }
      }
      if forall x :: multiset(s)[x] <= 1 {
        forall x ensures multiset(t)[x] <= 1 {
          assert multiset(s)[x] == multiset(t)[x] + (if x == s[0] then 1 else 0);
        }
        assert multiset(s)[s[0]] == multiset(t)[s[0]] + 1;
        forall i, j | 0 <= i < j < |s| ensures s[i] != s[j] {
          if i == 0 {
            assert s[j] == t[j - 1] && s[j] in t;
          } else {
            assert s[i] == t[i - 1] && s[j] == t[j - 1];
          }
        }
      }
    }
  }

  /** A rearrangement of a sequence without duplicates has none. */
  lemma NoDupPerm(a: seq<nat>, b: seq<nat>)
    requires NoDup(a) && multiset(a) == multiset(b)
    ensures NoDup(b)
  {
    NoDupCount(a);
    NoDupCount(b);
  }

  /** The data of the nodes s, in order. */
  function Values(d: map<nat, int>, s: seq<nat>): (r: seq<int>)
    requires AllIn(d, s)
    ensures |r| == |s| && forall i {:trigger r[i]} :: 0 <= i < |s| ==> r[i] == d[s[i]]
  {
    if s == [] then [] else [d[s[0]]] + Values(d, s[1..])
  }

  lemma ValuesAppend(d: map<nat, int>, a: seq<nat>, b: seq<nat>)
    requires forall i :: 0 <= i < |a| ==> a[i] in d
    requires forall i :: 0 <= i < |b| ==> b[i] in d
    ensures forall i :: 0 <= i < |a + b| ==> (a + b)[i] in d
    ensures Values(d, a + b) == Values(d, a) + Values(d, b)
  {
    assert forall i :: 0 <= i < |a + b| ==> (a + b)[i] == if i < |a| then a[i] else b[i - |a|];
  }

  /** A ring whose nodes keep their link words stays a ring. */
  lemma RingKept(ln: Links, ln1: Links, r: seq<nat>)
    requires Ring(ln, r)
    requires forall i :: 0 <= i < |r| ==>
      (r[i] in ln1.next && r[i] in ln1.prev && ln1.next[r[i]] == ln.next[r[i]] && ln1.prev[r[i]] == ln.prev[r[i]])
    ensures Ring(ln1, r)
  {
    LinkedFrame(ln, ln1, r);
  }

  lemma NoDupSnoc(r: seq<nat>, p: nat)
    requires NoDup(r) && p !in r
    ensures NoDup(r + [p])
  {
  }

  /** s with its range [f, l) moved in front of position p, as transfer
      does within one list; unchanged when p lies in [f, l]. */
  function MoveRange<T>(s: seq<T>, p: nat, f: nat, l: nat): seq<T>
    requires f <= l <= |s| && p <= |s|
  {
    if p < f then s[..p] + s[f..l] + s[p..f] + s[l..]
    else if l < p then s[..f] + s[l..p] + s[f..l] + s[p..]
    else s
  }

  /** insert_at(q[k], p) on a ring q: p joins the ring just before q[k]. */
  lemma InsertAtRing(ln: Links, q: seq<nat>, k: nat, p: nat)
    requires Ring(ln, q) && NoDup(q) && k < |q| && p !in q && p in ln.next && p in ln.prev
    ensures Ring(InsertLinks(ln, q[k], p), q[..k] + [p] + q[k..])
    ensures NoDup(q[..k] + [p] + q[k..])
  {
    var r := q[k..] + q[..k];
    assert q == q[..k] + q[k..];
    RingRotate(ln, q[..k], q[k..]);
    NoDupPerm(q, r);
    assert r[0] == q[k];
    InsertRing(ln, r, p);
    var ln1 := InsertLinks(ln, q[k], p);
    assert r + [p] == q[k..] + (q[..k] + [p]);
    RingRotate(ln1, q[k..], q[..k] + [p]);
    NoDupSnoc(r, p);
    NoDupPerm(r + [p], q[..k] + [p] + q[k..]);
  }

  /** insert_at(q[k], p) rewrites only the words of p, q[k] and the node
      before q[k]. */
  lemma InsertAtFrame(ln: Links, q: seq<nat>, k: nat, p: nat)
    requires Ring(ln, q) && k < |q| && p in ln.next && p in ln.prev
    ensures AgreeOff(ln, InsertLinks(ln, q[k], p), q + [p])
  {
    if k == 0 {
      assert ln.prev[q[k]] == q[|q| - 1];
    } else {
      assert ln.prev[q[k]] == q[k - 1];
    }
  }

  /** erase_at(q[k]) on a ring q, q[k] not its last node: the ring closes
      over the gap and q[k]'s words are freed. */
  lemma EraseAtRing(ln: Links, q: seq<nat>, k: nat)
    requires Ring(ln, q) && NoDup(q) && k < |q| - 1
    ensures Ring(EraseLinks(ln, q[k]), q[..k] + q[k + 1..])
    ensures NoDup(q[..k] + q[k + 1..])
  {
    RotateAt(ln, q, k);
    var r := q[k..] + q[..k];
    assert r[1..] == q[k + 1..] + q[..k];
    EraseRing(ln, r);
    var ln1 := EraseLinks(ln, q[k]);
    RingRotate(ln1, q[k + 1..], q[..k]);
    NoDupSkip(q, k);
  }

  /** Dropping one entry keeps a sequence free of duplicates. */
  lemma NoDupSkip(q: seq<nat>, k: nat)
    requires NoDup(q) && k < |q|
    ensures NoDup(q[..k] + q[k + 1..])
  {
    var t := q[..k] + q[k + 1..];
    forall i, j | 0 <= i < j < |t|
      ensures t[i] != t[j]
    {
      var i', j' := if i < k then i else i + 1, if j < k then j else j + 1;
      assert t[i] == q[i'] && t[j] == q[j'] && i' < j';
    }
  }

  /** erase_at(q[k]) frees q[k]'s words and rewrites only the words of its
      two neighbours, which lie on q. */
  lemma EraseAtFrame(ln: Links, q: seq<nat>, k: nat)
    requires Ring(ln, q) && k < |q| - 1
    ensures EraseLinks(ln, q[k]).next.Keys == ln.next.Keys - {q[k]}
    ensures EraseLinks(ln, q[k]).prev.Keys == ln.prev.Keys - {q[k]}
    ensures forall x :: x in ln.next && x !in q ==> EraseLinks(ln, q[k]).next[x] == ln.next[x]
    ensures forall x :: x in ln.prev && x !in q ==> EraseLinks(ln, q[k]).prev[x] == ln.prev[x]
  {
    assert ln.next[q[k]] == q[k + 1];
    if k == 0 {
      assert ln.prev[q[k]] == q[|q| - 1];
    } else {
      assert ln.prev[q[k]] == q[k - 1];
    }
  }

  /** A ring without duplicates read from its k-th node on. */
  lemma RotateAt(ln: Links, q: seq<nat>, k: nat)
    requires Ring(ln, q) && NoDup(q) && k < |q|
    ensures Ring(ln, q[k..] + q[..k]) && NoDup(q[k..] + q[..k])
    ensures (q[k..] + q[..k])[0] == q[k] && multiset(q[k..] + q[..k]) == multiset(q)
  {
    assert q == q[..k] + q[k..];
    RingRotate(ln, q[..k], q[k..]);
    NoDupPerm(q, q[k..] + q[..k]);
  }

  lemma NoDupTail(r: seq<nat>)
    requires NoDup(r) && r != []
    ensures NoDup(r[1..])
  {
    forall i, j | 0 <= i < j < |r| - 1 ensures r[1..][i] != r[1..][j] {
      assert r[1..][i] == r[i + 1] && r[1..][j] == r[j + 1];
    }
  }

  /** The two rings of a transfer between lists, read from qb[f] and from
      qa[p]. */
  lemma ApartRotations(ln: Links, qa: seq<nat>, p: nat, qb: seq<nat>, f: nat, l: nat)
    requires Ring(ln, qa) && Ring(ln, qb) && NoDup(qa + qb) && p < |qa| && f < l < |qb|
    ensures Ring(ln, qb[f..l] + (qb[l..] + qb[..f])) && Ring(ln, qa[p..] + qa[..p])
    ensures NoDup(qb[f..l] + (qb[l..] + qb[..f]) + (qa[p..] + qa[..p]))
  {
    NoDup3(qa, qb, []);
    assert qa + qb + [] == qa + qb;
    RotateAt(ln, qb, f);
    RotateAt(ln, qa, p);
    CutAt(qb, f, l);
    NoDupPerm(qa + qb, qb[f..l] + (qb[l..] + qb[..f]) + (qa[p..] + qa[..p]));
  }

  /** transfer(qa[p], qb[f], qb[l]) between two separate rings: qb's range
      [f, l) moves in front of qa[p]. */
  lemma TransferApartAt(ln: Links, qa: seq<nat>, p: nat, qb: seq<nat>, f: nat, l: nat)
    requires Ring(ln, qa) && Ring(ln, qb) && NoDup(qa + qb) && p < |qa| && f < l < |qb|
    ensures Ring(TransferLinks(ln, qa[p], qb[f], qb[l]), qa[..p] + qb[f..l] + qa[p..])
    ensures Ring(TransferLinks(ln, qa[p], qb[f], qb[l]), qb[..f] + qb[l..])
  {
    ApartRotations(ln, qa, p, qb, f, l);
    var m, z, w := qb[f..l], qb[l..] + qb[..f], qa[p..] + qa[..p];
    TransferApart(ln, m, z, w);
    ApartBack(TransferLinks(ln, qa[p], qb[f], qb[l]), qa, p, qb, f, l);
  }

  /** The rings a transfer between lists leaves, read from their sentinels'
      successors again. */
  lemma ApartBack(ln1: Links, qa: seq<nat>, p: nat, qb: seq<nat>, f: nat, l: nat)
    requires p < |qa| && f < l < |qb|
    requires Ring(ln1, qb[f..l] + (qa[p..] + qa[..p])) && Ring(ln1, qb[l..] + qb[..f])
    ensures Ring(ln1, qa[..p] + qb[f..l] + qa[p..]) && Ring(ln1, qb[..f] + qb[l..])
  {
    var m := qb[f..l];
    Regroup3(m, qa[p..], qa[..p]);
    RingRotate(ln1, m + qa[p..], qa[..p]);
    Regroup3(qa[..p], m, qa[p..]);
    RingRotate(ln1, qb[l..], qb[..f]);
  }

  /** The ring of a transfer within a list, read from q[f] and cut at the
      transfer's three nodes. */
  lemma WithinRotation(ln: Links, q: seq<nat>, p: nat, f: nat, l: nat)
    requires Ring(ln, q) && NoDup(q) && f < l < |q| && p < |q| && (p < f || l < p)
    ensures p < f ==> Ring(ln, q[f..l] + (q[l..] + q[..p]) + q[p..f]) && NoDup(q[f..l] + (q[l..] + q[..p]) + q[p..f])
    ensures l < p ==> Ring(ln, q[f..l] + q[l..p] + (q[p..] + q[..f])) && NoDup(q[f..l] + q[l..p] + (q[p..] + q[..f]))
  {
    RotateAt(ln, q, f);
    WithinCuts(q, p, f, l);
  }

  /** transfer(q[p], q[f], q[l]) within one ring, q[p] outside [q[f], q[l]]. */
  lemma TransferWithinAt(ln: Links, q: seq<nat>, p: nat, f: nat, l: nat)
    requires Ring(ln, q) && NoDup(q) && f < l < |q| && p < |q| && (p < f || l < p)
    ensures Ring(TransferLinks(ln, q[p], q[f], q[l]), MoveRange(q, p, f, l))
  {
    WithinRotation(ln, q, p, f, l);
    if p < f {
      TransferWithin(ln, q[f..l], q[l..] + q[..p], q[p..f]);
    } else {
      TransferWithin(ln, q[f..l], q[l..p], q[p..] + q[..f]);
    }
    WithinBack(TransferLinks(ln, q[p], q[f], q[l]), q, p, f, l);
  }

  /** The ring a transfer within a list leaves, read from its sentinel's
      successor again. */
  lemma WithinBack(ln1: Links, q: seq<nat>, p: nat, f: nat, l: nat)
    requires f < l < |q| && p < |q| && (p < f || l < p)
    requires p < f ==> Ring(ln1, q[f..l] + q[p..f] + (q[l..] + q[..p]))
    requires l < p ==> Ring(ln1, q[f..l] + (q[p..] + q[..f]) + q[l..p])
    ensures Ring(ln1, MoveRange(q, p, f, l))
  {
    WithinJoins(q, p, f, l);
    if p < f {
      RingRotate(ln1, q[f..l] + q[p..f] + q[l..], q[..p]);
    } else {
      RingRotate(ln1, q[f..l] + q[p..], q[..f] + q[l..p]);
    }
  }

  /** transfer rewrites only the words of pos, first, last and their
      predecessors. */
  lemma TransferFrame(ln: Links, pos: nat, first: nat, last: nat, s: seq<nat>)
    requires pos in ln.prev && first in ln.prev && last in ln.prev
    requires ln.prev[pos] in ln.next && ln.prev[first] in ln.next && ln.prev[last] in ln.next
    requires pos in s && first in s && last in s
    requires ln.prev[pos] in s && ln.prev[first] in s && ln.prev[last] in s
    ensures AgreeOff(ln, TransferLinks(ln, pos, first, last), s)
  {
  }

  /** Moving a range rearranges the sequence and keeps its length. */
  lemma MoveRangePerm<T>(s: seq<T>, p: nat, f: nat, l: nat)
    requires f <= l <= |s| && p <= |s|
    ensures multiset(MoveRange(s, p, f, l)) == multiset(s)
    ensures |MoveRange(s, p, f, l)| == |s|
  {
    if p < f {
      Quarters(s, p, f, l);
    } else if l < p {
      Quarters(s, f, l, p);
    }
  }

  /** s cut at i <= j <= k, and the multiset of its four pieces. */
  lemma Quarters<T>(s: seq<T>, i: nat, j: nat, k: nat)
    requires i <= j <= k <= |s|
    ensures s == s[..i] + s[i..j] + s[j..k] + s[k..]
    ensures multiset(s) == multiset(s[..i]) + multiset(s[i..j]) + multiset(s[j..k]) + multiset(s[k..])
  {
    assert s == s[..i] + s[i..j] + s[j..k] + s[k..];
  }

  /** a + (b + c) and (a + b) + c, written out. */
  lemma Regroup3(a: seq<nat>, b: seq<nat>, c: seq<nat>)
    ensures a + (b + c) == (a + b) + c && a + b + c == (a + b) + c
  {
  }

  /** q read from f on, cut at l. */
  lemma CutAt(q: seq<nat>, f: nat, l: nat)
    requires f <= l <= |q|
    ensures q[f..] + q[..f] == q[f..l] + (q[l..] + q[..f])
  {
    assert q[f..] == q[f..l] + q[l..];
  }

  /** q read from f on, cut at l and at p. */
  lemma WithinCuts(q: seq<nat>, p: nat, f: nat, l: nat)
    requires f < l < |q| && p < |q|
    ensures p < f ==> q[f..] + q[..f] == q[f..l] + (q[l..] + q[..p]) + q[p..f]
    ensures l < p ==> q[f..] + q[..f] == q[f..l] + q[l..p] + (q[p..] + q[..f])
  {
    assert q[f..] == q[f..l] + q[l..];
    if p < f {
      assert q[..f] == q[..p] + q[p..f];
    } else if l < p {
      assert q[l..] == q[l..p] + q[p..];
    }
  }

  /** The sequences of the ring a transfer within a list leaves, and their
      rotations that are MoveRange. */
  lemma WithinJoins(q: seq<nat>, p: nat, f: nat, l: nat)
    requires f < l < |q| && p < |q| && (p < f || l < p)
    ensures p < f ==> q[f..l] + q[p..f] + (q[l..] + q[..p]) == (q[f..l] + q[p..f] + q[l..]) + q[..p]
    ensures p < f ==> q[..p] + (q[f..l] + q[p..f] + q[l..]) == MoveRange(q, p, f, l)
    ensures l < p ==> q[f..l] + (q[p..] + q[..f]) + q[l..p] == (q[f..l] + q[p..]) + (q[..f] + q[l..p])
    ensures l < p ==> q[..f] + q[l..p] + (q[f..l] + q[p..]) == MoveRange(q, p, f, l)
  {
  }

  /** Slices of a sequence with one more element at its end. */
  lemma SnocSlices<T>(e: seq<T>, n: T, i: nat, j: nat)
    requires i <= j <= |e|
    ensures (e + [n])[..i] == e[..i] && (e + [n])[i..] == e[i..] + [n] && (e + [n])[i..j] == e[i..j]
  {
  }

  lemma MoveRangeSnoc<T>(e: seq<T>, n: T, p: nat, f: nat, l: nat)
    requires f <= l <= |e| && p <= |e|
    ensures MoveRange(e + [n], p, f, l) == MoveRange(e, p, f, l) + [n]
  {
    if p < f {
      SnocSlices(e, n, p, f);
      SnocSlices(e, n, f, l);
    } else if l < p {
      SnocSlices(e, n, f, l);
      SnocSlices(e, n, l, p);
    }
  }

  /** The node after a ring's k-th node, short of its last, is its
      (k + 1)-th. */
  lemma RingNext(ln: Links, q: seq<nat>, k: nat)
    requires Ring(ln, q) && k + 1 < |q|
    ensures q[k] in ln.next && ln.next[q[k]] == q[k + 1]
  {
  }

  /** The node before a ring's k-th node is on the ring. */
  lemma RingPrev(ln: Links, q: seq<nat>, k: nat)
    requires Ring(ln, q) && k < |q|
    ensures q[k] in ln.prev && ln.prev[q[k]] in q && ln.prev[q[k]] in ln.next
  {
    if k == 0 {
      assert ln.prev[q[k]] == q[|q| - 1];
    } else {
      assert ln.prev[q[k]] == q[k - 1];
    }
  }

  /** The pieces of two sequences after a range of one moves into the other. */
  lemma CrossPerm(qa: seq<nat>, qb: seq<nat>, p: nat, f: nat, l: nat)
    requires p <= |qa| && f <= l <= |qb|
    ensures multiset((qa[..p] + qb[f..l] + qa[p..]) + (qb[..f] + qb[l..])) == multiset(qa + qb)
  {
    assert qa == qa[..p] + qa[p..];
    assert qb == qb[..f] + qb[f..l] + qb[l..];
  }

  /** The element sequence of a list, the sentinel appended, with the
      elements' slices in place of the ring's. */
  lemma CrossSeqs(ea: seq<nat>, na: nat, eb: seq<nat>, nb: nat, p: nat, f: nat, l: nat)
    requires p <= |ea| && f <= l <= |eb|
    ensures (ea + [na])[..p] + (eb + [nb])[f..l] + (ea + [na])[p..] == ea[..p] + eb[f..l] + ea[p..] + [na]
    ensures (eb + [nb])[..f] + (eb + [nb])[l..] == eb[..f] + eb[l..] + [nb]
  {
    SnocSlices(ea, na, p, p);
    SnocSlices(eb, nb, f, l);
    SnocSlices(eb, nb, l, l);
  }

  /** transfer between two lists, on their element sequences ea and eb with
      sentinels na and nb: eb's range [f, l) moves in front of the p-th
      node of ea's ring; both rings stay rings, share no node, and no node
      off them changes its links. */
  lemma TransferCross(ln: Links, ea: seq<nat>, na: nat, eb: seq<nat>, nb: nat, p: nat, f: nat, l: nat)
    requires Ring(ln, ea + [na]) && Ring(ln, eb + [nb]) && NoDup((ea + [na]) + (eb + [nb]))
    requires p <= |ea| && f < l <= |eb|
    ensures (ea + [na])[p] in ln.prev && (eb + [nb])[f] in ln.prev && (eb + [nb])[l] in ln.prev
    ensures var ln1 := TransferLinks(ln, (ea + [na])[p], (eb + [nb])[f], (eb + [nb])[l]);
      Ring(ln1, ea[..p] + eb[f..l] + ea[p..] + [na]) && Ring(ln1, eb[..f] + eb[l..] + [nb]) &&
      NoDup((ea[..p] + eb[f..l] + ea[p..] + [na]) + (eb[..f] + eb[l..] + [nb])) &&
      AgreeOff(ln, ln1, (ea + [na]) + (eb + [nb]))
  {
    var qa, qb := ea + [na], eb + [nb];
    TransferApartAt(ln, qa, p, qb, f, l);
    CrossSeqs(ea, na, eb, nb, p, f, l);
    CrossPerm(qa, qb, p, f, l);
    NoDupPerm(qa + qb, (qa[..p] + qb[f..l] + qa[p..]) + (qb[..f] + qb[l..]));
    RingPrev(ln, qa, p);
    RingPrev(ln, qb, f);
    RingPrev(ln, qb, l);
    TransferFrame(ln, qa[p], qb[f], qb[l], qa + qb);
  }

  /** transfer within one list, on its element sequence e with sentinel n:
      the range [f, l) moves in front of the p-th node, which lies outside
      it; the ring stays a ring and no node off it changes its links. */
  lemma TransferInside(ln: Links, e: seq<nat>, n: nat, p: nat, f: nat, l: nat)
    requires Ring(ln, e + [n]) && NoDup(e + [n]) && p <= |e| && f < l <= |e| && (p < f || l < p)
    ensures (e + [n])[p] in ln.prev && (e + [n])[f] in ln.prev && (e + [n])[l] in ln.prev
    ensures var ln1 := TransferLinks(ln, (e + [n])[p], (e + [n])[f], (e + [n])[l]);
      Ring(ln1, MoveRange(e, p, f, l) + [n]) && NoDup(MoveRange(e, p, f, l) + [n]) &&
      AgreeOff(ln, ln1, e + [n])
  {
    var q := e + [n];
    TransferWithinAt(ln, q, p, f, l);
    MoveRangeSnoc(e, n, p, f, l);
    MoveRangePerm(q, p, f, l);
    NoDupPerm(q, MoveRange(q, p, f, l));
    RingPrev(ln, q, p);
    RingPrev(ln, q, f);
    RingPrev(ln, q, l);
    TransferFrame(ln, q[p], q[f], q[l], q);
  }

  /** Allocating a node off a ring leaves the ring intact. */
  lemma RingAlloc(ln: Links, q: seq<nat>, p: nat, a: nat, b: nat)
    requires Ring(ln, q) && p !in ln.next
    ensures p !in q && Ring(Links(ln.next[p := a], ln.prev[p := b]), q)
  {
    RingKept(ln, Links(ln.next[p := a], ln.prev[p := b]), q);
  }

  /** insert_at on a list's element sequence e with sentinel n: p joins
      before the k-th node of the ring, no node off the ring but p changes
      its links. */
  lemma InsertElems(ln: Links, e: seq<nat>, n: nat, k: nat, p: nat)
    requires Ring(ln, e + [n]) && NoDup(e + [n]) && k <= |e| && p !in e + [n] && p in ln.next && p in ln.prev
    ensures (e + [n])[k] in ln.prev
    ensures Ring(InsertLinks(ln, (e + [n])[k], p), e[..k] + [p] + e[k..] + [n])
    ensures NoDup(e[..k] + [p] + e[k..] + [n])
    ensures AgreeOff(ln, InsertLinks(ln, (e + [n])[k], p), e + [n] + [p])
  {
    var q := e + [n];
    InsertAtRing(ln, q, k, p);
    InsertAtFrame(ln, q, k, p);
    SnocSlices(e, n, k, k);
    assert q[..k] + [p] + q[k..] == e[..k] + [p] + e[k..] + [n];
  }

  /** erase_at on a list's element sequence e with sentinel n: the k-th
      element leaves the ring and its words are freed. */
  lemma EraseElems(ln: Links, e: seq<nat>, n: nat, k: nat)
    requires Ring(ln, e + [n]) && NoDup(e + [n]) && k < |e|
    ensures e[k] in ln.prev && e[k] in ln.next
    ensures ln.prev[e[k]] in ln.next && ln.next[e[k]] == (e + [n])[k + 1] && (e + [n])[k + 1] in ln.next
    ensures Ring(EraseLinks(ln, e[k]), e[..k] + e[k + 1..] + [n])
    ensures NoDup(e[..k] + e[k + 1..] + [n])
    ensures EraseLinks(ln, e[k]).next.Keys == ln.next.Keys - {e[k]}
    ensures EraseLinks(ln, e[k]).prev.Keys == ln.prev.Keys - {e[k]}
    ensures forall x :: x in ln.next && x !in e + [n] ==> EraseLinks(ln, e[k]).next[x] == ln.next[x]
    ensures forall x :: x in ln.prev && x !in e + [n] ==> EraseLinks(ln, e[k]).prev[x] == ln.prev[x]
  {
    var q := e + [n];
    assert q[k] == e[k];
    RingPrev(ln, q, k);
    EraseAtRing(ln, q, k);
    EraseAtFrame(ln, q, k);
    SnocSlices(e, n, k, k);
    SnocSlices(e, n, k + 1, k + 1);
    assert q[..k] + q[k + 1..] == e[..k] + e[k + 1..] + [n];
  }

  /** Every node of s has data in d. */
  ghost predicate AllIn(d: map<nat, int>, s: seq<nat>)
  {
    forall i :: 0 <= i < |s| ==> s[i] in d
  }

  /** The data of a slice is the slice of the data. */
  lemma ValuesSlice(d: map<nat, int>, s: seq<nat>, i: nat, j: nat)
    requires AllIn(d, s) && i <= j <= |s|
    ensures AllIn(d, s[i..j]) && Values(d, s[i..j]) == Values(d, s)[i..j]
  {
    assert forall k :: 0 <= k < j - i ==> s[i..j][k] == s[i + k];
  }

  /** Values only reads the data of the nodes it lists. */
  lemma ValuesFrame(d: map<nat, int>, d1: map<nat, int>, s: seq<nat>)
    requires AllIn(d, s) && forall x :: x in d && x in s ==> x in d1 && d1[x] == d[x]
    ensures AllIn(d1, s) && Values(d1, s) == Values(d, s)
  {
    assert forall i :: 0 <= i < |s| ==> s[i] in s;
  }

  /** The data of the three pieces a transfer between lists builds. */
  lemma ValuesCross(d: map<nat, int>, ea: seq<nat>, eb: seq<nat>, p: nat, f: nat, l: nat)
    requires AllIn(d, ea) && AllIn(d, eb) && p <= |ea| && f <= l <= |eb|
    ensures AllIn(d, ea[..p] + eb[f..l] + ea[p..]) && AllIn(d, eb[..f] + eb[l..])
    ensures Values(d, ea[..p] + eb[f..l] + ea[p..]) == Values(d, ea)[..p] + Values(d, eb)[f..l] + Values(d, ea)[p..]
    ensures Values(d, eb[..f] + eb[l..]) == Values(d, eb)[..f] + Values(d, eb)[l..]
  {
    ValuesJoin(d, ea, eb, p, f, l);
    ValuesCut(d, eb, f, l);
  }

  lemma ValuesJoin(d: map<nat, int>, ea: seq<nat>, eb: seq<nat>, p: nat, f: nat, l: nat)
    requires AllIn(d, ea) && AllIn(d, eb) && p <= |ea| && f <= l <= |eb|
    ensures AllIn(d, ea[..p] + eb[f..l] + ea[p..])
    ensures Values(d, ea[..p] + eb[f..l] + ea[p..]) == Values(d, ea)[..p] + Values(d, eb)[f..l] + Values(d, ea)[p..]
  {
    var va, vb := Values(d, ea), Values(d, eb);
    var s := ea[..p] + eb[f..l] + ea[p..];
    var w := va[..p] + vb[f..l] + va[p..];
    assert |s| == |w|;
    forall x | 0 <= x < |s| ensures s[x] in d && d[s[x]] == w[x] {
      if x < p {
        assert s[x] == ea[x] && w[x] == va[x];
      } else if x < p + (l - f) {
        assert s[x] == eb[x - p + f] && w[x] == vb[x - p + f];
      } else {
        assert s[x] == ea[x - (l - f)] && w[x] == va[x - (l - f)];
      }
    }
  }

  lemma ValuesCut(d: map<nat, int>, e: seq<nat>, f: nat, l: nat)
    requires AllIn(d, e) && f <= l <= |e|
    ensures AllIn(d, e[..f] + e[l..])
    ensures Values(d, e[..f] + e[l..]) == Values(d, e)[..f] + Values(d, e)[l..]
  {
    var v := Values(d, e);
    var s := e[..f] + e[l..];
    var w := v[..f] + v[l..];
    assert |s| == |w|;
    forall x | 0 <= x < |s| ensures s[x] in d && d[s[x]] == w[x] {
      if x < f {
        assert s[x] == e[x] && w[x] == v[x];
      } else {
        assert s[x] == e[x - f + l] && w[x] == v[x - f + l];
      }
    }
  }

  /** The data of a sequence with a range moved is the data with that range
      moved. */
  lemma ValuesMove(d: map<nat, int>, e: seq<nat>, p: nat, f: nat, l: nat)
    requires AllIn(d, e) && p <= |e| && f <= l <= |e|
    ensures AllIn(d, MoveRange(e, p, f, l)) && Values(d, MoveRange(e, p, f, l)) == MoveRange(Values(d, e), p, f, l)
  {
    if p < f {
      ValuesQuarters(d, e, p, f, l);
    } else if l < p {
      ValuesQuarters(d, e, f, l, p);
    }
  }

  /** The data of e's pieces cut at i <= j <= k. */
  lemma ValuesQuarters(d: map<nat, int>, e: seq<nat>, i: nat, j: nat, k: nat)
    requires AllIn(d, e) && i <= j <= k <= |e|
    ensures AllIn(d, e[..i] + e[j..k] + e[i..j] + e[k..])
    ensures Values(d, e[..i] + e[j..k] + e[i..j] + e[k..]) == Values(d, e)[..i] + Values(d, e)[j..k] + Values(d, e)[i..j] + Values(d, e)[k..]
  {
    var v := Values(d, e);
    var s := e[..i] + e[j..k] + e[i..j] + e[k..];
    var w := v[..i] + v[j..k] + v[i..j] + v[k..];
    assert |s| == |e| && |w| == |e|;
    forall x | 0 <= x < |e| ensures s[x] in d && d[s[x]] == w[x] {
      if x < i {
        assert s[x] == e[x] && w[x] == v[x];
      } else if x < i + (k - j) {
        assert s[x] == e[x - i + j] && w[x] == v[x - i + j];
      } else if x < k {
        assert s[x] == e[x - (k - j)] && w[x] == v[x - (k - j)];
      } else {
        assert s[x] == e[x] && w[x] == v[x];
      }
    }
  }

  /** The data after a node joins e before its k-th element. */
  lemma ValuesInsert(d: map<nat, int>, e: seq<nat>, k: nat, p: nat, v: int)
    requires AllIn(d, e) && k <= |e| && p !in e
    ensures AllIn(d[p := v], e[..k] + [p] + e[k..])
    ensures Values(d[p := v], e[..k] + [p] + e[k..]) == Values(d, e)[..k] + [v] + Values(d, e)[k..]
  {
    var s := e[..k] + [p] + e[k..];
    forall x | 0 <= x < |s| ensures s[x] in d[p := v] && d[p := v][s[x]] == (Values(d, e)[..k] + [v] + Values(d, e)[k..])[x] {
      if x < k {
        assert s[x] == e[x] && e[x] != p;
      } else if k < x {
        assert s[x] == e[x - 1] && e[x - 1] != p;
      }
    }
  }

  /** The data after e's k-th element is erased and its data freed. */
  lemma ValuesErase(d: map<nat, int>, e: seq<nat>, k: nat)
    requires AllIn(d, e) && NoDup(e) && k < |e|
    ensures AllIn(d - {e[k]}, e[..k] + e[k + 1..])
    ensures Values(d - {e[k]}, e[..k] + e[k + 1..]) == Values(d, e)[..k] + Values(d, e)[k + 1..]
  {
    var s := e[..k] + e[k + 1..];
    forall x | 0 <= x < |s| ensures s[x] in d - {e[k]} && d[s[x]] == (Values(d, e)[..k] + Values(d, e)[k + 1..])[x] {
      if x < k {
        assert s[x] == e[x];
      } else {
        assert s[x] == e[x + 1];
      }
    }
  }

  /** The two parts of a sequence without duplicates have none. */
  lemma NoDupSplit(a: seq<nat>, b: seq<nat>)
    requires NoDup(a + b)
    ensures NoDup(a) && NoDup(b)
  {
    forall i, j | 0 <= i < j < |a| ensures a[i] != a[j] {
      assert (a + b)[i] == a[i] && (a + b)[j] == a[j];
    }
    forall i, j | 0 <= i < j < |b| ensures b[i] != b[j] {
      assert (a + b)[|a| + i] == b[i] && (a + b)[|a| + j] == b[j];
    }
  }

  /** Nodes of the two parts of a sequence without duplicates differ. */
  lemma NoDupApart(a: seq<nat>, b: seq<nat>, i: nat, j: nat)
    requires NoDup(a + b) && i < |a| && j < |b|
    ensures a[i] != b[j]
  {
    assert (a + b)[i] == a[i] && (a + b)[|a| + j] == b[j];
  }

  /** In a sequence without duplicates a node has one position. */
  lemma NoDupIndex(s: seq<nat>, i: nat, j: nat)
    requires NoDup(s) && i < |s| && j < |s|
    ensures s[i] == s[j] ==> i == j
  {
  }

  /** Moving an empty range changes nothing. */
  lemma MoveEmpty<T>(s: seq<T>, p: nat, f: nat)
    requires f <= |s| && p <= |s|
    ensures MoveRange(s, p, f, f) == s
  {
    if p < f {
      assert s == s[..p] + s[p..f] + s[f..];
    } else if f < p {
      assert s == s[..f] + s[f..p] + s[p..];
    }
  }
}
