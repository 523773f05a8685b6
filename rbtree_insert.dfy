// The search and insertion of mini::util::rb_tree as functions on tree values: the descent
// insert_equal, insert_unique and find make from the root, where it stops in the in-order
// sequence, and the tree __insert followed by __rb_tree_rebalance produces. The class in
// rbtree.dfy is proved to compute exactly these trees.
module RbTreeInsert {
  import opened RbTreeValues
  import opened RbTreeLinks

  // ---------------------------------------------------------------- the descent

  /**
   * The turn the descent takes at a node with key nk when looking for k. insert_equal and
   * insert_unique go left when k < nk (strict); find goes left when !(nk < k).
   */
  predicate GoesLeft(k: int, nk: int, strict: bool)
  {
    if strict then k < nk else k <= nk
  }

  /** The frame left behind when the descent passes the root of s. */
  function StepFrame(s: Tree, k: int, strict: bool): (f: Frame)
    requires s.Node?
    ensures f.id == s.id && f.key == s.key && f.color == s.color && f.toLeft == GoesLeft(k, s.key, strict)
    ensures f.other == Child(s, !f.toLeft) && Wrap(f, Child(s, f.toLeft)) == s
  {
    if GoesLeft(k, s.key, strict) then Frame(true, s.color, s.id, s.key, s.right)
    else Frame(false, s.color, s.id, s.key, s.left)
  }

  /** The loop `while (x) x = comp ? left(x) : right(x)` from the subtree s, with path p so far. */
  function DescendFrom(p: seq<Frame>, s: Tree, k: int, strict: bool): seq<Frame>
    decreases s
  {
    if s.Nil? then p
    else
      var f := StepFrame(s, k, strict);
      DescendFrom(p + [f], Child(s, f.toLeft), k, strict)
  }

  /** The path from the root of t to the null child where the descent stops. */
  function Descend(t: Tree, k: int, strict: bool): seq<Frame>
  {
    DescendFrom([], t, k, strict)
  }

  /** Every key of w is one the descent for k passes on the right (it goes right at it). */
  ghost predicate RightGoers(w: seq<Entry>, k: int, strict: bool)
  {
    forall i :: 0 <= i < |w| ==> !GoesLeft(k, w[i].key, strict)
  }

  /** Every key of w is one the descent for k passes on the left. */
  ghost predicate LeftGoers(w: seq<Entry>, k: int, strict: bool)
  {
    forall i :: 0 <= i < |w| ==> GoesLeft(k, w[i].key, strict)
  }

  /** The node of a sorted sequence compares with everything on either side of it. */
  lemma {:induction false} SortedAround(pre: seq<Entry>, l: seq<Entry>, e: Entry, r: seq<Entry>, post: seq<Entry>)
    requires Sorted(pre + l + [e] + r + post)
    ensures forall i :: 0 <= i < |l| ==> l[i].key <= e.key
    ensures forall i :: 0 <= i < |r| ==> e.key <= r[i].key
  {
    var w := pre + l + [e] + r + post;
    assert w[|pre| + |l|] == e;
    assert forall i :: 0 <= i < |l| ==> w[|pre| + i] == l[i];
    assert forall i :: 0 <= i < |r| ==> w[|pre| + |l| + 1 + i] == r[i];
  }

  /**
   * One turn of the descent in a sorted tree: what it leaves behind on the right of the path
   * it passes on the right, and what it leaves on the left it passes on the left.
   */
  lemma {:induction false} DescendStep(p: seq<Frame>, s: Tree, k: int, strict: bool)
    requires s.Node? && Sorted(Walk(Plug(p, s)))
    requires RightGoers(Before(p), k, strict) && LeftGoers(After(p), k, strict)
    ensures var f := StepFrame(s, k, strict);
      && Plug(p + [f], Child(s, f.toLeft)) == Plug(p, s)
      && Sorted(Walk(Plug(p + [f], Child(s, f.toLeft))))
      && RightGoers(Before(p + [f]), k, strict) && LeftGoers(After(p + [f]), k, strict)
  {
    var f := StepFrame(s, k, strict);
    var q := p + [f];
    var e := Entry(s.id, s.key);
    assert q[..|q| - 1] == p && q[|q| - 1] == f;
    WalkPlug(p, s);
    assert Walk(Plug(p, s)) == Before(p) + Walk(s.left) + [e] + Walk(s.right) + After(p);
    SortedAround(Before(p), Walk(s.left), e, Walk(s.right), After(p));
    if f.toLeft {
      assert f.other == s.right && Entry(f.id, f.key) == e;
      var a := After(q);
      assert a == ([Entry(f.id, f.key)] + Walk(f.other)) + After(p);
      assert Before(q) == Before(p);
      forall i | 0 <= i < |a|
        ensures GoesLeft(k, a[i].key, strict)
      {
        if i == 0 {
          assert a[i] == e;
        } else if i <= |Walk(s.right)| {
          assert a[i] == Walk(s.right)[i - 1];
        } else {
          assert a[i] == After(p)[i - 1 - |Walk(s.right)|];
        }
      }
    } else {
      assert f.other == s.left && Entry(f.id, f.key) == e;
      var b := Before(q);
      assert b == Before(p) + (Walk(f.other) + [Entry(f.id, f.key)]);
      assert After(q) == After(p);
      forall i | 0 <= i < |b|
        ensures !GoesLeft(k, b[i].key, strict)
      {
        if i < |Before(p)| {
          assert b[i] == Before(p)[i];
        } else if i < |Before(p)| + |Walk(s.left)| {
          assert b[i] == Walk(s.left)[i - |Before(p)|];
        } else {
          assert b[i] == e;
        }
      }
    }
  }

  /** The descent in a sorted tree ends at a hole that separates the two kinds of keys. */
  lemma {:induction false} DescendFromSplits(p: seq<Frame>, s: Tree, k: int, strict: bool)
    requires Sorted(Walk(Plug(p, s)))
    requires RightGoers(Before(p), k, strict) && LeftGoers(After(p), k, strict)
    ensures var d := DescendFrom(p, s, k, strict);
      && Plug(d, Nil) == Plug(p, s) && |p| <= |d| && d[..|p|] == p
      && RightGoers(Before(d), k, strict) && LeftGoers(After(d), k, strict)
    decreases s
  {
    if s.Node? {
      var f := StepFrame(s, k, strict);
      DescendStep(p, s, k, strict);
      DescendFromSplits(p + [f], Child(s, f.toLeft), k, strict);
      var d := DescendFrom(p, s, k, strict);
      assert d[..|p|] == d[..|p| + 1][..|p|];
    }
  }

  /** Every turn the descent takes follows the comparison at the node it passes. */
  lemma {:induction false} DescendFromTurn(p: seq<Frame>, s: Tree, k: int, strict: bool)
    requires |p| > 0 ==> p[|p| - 1].toLeft == GoesLeft(k, p[|p| - 1].key, strict)
    ensures var d := DescendFrom(p, s, k, strict);
      |d| > 0 ==> d[|d| - 1].toLeft == GoesLeft(k, d[|d| - 1].key, strict)
    decreases s
  {
    if s.Node? {
      var f := StepFrame(s, k, strict);
      DescendFromTurn(p + [f], Child(s, f.toLeft), k, strict);
    }
  }

  /** The last turn of the descent, which __insert recomputes to tell left from right. */
  lemma {:induction false} DescendTurn(t: Tree, k: int, strict: bool)
    ensures var d := Descend(t, k, strict);
      |d| > 0 ==> d[|d| - 1].toLeft == GoesLeft(k, d[|d| - 1].key, strict)
  {
    DescendFromTurn([], t, k, strict);
  }

  /** The number of leading entries the descent for k passes on the right. */
  function Rank(w: seq<Entry>, k: int, strict: bool): (i: nat)
    ensures i <= |w|
  {
    if |w| == 0 || GoesLeft(k, w[0].key, strict) then 0 else 1 + Rank(w[1..], k, strict)
  }

  /** Where the two kinds of keys meet is the rank. */
  lemma {:induction false} RankSplit(b: seq<Entry>, a: seq<Entry>, k: int, strict: bool)
    requires RightGoers(b, k, strict) && LeftGoers(a, k, strict)
    ensures Rank(b + a, k, strict) == |b|
    decreases |b|
  {
    if |b| > 0 {
      assert (b + a)[1..] == b[1..] + a;
      RankSplit(b[1..], a, k, strict);
    } else {
      assert b + a == a;
    }
  }

  /** The descent's hole in a sorted tree sits at the rank of k in its in-order sequence. */
  lemma {:induction false} DescendRank(t: Tree, k: int, strict: bool)
    requires Sorted(Walk(t))
    ensures var d, w := Descend(t, k, strict), Walk(t);
      && Plug(d, Nil) == t && Before(d) == w[..Rank(w, k, strict)] && After(d) == w[Rank(w, k, strict)..]
  {
    var d, w := Descend(t, k, strict), Walk(t);
    DescendFromSplits([], t, k, strict);
    WalkPlug(d, Nil);
    RankSplit(Before(d), After(d), k, strict);
    assert w == Before(d) + After(d);
  }

  // ---------------------------------------------------------------- keys

  /** Some entry of w has key k (a recursive test, so concrete sequences can be evaluated). */
  predicate HasKey(w: seq<Entry>, k: int)
  {
    |w| > 0 && (w[0].key == k || HasKey(w[1..], k))
  }

  lemma {:induction false} HasKeyIndex(w: seq<Entry>, k: int)
    ensures HasKey(w, k) <==> exists i :: 0 <= i < |w| && w[i].key == k
  {
    if |w| > 0 {
      HasKeyIndex(w[1..], k);
      if HasKey(w[1..], k) {
        var i :| 0 <= i < |w| - 1 && w[1..][i].key == k;
        assert w[i + 1].key == k;
      }
      if exists i :: 0 <= i < |w| && w[i].key == k {
        var i :| 0 <= i < |w| && w[i].key == k;
        if i > 0 {
          assert w[1..][i - 1].key == k;
        }
      }
    }
  }

  /**
   * insert_unique's test: in a sorted sequence, k is present exactly when the entry just before
   * the strict rank (the last key not greater than k) has key k.
   */
  lemma {:induction false} UniqueTest(w: seq<Entry>, k: int)
    requires Sorted(w)
    ensures var i := Rank(w, k, true); HasKey(w, k) <==> i > 0 && w[i - 1].key == k
  {
    var i := Rank(w, k, true);
    HasKeyIndex(w, k);
    RankFacts(w, k, true);
    if HasKey(w, k) {
      var j :| 0 <= j < |w| && w[j].key == k;
      assert j < i;
    }
  }

  /**
   * find's test: in a sorted sequence, k is present exactly when the entry at the non-strict rank
   * (the first key not less than k) has key k.
   */
  lemma {:induction false} FindTest(w: seq<Entry>, k: int)
    requires Sorted(w)
    ensures var i := Rank(w, k, false); HasKey(w, k) <==> i < |w| && w[i].key == k
  {
    var i := Rank(w, k, false);
    HasKeyIndex(w, k);
    RankFacts(w, k, false);
    if HasKey(w, k) {
      var j :| 0 <= j < |w| && w[j].key == k;
      assert i <= j;
    }
  }

  /** The rank of a sorted sequence splits it into the two kinds of keys. */
  lemma {:induction false} RankFacts(w: seq<Entry>, k: int, strict: bool)
    requires Sorted(w)
    ensures RightGoers(w[..Rank(w, k, strict)], k, strict) && LeftGoers(w[Rank(w, k, strict)..], k, strict)
    decreases |w|
  {
    if |w| > 0 && !GoesLeft(k, w[0].key, strict) {
      assert Sorted(w[1..]) by {
        assert forall i :: 0 <= i < |w| - 1 ==> w[1..][i] == w[i + 1];
      }
      RankFacts(w[1..], k, strict);
      var i := Rank(w, k, strict);
      assert w[..i] == [w[0]] + w[1..][..i - 1];
      assert w[i..] == w[1..][i - 1..];
    } else if |w| > 0 {
      assert w[..0] == [];
      forall j | 0 <= j < |w|
        ensures GoesLeft(k, w[j].key, strict)
      {
        assert w[0].key <= w[j].key || j == 0;
      }
    }
  }

  /**
   * Where insert_unique's descent stops: a left turn last means the hole sits just before that
   * node in order, a right turn just after it, and no turn at all means the tree is empty. The
   * entry before the hole is the only one that can hold k.
   */
  lemma {:induction false} UniqueStop(t: Tree, k: int)
    requires Sorted(Walk(t)) && Unique(t)
    ensures var d, w := Descend(t, k, true), Walk(t); var i := Rank(w, k, true);
      && Plug(d, Nil) == t
      && (|d| == 0 ==> w == [] && i == 0)
      && (|d| > 0 && d[|d| - 1].toLeft ==> i < |w| && w[i].id == d[|d| - 1].id && (w[0].id == w[i].id ==> i == 0))
      && (|d| > 0 && !d[|d| - 1].toLeft ==> 0 < i && w[i - 1].id == d[|d| - 1].id)
      && (HasKey(w, k) <==> 0 < i && w[i - 1].key == k)
      && (0 < i ==> w[i - 1].key <= k)
  {
    var d, w := Descend(t, k, true), Walk(t);
    var i := Rank(w, k, true);
    DescendRank(t, k, true);
    UniqueTest(w, k);
    RankFacts(w, k, true);
    if 0 < i {
      assert w[..i][i - 1] == w[i - 1];
    }
    if |d| > 0 {
      HoleNeighbours(d);
      WalkDistinct(t);
      if d[|d| - 1].toLeft {
        assert w[i..][0] == w[i];
      } else {
        assert w[..i][i - 1] == w[i - 1];
      }
    }
  }

  /**
   * Where find's descent stops: the first entry after the hole is the first key not less than k,
   * and it is the only one that can hold k.
   */
  lemma {:induction false} FindStop(t: Tree, k: int)
    requires Sorted(Walk(t))
    ensures var d, w := Descend(t, k, false), Walk(t); var i := Rank(w, k, false);
      && Plug(d, Nil) == t && |After(d)| == |w| - i && (i < |w| ==> After(d)[0] == w[i])
      && (HasKey(w, k) <==> i < |w| && w[i].key == k)
      && (i < |w| ==> k <= w[i].key)
  {
    var d, w := Descend(t, k, false), Walk(t);
    var i := Rank(w, k, false);
    DescendRank(t, k, false);
    FindTest(w, k);
    RankFacts(w, k, false);
    if i < |w| {
      assert w[i..][0] == w[i];
    }
  }

  // ---------------------------------------------------------------- insertion

  /**
   * The loop of __rb_tree_rebalance from `node` (the root of s, at the end of path p), before
   * the final root->color = black. It stops at the root or below a black parent; otherwise the
   * uncle decides: red, recolour and go on from the grandparent; not red, rotate (twice when
   * node is an inner grandchild) and stop. A red root never has a red child here (see
   * Fixing), so the |p| < 2 case with a red parent does not arise.
   */
  function Rebalanced(p: seq<Frame>, s: Tree): Tree
    decreases |p|
  {
    if |p| < 2 || p[|p| - 1].color == Black then Plug(p, s)
    else
      var g, f := p[|p| - 2], p[|p| - 1];
      if IsRed(g.other) then Rebalanced(p[..|p| - 2], Recoloured(g, f, s))
      else if f.toLeft == g.toLeft then Plug(p[..|p| - 2] + [OuterFrame(g, f)], s)
      else if s.Node? then Plug(p[..|p| - 2] + [OuterFrame(g, InnerFrame(g, s))], Wrap(f, Child(s, g.toLeft)))
      else Plug(p, s)
  }

  /** The loop restores the red-black properties and keeps the in-order sequence. */
  lemma {:induction false} RebalancedFixes(p: seq<Frame>, s: Tree)
    requires Fixing(p, s)
    ensures RedBlack(Blacken(Rebalanced(p, s))) && Walk(Blacken(Rebalanced(p, s))) == Walk(Plug(p, s))
    decreases |p|
  {
    var n := |p|;
    if n == 0 || p[n - 1].color == Black {
      FinishFixing(p, s);
    } else {
      ParentRed(p, s);
      var g, f := p[n - 2], p[n - 1];
      if IsRed(g.other) {
        UncleRedStep(p, s);
        RebalancedFixes(p[..n - 2], Recoloured(g, f, s));
      } else if f.toLeft == g.toLeft {
        OuterStep(p, s);
        FinishFixing(p[..n - 2] + [OuterFrame(g, f)], s);
      } else {
        InnerStep(p, s);
        var p1 := p[..n - 1] + [InnerFrame(g, s)];
        var s1 := Wrap(f, Child(s, g.toLeft));
        OuterStep(p1, s1);
        assert p1[..n - 2] == p[..n - 2];
        FinishFixing(p1[..n - 2] + [OuterFrame(g, InnerFrame(g, s))], s1);
      }
    }
  }

  /** The inner rotation leaves the loop with the same outcome, now from an outer grandchild. */
  lemma {:induction false} InnerRebalanced(p: seq<Frame>, s: Tree)
    requires |p| >= 2 && p[|p| - 1].color == Red && !IsRed(p[|p| - 2].other) && s.Node? && s.color == Red
    requires p[|p| - 1].toLeft != p[|p| - 2].toLeft
    ensures var g, f := p[|p| - 2], p[|p| - 1];
      Rebalanced(p[..|p| - 1] + [InnerFrame(g, s)], Wrap(f, Child(s, g.toLeft))) == Rebalanced(p, s)
  {
    var n := |p|;
    var p' := p[..n - 1] + [InnerFrame(p[n - 2], s)];
    assert p'[n - 2] == p[n - 2] && p'[..n - 2] == p[..n - 2];
  }

  /** The outer rotation leaves node below a black parent, where the loop stops. */
  lemma {:induction false} OuterRebalanced(p: seq<Frame>, s: Tree)
    requires |p| >= 2 && p[|p| - 1].color == Red && !IsRed(p[|p| - 2].other)
    requires p[|p| - 1].toLeft == p[|p| - 2].toLeft
    ensures Rebalanced(p[..|p| - 2] + [OuterFrame(p[|p| - 2], p[|p| - 1])], s) == Rebalanced(p, s)
  {
  }

  /**
   * insert_equal as a function: descend to a null child (equal keys go right), hang a red node
   * with address z and key k there, rebalance and blacken the root.
   */
  function InsertTree(t: Tree, z: nat, k: int): Tree
  {
    Blacken(Rebalanced(Descend(t, k, true), Node(Red, Nil, z, k, Nil)))
  }

  /** An entry fits between the two halves of a sorted sequence it separates. */
  lemma {:induction false} SortedInsert(w: seq<Entry>, i: nat, e: Entry)
    requires Sorted(w) && i <= |w|
    requires forall j :: 0 <= j < i ==> w[j].key <= e.key
    requires forall j :: i <= j < |w| ==> e.key <= w[j].key
    ensures Sorted(w[..i] + [e] + w[i..])
  {
    var v := w[..i] + [e] + w[i..];
    assert forall j :: 0 <= j < |v| ==> v[j] == if j < i then w[j] else if j == i then e else w[j - 1];
  }

  /** Hanging the new node at the descent's hole puts it at the strict rank of its key. */
  lemma {:induction false} HangWalk(t: Tree, z: nat, k: int)
    requires Sorted(Walk(t))
    ensures var w, n := Walk(t), Node(Red, Nil, z, k, Nil);
      var i := Rank(w, k, true);
      && Plug(Descend(t, k, true), Nil) == t
      && Walk(Plug(Descend(t, k, true), n)) == w[..i] + [Entry(z, k)] + w[i..]
      && Sorted(w[..i] + [Entry(z, k)] + w[i..])
  {
    var w, d, n := Walk(t), Descend(t, k, true), Node(Red, Nil, z, k, Nil);
    var i := Rank(w, k, true);
    DescendRank(t, k, true);
    WalkPlug(d, n);
    RankFacts(w, k, true);
    assert forall j :: 0 <= j < i ==> w[..i][j] == w[j];
    assert forall j :: i <= j < |w| ==> w[i..][j - i] == w[j];
    SortedInsert(w, i, Entry(z, k));
  }

  /** ... and gives it an address of its own. */
  lemma {:induction false} HangIds(p: seq<Frame>, z: nat, k: int)
    requires Unique(Plug(p, Nil)) && 0 < z && z !in Ids(Plug(p, Nil))
    ensures var n := Node(Red, Nil, z, k, Nil);
      Unique(Plug(p, n)) && Ids(Plug(p, n)) == Ids(Plug(p, Nil)) + {z}
  {
    var n := Node(Red, Nil, z, k, Nil);
    IdsPlug(p, Nil);
    IdsPlug(p, n);
    UniquePlug(p, Nil);
    UniquePlug(p, n);
  }

  /** Trees with the same traversal have the same addresses, distinct in both or neither. */
  lemma {:induction false} SameWalkIds(a: Tree, b: Tree)
    requires Walk(a) == Walk(b)
    ensures Ids(a) == Ids(b) && (Unique(a) <==> Unique(b))
  {
    UniqueWalk(a);
    UniqueWalk(b);
    IdsWalk(a);
    IdsWalk(b);
  }

  /**
   * insert_equal keeps a red-black search tree: the new entry goes after every key not greater
   * than k and before the rest, and the addresses stay distinct.
   */
  lemma {:induction false} InsertTreeSpec(t: Tree, z: nat, k: int)
    requires RedBlack(t) && Unique(t) && Sorted(Walk(t)) && 0 < z && z !in Ids(t)
    ensures var t', w := InsertTree(t, z, k), Walk(t);
      var i := Rank(w, k, true);
      && RedBlack(t') && Walk(t') == w[..i] + [Entry(z, k)] + w[i..] && Sorted(Walk(t'))
      && Unique(t') && Ids(t') == Ids(t) + {z}
  {
    var d, n := Descend(t, k, true), Node(Red, Nil, z, k, Nil);
    HangWalk(t, z, k);
    StartFixing(d, z, k);
    RebalancedFixes(d, n);
    HangIds(d, z, k);
    SameWalkIds(Plug(d, n), InsertTree(t, z, k));
  }

  /** insert_unique as a function: nothing changes when k is already present. */
  function InsertUniqueTree(t: Tree, z: nat, k: int): Tree
  {
    if HasKey(Walk(t), k) then t else InsertTree(t, z, k)
  }

  /** No two entries share a key: what insert_unique keeps. */
  ghost predicate StrictlySorted(w: seq<Entry>)
  {
    forall i, j :: 0 <= i < j < |w| ==> w[i].key < w[j].key
  }

  /** An entry strictly between the two halves of a strictly sorted sequence keeps it so. */
  lemma {:induction false} StrictInsert(w: seq<Entry>, i: nat, e: Entry)
    requires StrictlySorted(w) && i <= |w|
    requires forall j :: 0 <= j < i ==> w[j].key < e.key
    requires forall j :: i <= j < |w| ==> e.key < w[j].key
    ensures StrictlySorted(w[..i] + [e] + w[i..]) && HasKey(w[..i] + [e] + w[i..], e.key)
  {
    var v := w[..i] + [e] + w[i..];
    assert forall j :: 0 <= j < |v| ==> v[j] == if j < i then w[j] else if j == i then e else w[j - 1];
    HasKeyIndex(v, e.key);
    assert v[i] == e;
  }

  /**
   * insert_unique keeps the keys distinct and increasing, and afterwards k is present: the
   * entries are the old ones, plus one with key k exactly when k was missing.
   */
  lemma {:induction false} InsertUniqueStrict(t: Tree, z: nat, k: int)
    requires RedBlack(t) && Unique(t) && StrictlySorted(Walk(t)) && 0 < z && z !in Ids(t)
    ensures var t' := InsertUniqueTree(t, z, k);
      && RedBlack(t') && Unique(t') && StrictlySorted(Walk(t')) && HasKey(Walk(t'), k)
      && |Walk(t')| == |Walk(t)| + (if HasKey(Walk(t), k) then 0 else 1)
  {
    var w := Walk(t);
    if !HasKey(w, k) {
      var i := Rank(w, k, true);
      InsertTreeSpec(t, z, k);
      RankFacts(w, k, true);
      HasKeyIndex(w, k);
      forall j | 0 <= j < i
        ensures w[j].key < k
      {
        assert w[..i][j] == w[j];
      }
      forall j | i <= j < |w|
        ensures k < w[j].key
      {
        assert w[i..][j - i] == w[j];
      }
      StrictInsert(w, i, Entry(z, k));
    }
  }

  // ---------------------------------------------------------------- a scenario

  /** insert_unique of each key in turn, the next fresh address z used only when one is inserted. */
  function InsertAllUnique(t: Tree, z: nat, ks: seq<int>): Tree
    decreases |ks|
  {
    if |ks| == 0 then t
    else if HasKey(Walk(t), ks[0]) then InsertAllUnique(t, z, ks[1..])
    else InsertAllUnique(InsertTree(t, z, ks[0]), z + 1, ks[1..])
  }

  /** The keys of an in-order sequence. */
  function KeysOf(w: seq<Entry>): (ks: seq<int>)
    ensures |ks| == |w| && forall i :: 0 <= i < |w| ==> ks[i] == w[i].key
  {
    if |w| == 0 then [] else [w[0].key] + KeysOf(w[1..])
  }

  /** The keys root first, left subtree before right: they fix the shape of a search tree. */
  function PreKeys(t: Tree): seq<int>
  {
    match t
    case Nil => []
    case Node(_, l, _, k, r) => [k] + PreKeys(l) + PreKeys(r)
  }

  // The trees after each insertion that adds a node, the addresses handed out from 2 on.
  const Grown1: Tree := Node(Black, Nil, 2, 10, Nil)
  const Grown2: Tree := Node(Black, Node(Red, Nil, 3, 7, Nil), 2, 10, Nil)
  const Grown3: Tree := Node(Black, Node(Red, Nil, 3, 7, Nil), 4, 8, Node(Red, Nil, 2, 10, Nil))
  const Grown4: Tree := Node(Black, Node(Black, Nil, 3, 7, Nil), 4, 8, Node(Black, Nil, 2, 10, Node(Red, Nil, 5, 15, Nil)))
  const Grown5: Tree := Node(Black, Node(Black, Node(Red, Nil, 6, 5, Nil), 3, 7, Nil), 4, 8, Node(Black, Nil, 2, 10, Node(Red, Nil, 5, 15, Nil)))
  const Grown6: Tree := Node(Black, Node(Black, Node(Red, Nil, 6, 5, Nil), 7, 6, Node(Red, Nil, 3, 7, Nil)), 4, 8, Node(Black, Nil, 2, 10, Node(Red, Nil, 5, 15, Nil)))
  const Grown7: Tree := Node(Black, Node(Black, Node(Red, Nil, 6, 5, Nil), 7, 6, Node(Red, Nil, 3, 7, Nil)), 4, 8, Node(Black, Node(Red, Nil, 2, 10, Nil), 8, 11, Node(Red, Nil, 5, 15, Nil)))
  const Grown8: Tree := Node(Black, Node(Black, Node(Red, Nil, 6, 5, Nil), 7, 6, Node(Red, Nil, 3, 7, Nil)), 4, 8, Node(Red, Node(Black, Nil, 2, 10, Nil), 8, 11, Node(Black, Node(Red, Nil, 9, 13, Nil), 5, 15, Nil)))
  const Grown9: Tree := Node(Black, Node(Black, Node(Red, Nil, 6, 5, Nil), 7, 6, Node(Red, Nil, 3, 7, Nil)), 4, 8, Node(Red, Node(Black, Nil, 2, 10, Nil), 8, 11, Node(Black, Node(Red, Nil, 10, 12, Nil), 9, 13, Node(Red, Nil, 5, 15, Nil))))

  /** Step 1: 10 is new and goes in at address 2. */
  lemma Grow1()
    ensures !HasKey(Walk(Nil), 10) && InsertTree(Nil, 2, 10) == Grown1
  {
    assert Descend(Nil, 10, true) == [];
    assert Rebalanced([], Node(Red, Nil, 2, 10, Nil)) == Node(Red, Nil, 2, 10, Nil);
    assert Walk(Nil) == [];
    HasKeyIndex(Walk(Nil), 10);
  }

  /** The second 10 is already present. */
  lemma Duplicate10()
    ensures HasKey(Walk(Grown1), 10)
  {
    assert Walk(Grown1)[0].key == 10;
    HasKeyIndex(Walk(Grown1), 10);
  }

  /** Step 2: 7 is new and goes in at address 3. */
  lemma Grow2()
    ensures !HasKey(Walk(Grown1), 7) && InsertTree(Grown1, 3, 7) == Grown2
  {
    assert DescendFrom([], Node(Black, Nil, 2, 10, Nil), 7, true) == DescendFrom([Frame(true, Black, 2, 10, Nil)], Nil, 7, true);
    assert Descend(Grown1, 7, true) == [Frame(true, Black, 2, 10, Nil)];
    assert Rebalanced([Frame(true, Black, 2, 10, Nil)], Node(Red, Nil, 3, 7, Nil)) == Node(Black, Node(Red, Nil, 3, 7, Nil), 2, 10, Nil);
    assert Walk(Grown1) == [Entry(2, 10)];
    HasKeyIndex(Walk(Grown1), 7);
  }

  /** Step 3: 8 is new and goes in at address 4. */
  lemma Grow3()
    ensures !HasKey(Walk(Grown2), 8) && InsertTree(Grown2, 4, 8) == Grown3
  {
    assert DescendFrom([], Node(Black, Node(Red, Nil, 3, 7, Nil), 2, 10, Nil), 8, true) == DescendFrom([Frame(true, Black, 2, 10, Nil)], Node(Red, Nil, 3, 7, Nil), 8, true);
    assert DescendFrom([Frame(true, Black, 2, 10, Nil)], Node(Red, Nil, 3, 7, Nil), 8, true) == DescendFrom([Frame(true, Black, 2, 10, Nil), Frame(false, Red, 3, 7, Nil)], Nil, 8, true);
    assert Descend(Grown2, 8, true) == [Frame(true, Black, 2, 10, Nil), Frame(false, Red, 3, 7, Nil)];
    assert InnerFrame(Frame(true, Black, 2, 10, Nil), Node(Red, Nil, 4, 8, Nil)) == Frame(true, Red, 4, 8, Nil);
    assert OuterFrame(Frame(true, Black, 2, 10, Nil), Frame(true, Red, 4, 8, Nil)) == Frame(true, Black, 4, 8, Node(Red, Nil, 2, 10, Nil));
    assert Rebalanced([Frame(true, Black, 2, 10, Nil), Frame(false, Red, 3, 7, Nil)], Node(Red, Nil, 4, 8, Nil)) == Plug([] + [Frame(true, Black, 4, 8, Node(Red, Nil, 2, 10, Nil))], Node(Red, Nil, 3, 7, Nil));
    assert [] + [Frame(true, Black, 4, 8, Node(Red, Nil, 2, 10, Nil))] == [Frame(true, Black, 4, 8, Node(Red, Nil, 2, 10, Nil))];
    assert Plug([Frame(true, Black, 4, 8, Node(Red, Nil, 2, 10, Nil))], Node(Red, Nil, 3, 7, Nil)) == Node(Black, Node(Red, Nil, 3, 7, Nil), 4, 8, Node(Red, Nil, 2, 10, Nil));
    assert Walk(Grown2) == [Entry(3, 7), Entry(2, 10)];
    HasKeyIndex(Walk(Grown2), 8);
  }

  /** Step 4: 15 is new and goes in at address 5. */
  lemma Grow4()
    ensures !HasKey(Walk(Grown3), 15) && InsertTree(Grown3, 5, 15) == Grown4
  {
    assert DescendFrom([], Node(Black, Node(Red, Nil, 3, 7, Nil), 4, 8, Node(Red, Nil, 2, 10, Nil)), 15, true) == DescendFrom([Frame(false, Black, 4, 8, Node(Red, Nil, 3, 7, Nil))], Node(Red, Nil, 2, 10, Nil), 15, true);
    assert DescendFrom([Frame(false, Black, 4, 8, Node(Red, Nil, 3, 7, Nil))], Node(Red, Nil, 2, 10, Nil), 15, true) == DescendFrom([Frame(false, Black, 4, 8, Node(Red, Nil, 3, 7, Nil)), Frame(false, Red, 2, 10, Nil)], Nil, 15, true);
    assert Descend(Grown3, 15, true) == [Frame(false, Black, 4, 8, Node(Red, Nil, 3, 7, Nil)), Frame(false, Red, 2, 10, Nil)];
    assert Rebalanced([Frame(false, Black, 4, 8, Node(Red, Nil, 3, 7, Nil)), Frame(false, Red, 2, 10, Nil)], Node(Red, Nil, 5, 15, Nil)) == Rebalanced([], Node(Red, Node(Black, Nil, 3, 7, Nil), 4, 8, Node(Black, Nil, 2, 10, Node(Red, Nil, 5, 15, Nil))));
    assert Rebalanced([], Node(Red, Node(Black, Nil, 3, 7, Nil), 4, 8, Node(Black, Nil, 2, 10, Node(Red, Nil, 5, 15, Nil)))) == Node(Red, Node(Black, Nil, 3, 7, Nil), 4, 8, Node(Black, Nil, 2, 10, Node(Red, Nil, 5, 15, Nil)));
    assert Walk(Grown3) == [Entry(3, 7), Entry(4, 8), Entry(2, 10)];
    HasKeyIndex(Walk(Grown3), 15);
  }

  /** Step 5: 5 is new and goes in at address 6. */
  lemma Grow5()
    ensures !HasKey(Walk(Grown4), 5) && InsertTree(Grown4, 6, 5) == Grown5
  {
    assert DescendFrom([], Node(Black, Node(Black, Nil, 3, 7, Nil), 4, 8, Node(Black, Nil, 2, 10, Node(Red, Nil, 5, 15, Nil))), 5, true) == DescendFrom([Frame(true, Black, 4, 8, Node(Black, Nil, 2, 10, Node(Red, Nil, 5, 15, Nil)))], Node(Black, Nil, 3, 7, Nil), 5, true);
    assert DescendFrom([Frame(true, Black, 4, 8, Node(Black, Nil, 2, 10, Node(Red, Nil, 5, 15, Nil)))], Node(Black, Nil, 3, 7, Nil), 5, true) == DescendFrom([Frame(true, Black, 4, 8, Node(Black, Nil, 2, 10, Node(Red, Nil, 5, 15, Nil))), Frame(true, Black, 3, 7, Nil)], Nil, 5, true);
    assert Descend(Grown4, 5, true) == [Frame(true, Black, 4, 8, Node(Black, Nil, 2, 10, Node(Red, Nil, 5, 15, Nil))), Frame(true, Black, 3, 7, Nil)];
    assert Rebalanced([Frame(true, Black, 4, 8, Node(Black, Nil, 2, 10, Node(Red, Nil, 5, 15, Nil))), Frame(true, Black, 3, 7, Nil)], Node(Red, Nil, 6, 5, Nil)) == Node(Black, Node(Black, Node(Red, Nil, 6, 5, Nil), 3, 7, Nil), 4, 8, Node(Black, Nil, 2, 10, Node(Red, Nil, 5, 15, Nil)));
    assert Walk(Grown4) == [Entry(3, 7), Entry(4, 8), Entry(2, 10), Entry(5, 15)];
    HasKeyIndex(Walk(Grown4), 5);
  }

  /** Step 6: 6 is new and goes in at address 7. */
  lemma Grow6()
    ensures !HasKey(Walk(Grown5), 6) && InsertTree(Grown5, 7, 6) == Grown6
  {
    assert DescendFrom([], Node(Black, Node(Black, Node(Red, Nil, 6, 5, Nil), 3, 7, Nil), 4, 8, Node(Black, Nil, 2, 10, Node(Red, Nil, 5, 15, Nil))), 6, true) == DescendFrom([Frame(true, Black, 4, 8, Node(Black, Nil, 2, 10, Node(Red, Nil, 5, 15, Nil)))], Node(Black, Node(Red, Nil, 6, 5, Nil), 3, 7, Nil), 6, true);
    assert DescendFrom([Frame(true, Black, 4, 8, Node(Black, Nil, 2, 10, Node(Red, Nil, 5, 15, Nil)))], Node(Black, Node(Red, Nil, 6, 5, Nil), 3, 7, Nil), 6, true) == DescendFrom([Frame(true, Black, 4, 8, Node(Black, Nil, 2, 10, Node(Red, Nil, 5, 15, Nil))), Frame(true, Black, 3, 7, Nil)], Node(Red, Nil, 6, 5, Nil), 6, true);
    assert DescendFrom([Frame(true, Black, 4, 8, Node(Black, Nil, 2, 10, Node(Red, Nil, 5, 15, Nil))), Frame(true, Black, 3, 7, Nil)], Node(Red, Nil, 6, 5, Nil), 6, true) == DescendFrom([Frame(true, Black, 4, 8, Node(Black, Nil, 2, 10, Node(Red, Nil, 5, 15, Nil))), Frame(true, Black, 3, 7, Nil), Frame(false, Red, 6, 5, Nil)], Nil, 6, true);
    assert Descend(Grown5, 6, true) == [Frame(true, Black, 4, 8, Node(Black, Nil, 2, 10, Node(Red, Nil, 5, 15, Nil))), Frame(true, Black, 3, 7, Nil), Frame(false, Red, 6, 5, Nil)];
    assert [Frame(true, Black, 4, 8, Node(Black, Nil, 2, 10, Node(Red, Nil, 5, 15, Nil))), Frame(true, Black, 3, 7, Nil), Frame(false, Red, 6, 5, Nil)][..1] == [Frame(true, Black, 4, 8, Node(Black, Nil, 2, 10, Node(Red, Nil, 5, 15, Nil)))];
    assert InnerFrame(Frame(true, Black, 3, 7, Nil), Node(Red, Nil, 7, 6, Nil)) == Frame(true, Red, 7, 6, Nil);
    assert OuterFrame(Frame(true, Black, 3, 7, Nil), Frame(true, Red, 7, 6, Nil)) == Frame(true, Black, 7, 6, Node(Red, Nil, 3, 7, Nil));
    assert Rebalanced([Frame(true, Black, 4, 8, Node(Black, Nil, 2, 10, Node(Red, Nil, 5, 15, Nil))), Frame(true, Black, 3, 7, Nil), Frame(false, Red, 6, 5, Nil)], Node(Red, Nil, 7, 6, Nil)) == Plug([Frame(true, Black, 4, 8, Node(Black, Nil, 2, 10, Node(Red, Nil, 5, 15, Nil)))] + [Frame(true, Black, 7, 6, Node(Red, Nil, 3, 7, Nil))], Node(Red, Nil, 6, 5, Nil));
    assert [Frame(true, Black, 4, 8, Node(Black, Nil, 2, 10, Node(Red, Nil, 5, 15, Nil)))] + [Frame(true, Black, 7, 6, Node(Red, Nil, 3, 7, Nil))] == [Frame(true, Black, 4, 8, Node(Black, Nil, 2, 10, Node(Red, Nil, 5, 15, Nil))), Frame(true, Black, 7, 6, Node(Red, Nil, 3, 7, Nil))];
    assert Plug([Frame(true, Black, 4, 8, Node(Black, Nil, 2, 10, Node(Red, Nil, 5, 15, Nil))), Frame(true, Black, 7, 6, Node(Red, Nil, 3, 7, Nil))], Node(Red, Nil, 6, 5, Nil)) == Node(Black, Node(Black, Node(Red, Nil, 6, 5, Nil), 7, 6, Node(Red, Nil, 3, 7, Nil)), 4, 8, Node(Black, Nil, 2, 10, Node(Red, Nil, 5, 15, Nil)));
    assert Walk(Grown5) == [Entry(6, 5), Entry(3, 7), Entry(4, 8), Entry(2, 10), Entry(5, 15)];
    HasKeyIndex(Walk(Grown5), 6);
  }

  /** Step 7: 11 is new and goes in at address 8. */
  lemma Grow7()
    ensures !HasKey(Walk(Grown6), 11) && InsertTree(Grown6, 8, 11) == Grown7
  {
    assert DescendFrom([], Node(Black, Node(Black, Node(Red, Nil, 6, 5, Nil), 7, 6, Node(Red, Nil, 3, 7, Nil)), 4, 8, Node(Black, Nil, 2, 10, Node(Red, Nil, 5, 15, Nil))), 11, true) == DescendFrom([Frame(false, Black, 4, 8, Node(Black, Node(Red, Nil, 6, 5, Nil), 7, 6, Node(Red, Nil, 3, 7, Nil)))], Node(Black, Nil, 2, 10, Node(Red, Nil, 5, 15, Nil)), 11, true);
    assert DescendFrom([Frame(false, Black, 4, 8, Node(Black, Node(Red, Nil, 6, 5, Nil), 7, 6, Node(Red, Nil, 3, 7, Nil)))], Node(Black, Nil, 2, 10, Node(Red, Nil, 5, 15, Nil)), 11, true) == DescendFrom([Frame(false, Black, 4, 8, Node(Black, Node(Red, Nil, 6, 5, Nil), 7, 6, Node(Red, Nil, 3, 7, Nil))), Frame(false, Black, 2, 10, Nil)], Node(Red, Nil, 5, 15, Nil), 11, true);
    assert DescendFrom([Frame(false, Black, 4, 8, Node(Black, Node(Red, Nil, 6, 5, Nil), 7, 6, Node(Red, Nil, 3, 7, Nil))), Frame(false, Black, 2, 10, Nil)], Node(Red, Nil, 5, 15, Nil), 11, true) == DescendFrom([Frame(false, Black, 4, 8, Node(Black, Node(Red, Nil, 6, 5, Nil), 7, 6, Node(Red, Nil, 3, 7, Nil))), Frame(false, Black, 2, 10, Nil), Frame(true, Red, 5, 15, Nil)], Nil, 11, true);
    assert Descend(Grown6, 11, true) == [Frame(false, Black, 4, 8, Node(Black, Node(Red, Nil, 6, 5, Nil), 7, 6, Node(Red, Nil, 3, 7, Nil))), Frame(false, Black, 2, 10, Nil), Frame(true, Red, 5, 15, Nil)];
    assert [Frame(false, Black, 4, 8, Node(Black, Node(Red, Nil, 6, 5, Nil), 7, 6, Node(Red, Nil, 3, 7, Nil))), Frame(false, Black, 2, 10, Nil), Frame(true, Red, 5, 15, Nil)][..1] == [Frame(false, Black, 4, 8, Node(Black, Node(Red, Nil, 6, 5, Nil), 7, 6, Node(Red, Nil, 3, 7, Nil)))];
    assert InnerFrame(Frame(false, Black, 2, 10, Nil), Node(Red, Nil, 8, 11, Nil)) == Frame(false, Red, 8, 11, Nil);
    assert OuterFrame(Frame(false, Black, 2, 10, Nil), Frame(false, Red, 8, 11, Nil)) == Frame(false, Black, 8, 11, Node(Red, Nil, 2, 10, Nil));
    assert Rebalanced([Frame(false, Black, 4, 8, Node(Black, Node(Red, Nil, 6, 5, Nil), 7, 6, Node(Red, Nil, 3, 7, Nil))), Frame(false, Black, 2, 10, Nil), Frame(true, Red, 5, 15, Nil)], Node(Red, Nil, 8, 11, Nil)) == Plug([Frame(false, Black, 4, 8, Node(Black, Node(Red, Nil, 6, 5, Nil), 7, 6, Node(Red, Nil, 3, 7, Nil)))] + [Frame(false, Black, 8, 11, Node(Red, Nil, 2, 10, Nil))], Node(Red, Nil, 5, 15, Nil));
    assert [Frame(false, Black, 4, 8, Node(Black, Node(Red, Nil, 6, 5, Nil), 7, 6, Node(Red, Nil, 3, 7, Nil)))] + [Frame(false, Black, 8, 11, Node(Red, Nil, 2, 10, Nil))] == [Frame(false, Black, 4, 8, Node(Black, Node(Red, Nil, 6, 5, Nil), 7, 6, Node(Red, Nil, 3, 7, Nil))), Frame(false, Black, 8, 11, Node(Red, Nil, 2, 10, Nil))];
    assert Plug([Frame(false, Black, 4, 8, Node(Black, Node(Red, Nil, 6, 5, Nil), 7, 6, Node(Red, Nil, 3, 7, Nil))), Frame(false, Black, 8, 11, Node(Red, Nil, 2, 10, Nil))], Node(Red, Nil, 5, 15, Nil)) == Node(Black, Node(Black, Node(Red, Nil, 6, 5, Nil), 7, 6, Node(Red, Nil, 3, 7, Nil)), 4, 8, Node(Black, Node(Red, Nil, 2, 10, Nil), 8, 11, Node(Red, Nil, 5, 15, Nil)));
    assert Walk(Grown6) == [Entry(6, 5), Entry(7, 6), Entry(3, 7), Entry(4, 8), Entry(2, 10), Entry(5, 15)];
    HasKeyIndex(Walk(Grown6), 11);
  }

  /** Step 8: 13 is new and goes in at address 9. */
  lemma Grow8()
    ensures !HasKey(Walk(Grown7), 13) && InsertTree(Grown7, 9, 13) == Grown8
  {
    assert DescendFrom([], Node(Black, Node(Black, Node(Red, Nil, 6, 5, Nil), 7, 6, Node(Red, Nil, 3, 7, Nil)), 4, 8, Node(Black, Node(Red, Nil, 2, 10, Nil), 8, 11, Node(Red, Nil, 5, 15, Nil))), 13, true) == DescendFrom([Frame(false, Black, 4, 8, Node(Black, Node(Red, Nil, 6, 5, Nil), 7, 6, Node(Red, Nil, 3, 7, Nil)))], Node(Black, Node(Red, Nil, 2, 10, Nil), 8, 11, Node(Red, Nil, 5, 15, Nil)), 13, true);
    assert DescendFrom([Frame(false, Black, 4, 8, Node(Black, Node(Red, Nil, 6, 5, Nil), 7, 6, Node(Red, Nil, 3, 7, Nil)))], Node(Black, Node(Red, Nil, 2, 10, Nil), 8, 11, Node(Red, Nil, 5, 15, Nil)), 13, true) == DescendFrom([Frame(false, Black, 4, 8, Node(Black, Node(Red, Nil, 6, 5, Nil), 7, 6, Node(Red, Nil, 3, 7, Nil))), Frame(false, Black, 8, 11, Node(Red, Nil, 2, 10, Nil))], Node(Red, Nil, 5, 15, Nil), 13, true);
    assert DescendFrom([Frame(false, Black, 4, 8, Node(Black, Node(Red, Nil, 6, 5, Nil), 7, 6, Node(Red, Nil, 3, 7, Nil))), Frame(false, Black, 8, 11, Node(Red, Nil, 2, 10, Nil))], Node(Red, Nil, 5, 15, Nil), 13, true) == DescendFrom([Frame(false, Black, 4, 8, Node(Black, Node(Red, Nil, 6, 5, Nil), 7, 6, Node(Red, Nil, 3, 7, Nil))), Frame(false, Black, 8, 11, Node(Red, Nil, 2, 10, Nil)), Frame(true, Red, 5, 15, Nil)], Nil, 13, true);
    assert Descend(Grown7, 13, true) == [Frame(false, Black, 4, 8, Node(Black, Node(Red, Nil, 6, 5, Nil), 7, 6, Node(Red, Nil, 3, 7, Nil))), Frame(false, Black, 8, 11, Node(Red, Nil, 2, 10, Nil)), Frame(true, Red, 5, 15, Nil)];
    assert [Frame(false, Black, 4, 8, Node(Black, Node(Red, Nil, 6, 5, Nil), 7, 6, Node(Red, Nil, 3, 7, Nil))), Frame(false, Black, 8, 11, Node(Red, Nil, 2, 10, Nil)), Frame(true, Red, 5, 15, Nil)][..1] == [Frame(false, Black, 4, 8, Node(Black, Node(Red, Nil, 6, 5, Nil), 7, 6, Node(Red, Nil, 3, 7, Nil)))];
    assert Rebalanced([Frame(false, Black, 4, 8, Node(Black, Node(Red, Nil, 6, 5, Nil), 7, 6, Node(Red, Nil, 3, 7, Nil))), Frame(false, Black, 8, 11, Node(Red, Nil, 2, 10, Nil)), Frame(true, Red, 5, 15, Nil)], Node(Red, Nil, 9, 13, Nil)) == Rebalanced([Frame(false, Black, 4, 8, Node(Black, Node(Red, Nil, 6, 5, Nil), 7, 6, Node(Red, Nil, 3, 7, Nil)))], Node(Red, Node(Black, Nil, 2, 10, Nil), 8, 11, Node(Black, Node(Red, Nil, 9, 13, Nil), 5, 15, Nil)));
    assert Rebalanced([Frame(false, Black, 4, 8, Node(Black, Node(Red, Nil, 6, 5, Nil), 7, 6, Node(Red, Nil, 3, 7, Nil)))], Node(Red, Node(Black, Nil, 2, 10, Nil), 8, 11, Node(Black, Node(Red, Nil, 9, 13, Nil), 5, 15, Nil))) == Node(Black, Node(Black, Node(Red, Nil, 6, 5, Nil), 7, 6, Node(Red, Nil, 3, 7, Nil)), 4, 8, Node(Red, Node(Black, Nil, 2, 10, Nil), 8, 11, Node(Black, Node(Red, Nil, 9, 13, Nil), 5, 15, Nil)));
    assert Walk(Grown7) == [Entry(6, 5), Entry(7, 6), Entry(3, 7), Entry(4, 8), Entry(2, 10), Entry(8, 11), Entry(5, 15)];
    HasKeyIndex(Walk(Grown7), 13);
  }

  /** Step 9: 12 is new and goes in at address 10. */
  lemma Grow9()
    ensures !HasKey(Walk(Grown8), 12) && InsertTree(Grown8, 10, 12) == Grown9
  {
    assert DescendFrom([], Node(Black, Node(Black, Node(Red, Nil, 6, 5, Nil), 7, 6, Node(Red, Nil, 3, 7, Nil)), 4, 8, Node(Red, Node(Black, Nil, 2, 10, Nil), 8, 11, Node(Black, Node(Red, Nil, 9, 13, Nil), 5, 15, Nil))), 12, true) == DescendFrom([Frame(false, Black, 4, 8, Node(Black, Node(Red, Nil, 6, 5, Nil), 7, 6, Node(Red, Nil, 3, 7, Nil)))], Node(Red, Node(Black, Nil, 2, 10, Nil), 8, 11, Node(Black, Node(Red, Nil, 9, 13, Nil), 5, 15, Nil)), 12, true);
    assert DescendFrom([Frame(false, Black, 4, 8, Node(Black, Node(Red, Nil, 6, 5, Nil), 7, 6, Node(Red, Nil, 3, 7, Nil)))], Node(Red, Node(Black, Nil, 2, 10, Nil), 8, 11, Node(Black, Node(Red, Nil, 9, 13, Nil), 5, 15, Nil)), 12, true) == DescendFrom([Frame(false, Black, 4, 8, Node(Black, Node(Red, Nil, 6, 5, Nil), 7, 6, Node(Red, Nil, 3, 7, Nil))), Frame(false, Red, 8, 11, Node(Black, Nil, 2, 10, Nil))], Node(Black, Node(Red, Nil, 9, 13, Nil), 5, 15, Nil), 12, true);
    assert DescendFrom([Frame(false, Black, 4, 8, Node(Black, Node(Red, Nil, 6, 5, Nil), 7, 6, Node(Red, Nil, 3, 7, Nil))), Frame(false, Red, 8, 11, Node(Black, Nil, 2, 10, Nil))], Node(Black, Node(Red, Nil, 9, 13, Nil), 5, 15, Nil), 12, true) == DescendFrom([Frame(false, Black, 4, 8, Node(Black, Node(Red, Nil, 6, 5, Nil), 7, 6, Node(Red, Nil, 3, 7, Nil))), Frame(false, Red, 8, 11, Node(Black, Nil, 2, 10, Nil)), Frame(true, Black, 5, 15, Nil)], Node(Red, Nil, 9, 13, Nil), 12, true);
    assert DescendFrom([Frame(false, Black, 4, 8, Node(Black, Node(Red, Nil, 6, 5, Nil), 7, 6, Node(Red, Nil, 3, 7, Nil))), Frame(false, Red, 8, 11, Node(Black, Nil, 2, 10, Nil)), Frame(true, Black, 5, 15, Nil)], Node(Red, Nil, 9, 13, Nil), 12, true) == DescendFrom([Frame(false, Black, 4, 8, Node(Black, Node(Red, Nil, 6, 5, Nil), 7, 6, Node(Red, Nil, 3, 7, Nil))), Frame(false, Red, 8, 11, Node(Black, Nil, 2, 10, Nil)), Frame(true, Black, 5, 15, Nil), Frame(true, Red, 9, 13, Nil)], Nil, 12, true);
    assert Descend(Grown8, 12, true) == [Frame(false, Black, 4, 8, Node(Black, Node(Red, Nil, 6, 5, Nil), 7, 6, Node(Red, Nil, 3, 7, Nil))), Frame(false, Red, 8, 11, Node(Black, Nil, 2, 10, Nil)), Frame(true, Black, 5, 15, Nil), Frame(true, Red, 9, 13, Nil)];
    assert [Frame(false, Black, 4, 8, Node(Black, Node(Red, Nil, 6, 5, Nil), 7, 6, Node(Red, Nil, 3, 7, Nil))), Frame(false, Red, 8, 11, Node(Black, Nil, 2, 10, Nil)), Frame(true, Black, 5, 15, Nil), Frame(true, Red, 9, 13, Nil)][..2] == [Frame(false, Black, 4, 8, Node(Black, Node(Red, Nil, 6, 5, Nil), 7, 6, Node(Red, Nil, 3, 7, Nil))), Frame(false, Red, 8, 11, Node(Black, Nil, 2, 10, Nil))];
    assert OuterFrame(Frame(true, Black, 5, 15, Nil), Frame(true, Red, 9, 13, Nil)) == Frame(true, Black, 9, 13, Node(Red, Nil, 5, 15, Nil));
    assert Rebalanced([Frame(false, Black, 4, 8, Node(Black, Node(Red, Nil, 6, 5, Nil), 7, 6, Node(Red, Nil, 3, 7, Nil))), Frame(false, Red, 8, 11, Node(Black, Nil, 2, 10, Nil)), Frame(true, Black, 5, 15, Nil), Frame(true, Red, 9, 13, Nil)], Node(Red, Nil, 10, 12, Nil)) == Plug([Frame(false, Black, 4, 8, Node(Black, Node(Red, Nil, 6, 5, Nil), 7, 6, Node(Red, Nil, 3, 7, Nil))), Frame(false, Red, 8, 11, Node(Black, Nil, 2, 10, Nil))] + [Frame(true, Black, 9, 13, Node(Red, Nil, 5, 15, Nil))], Node(Red, Nil, 10, 12, Nil));
    assert [Frame(false, Black, 4, 8, Node(Black, Node(Red, Nil, 6, 5, Nil), 7, 6, Node(Red, Nil, 3, 7, Nil))), Frame(false, Red, 8, 11, Node(Black, Nil, 2, 10, Nil))] + [Frame(true, Black, 9, 13, Node(Red, Nil, 5, 15, Nil))] == [Frame(false, Black, 4, 8, Node(Black, Node(Red, Nil, 6, 5, Nil), 7, 6, Node(Red, Nil, 3, 7, Nil))), Frame(false, Red, 8, 11, Node(Black, Nil, 2, 10, Nil)), Frame(true, Black, 9, 13, Node(Red, Nil, 5, 15, Nil))];
    assert Plug([Frame(false, Black, 4, 8, Node(Black, Node(Red, Nil, 6, 5, Nil), 7, 6, Node(Red, Nil, 3, 7, Nil))), Frame(false, Red, 8, 11, Node(Black, Nil, 2, 10, Nil)), Frame(true, Black, 9, 13, Node(Red, Nil, 5, 15, Nil))], Node(Red, Nil, 10, 12, Nil)) == Node(Black, Node(Black, Node(Red, Nil, 6, 5, Nil), 7, 6, Node(Red, Nil, 3, 7, Nil)), 4, 8, Node(Red, Node(Black, Nil, 2, 10, Nil), 8, 11, Node(Black, Node(Red, Nil, 10, 12, Nil), 9, 13, Node(Red, Nil, 5, 15, Nil))));
    assert Walk(Grown8) == [Entry(6, 5), Entry(7, 6), Entry(3, 7), Entry(4, 8), Entry(2, 10), Entry(8, 11), Entry(9, 13), Entry(5, 15)];
    HasKeyIndex(Walk(Grown8), 12);
  }

  /** Insertions 1 to 4 of the scenario. */
  lemma Chain1()
    ensures InsertAllUnique(Nil, 2, [10, 10, 7, 8, 15, 5, 6, 11, 13, 12]) == InsertAllUnique(Grown3, 5, [15, 5, 6, 11, 13, 12])
  {
    Grow1();
    assert [10, 10, 7, 8, 15, 5, 6, 11, 13, 12][1..] == [10, 7, 8, 15, 5, 6, 11, 13, 12];
    assert InsertAllUnique(Nil, 2, [10, 10, 7, 8, 15, 5, 6, 11, 13, 12]) == InsertAllUnique(Grown1, 3, [10, 7, 8, 15, 5, 6, 11, 13, 12]);
    Duplicate10();
    assert [10, 7, 8, 15, 5, 6, 11, 13, 12][1..] == [7, 8, 15, 5, 6, 11, 13, 12];
    assert InsertAllUnique(Grown1, 3, [10, 7, 8, 15, 5, 6, 11, 13, 12]) == InsertAllUnique(Grown1, 3, [7, 8, 15, 5, 6, 11, 13, 12]);
    Grow2();
    assert [7, 8, 15, 5, 6, 11, 13, 12][1..] == [8, 15, 5, 6, 11, 13, 12];
    assert InsertAllUnique(Grown1, 3, [7, 8, 15, 5, 6, 11, 13, 12]) == InsertAllUnique(Grown2, 4, [8, 15, 5, 6, 11, 13, 12]);
    Grow3();
    assert [8, 15, 5, 6, 11, 13, 12][1..] == [15, 5, 6, 11, 13, 12];
    assert InsertAllUnique(Grown2, 4, [8, 15, 5, 6, 11, 13, 12]) == InsertAllUnique(Grown3, 5, [15, 5, 6, 11, 13, 12]);
  }

  /** Insertions 5 to 7 of the scenario. */
  lemma Chain2()
    ensures InsertAllUnique(Grown3, 5, [15, 5, 6, 11, 13, 12]) == InsertAllUnique(Grown6, 8, [11, 13, 12])
  {
    Grow4();
    assert [15, 5, 6, 11, 13, 12][1..] == [5, 6, 11, 13, 12];
    assert InsertAllUnique(Grown3, 5, [15, 5, 6, 11, 13, 12]) == InsertAllUnique(Grown4, 6, [5, 6, 11, 13, 12]);
    Grow5();
    assert [5, 6, 11, 13, 12][1..] == [6, 11, 13, 12];
    assert InsertAllUnique(Grown4, 6, [5, 6, 11, 13, 12]) == InsertAllUnique(Grown5, 7, [6, 11, 13, 12]);
    Grow6();
    assert [6, 11, 13, 12][1..] == [11, 13, 12];
    assert InsertAllUnique(Grown5, 7, [6, 11, 13, 12]) == InsertAllUnique(Grown6, 8, [11, 13, 12]);
  }

  /** Insertions 8 to 10 of the scenario. */
  lemma Chain3()
    ensures InsertAllUnique(Grown6, 8, [11, 13, 12]) == InsertAllUnique(Grown9, 11, [])
  {
    Grow7();
    assert [11, 13, 12][1..] == [13, 12];
    assert InsertAllUnique(Grown6, 8, [11, 13, 12]) == InsertAllUnique(Grown7, 9, [13, 12]);
    Grow8();
    assert [13, 12][1..] == [12];
    assert InsertAllUnique(Grown7, 9, [13, 12]) == InsertAllUnique(Grown8, 10, [12]);
    Grow9();
    assert [12][1..] == [];
    assert InsertAllUnique(Grown8, 10, [12]) == InsertAllUnique(Grown9, 11, []);
  }

  /** The final tree: its keys in order and root first. */
  lemma Grown9Order()
    ensures KeysOf(Walk(Grown9)) == [5, 6, 7, 8, 10, 11, 12, 13, 15]
    ensures PreKeys(Grown9) == [8, 6, 5, 7, 11, 10, 13, 12, 15]
  {
    assert Walk(Grown9) == [Entry(6, 5), Entry(7, 6), Entry(3, 7), Entry(4, 8), Entry(2, 10), Entry(8, 11), Entry(10, 12), Entry(9, 13), Entry(5, 15)];
  }

  /** The final tree holds 8 and not 9. */
  lemma Grown9Find()
    ensures HasKey(Walk(Grown9), 8) && !HasKey(Walk(Grown9), 9)
  {
    assert Walk(Grown9) == [Entry(6, 5), Entry(7, 6), Entry(3, 7), Entry(4, 8), Entry(2, 10), Entry(8, 11), Entry(10, 12), Entry(9, 13), Entry(5, 15)];
    HasKeyIndex(Walk(Grown9), 9);
    assert Walk(Grown9)[3].key == 8;
    HasKeyIndex(Walk(Grown9), 8);
  }

  /**
   * Ten insert_unique calls, the second a duplicate, on an empty tree: nine entries in order,
   * the root 8 over 6 (5, 7) and 11 (10, 13 (12, 15)), and find sees 8 but not 9.
   */
  lemma Scenario()
    ensures var t := InsertAllUnique(Nil, 2, [10, 10, 7, 8, 15, 5, 6, 11, 13, 12]);
      && KeysOf(Walk(t)) == [5, 6, 7, 8, 10, 11, 12, 13, 15]
      && PreKeys(t) == [8, 6, 5, 7, 11, 10, 13, 12, 15]
      && HasKey(Walk(t), 8) && !HasKey(Walk(t), 9)
  {
    Chain1();
    Chain2();
    Chain3();
    Grown9Order();
    Grown9Find();
  }
}
