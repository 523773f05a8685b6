// Red-black trees as values, for mini::util::rb_tree<int, int, identity, less<int>>.
//
// A Tree names every node by its address, so the same value describes the node records the
// class in rbtree.dfy keeps. A path (a sequence of Frames, root first) locates a node: it is
// how the rebalancing and iterator loops, which walk parent pointers, are described here.
module RbTreeValues {

  /** __rb_tree_color_type: the source's bool, with red == false and black == true. */
  datatype Color = Red | Black

  /** A subtree; every node carries its colour, its address and its key. */
  datatype Tree = Nil | Node(color: Color, left: Tree, id: nat, key: int, right: Tree)

  /** One element of the in-order sequence: node address and key. */
  datatype Entry = Entry(id: nat, key: int)

  /** One step of a path from the root: the node passed, the side taken, and its other child. */
  datatype Frame = Frame(toLeft: bool, color: Color, id: nat, key: int, other: Tree)

  // ---------------------------------------------------------------- paths

  /** The subtree of the frame's node once s is put on the side the path took. */
  function Wrap(f: Frame, s: Tree): (t: Tree)
    ensures t.Node? && t.id == f.id && t.color == f.color && t.key == f.key
  {
    if f.toLeft then Node(f.color, s, f.id, f.key, f.other) else Node(f.color, f.other, f.id, f.key, s)
  }

  /** The whole tree, given the path p from its root down to the subtree s. */
  function Plug(p: seq<Frame>, s: Tree): Tree
    decreases |p|
  {
    if |p| == 0 then s else Plug(p[..|p| - 1], Wrap(p[|p| - 1], s))
  }

  /** The null pointer is 0; a subtree is reached through the address of its root. */
  function Ptr(t: Tree): nat
  {
    if t.Nil? then 0 else t.id
  }

  /** The child of t on one side. */
  function Child(t: Tree, left: bool): Tree
    requires t.Node?
  {
    if left then t.left else t.right
  }

  /** The address of the node whose child the path's subtree is: the last frame, or par at the root. */
  function Hole(p: seq<Frame>, par: nat): nat
  {
    if |p| == 0 then par else p[|p| - 1].id
  }

  // ---------------------------------------------------------------- in-order sequence

  /** In-order traversal: the sequence the iterators visit. */
  function Walk(t: Tree): seq<Entry>
  {
    match t
    case Nil => []
    case Node(_, l, x, k, r) => Walk(l) + [Entry(x, k)] + Walk(r)
  }

  /** What the traversal visits before the path's subtree. */
  function Before(p: seq<Frame>): seq<Entry>
    decreases |p|
  {
    if |p| == 0 then []
    else
      var f := p[|p| - 1];
      Before(p[..|p| - 1]) + (if f.toLeft then [] else Walk(f.other) + [Entry(f.id, f.key)])
  }

  /** What the traversal visits after the path's subtree. */
  function After(p: seq<Frame>): seq<Entry>
    decreases |p|
  {
    if |p| == 0 then []
    else
      var f := p[|p| - 1];
      (if f.toLeft then [Entry(f.id, f.key)] + Walk(f.other) else []) + After(p[..|p| - 1])
  }

  lemma {:induction false} WalkPlug(p: seq<Frame>, s: Tree)
    ensures Walk(Plug(p, s)) == Before(p) + Walk(s) + After(p)
    decreases |p|
  {
    if |p| > 0 {
      var f := p[|p| - 1];
      WalkPlug(p[..|p| - 1], Wrap(f, s));
    }
  }

  /** Keys in the traversal never decrease: the ordering a search tree keeps. */
  ghost predicate Sorted(w: seq<Entry>)
  {
    forall i, j :: 0 <= i < j < |w| ==> w[i].key <= w[j].key
  }

  /** The first node of the traversal, or h (the header) for an empty tree: leftmost(). */
  function First(t: Tree, h: nat): nat
  {
    if |Walk(t)| == 0 then h else Walk(t)[0].id
  }

  /** The last node of the traversal, or h for an empty tree: rightmost(). */
  function Last(t: Tree, h: nat): nat
  {
    if |Walk(t)| == 0 then h else Walk(t)[|Walk(t)| - 1].id
  }

  // ---------------------------------------------------------------- addresses

  function Ids(t: Tree): set<nat>
  {
    match t
    case Nil => {}
    case Node(_, l, x, _, r) => Ids(l) + {x} + Ids(r)
  }

  /** Every node has its own non-null address. */
  ghost predicate Unique(t: Tree)
  {
    match t
    case Nil => true
    case Node(_, l, x, _, r) =>
      0 < x && x !in Ids(l) && x !in Ids(r) && Ids(l) !! Ids(r) && Unique(l) && Unique(r)
  }

  /** Addresses of the path's nodes and of the subtrees it leaves aside. */
  function IdsCtx(p: seq<Frame>): set<nat>
    decreases |p|
  {
    if |p| == 0 then {} else IdsCtx(p[..|p| - 1]) + {p[|p| - 1].id} + Ids(p[|p| - 1].other)
  }

  ghost predicate UniqueCtx(p: seq<Frame>)
    decreases |p|
  {
    |p| == 0 ||
    var f := p[|p| - 1];
    && UniqueCtx(p[..|p| - 1]) && 0 < f.id && Unique(f.other) && f.id !in Ids(f.other)
    && IdsCtx(p[..|p| - 1]) !! ({f.id} + Ids(f.other))
  }

  lemma {:induction false} IdsPlug(p: seq<Frame>, s: Tree)
    ensures Ids(Plug(p, s)) == IdsCtx(p) + Ids(s)
    decreases |p|
  {
    if |p| > 0 {
      IdsPlug(p[..|p| - 1], Wrap(p[|p| - 1], s));
    }
  }

  lemma {:induction false} UniquePlug(p: seq<Frame>, s: Tree)
    ensures Unique(Plug(p, s)) <==> UniqueCtx(p) && Unique(s) && IdsCtx(p) !! Ids(s)
    decreases |p|
  {
    if |p| > 0 {
      var f := p[|p| - 1];
      UniquePlug(p[..|p| - 1], Wrap(f, s));
    }
  }

  /** Element i of l + [e] + r, by where i falls. */
  lemma {:induction false} Pick(l: seq<Entry>, e: Entry, r: seq<Entry>, i: int)
    requires 0 <= i < |l| + 1 + |r|
    ensures (l + [e] + r)[i] == if i < |l| then l[i] else if i == |l| then e else r[i - |l| - 1]
  {
  }

  /** The traversal lists addresses of the tree. */
  lemma {:induction false} WalkInIds(t: Tree)
    ensures forall i :: 0 <= i < |Walk(t)| ==> Walk(t)[i].id in Ids(t)
  {
    match t
    case Nil =>
    case Node(_, l, x, k, r) =>
      WalkInIds(l);
      WalkInIds(r);
      forall i | 0 <= i < |Walk(t)|
        ensures Walk(t)[i].id in Ids(t)
      {
        Pick(Walk(l), Entry(x, k), Walk(r), i);
      }
  }

  /** Each address is listed once. */
  lemma {:induction false} WalkDistinct(t: Tree)
    requires Unique(t)
    ensures forall i, j :: 0 <= i < j < |Walk(t)| ==> Walk(t)[i].id != Walk(t)[j].id
  {
    match t
    case Nil =>
    case Node(_, l, x, k, r) =>
      WalkDistinct(l);
      WalkDistinct(r);
      WalkInIds(l);
      WalkInIds(r);
      forall i, j | 0 <= i < j < |Walk(t)|
        ensures Walk(t)[i].id != Walk(t)[j].id
      {
        Pick(Walk(l), Entry(x, k), Walk(r), i);
        Pick(Walk(l), Entry(x, k), Walk(r), j);
      }
  }

  /** Every address of the tree is listed. */
  lemma {:induction false} IdsInWalk(t: Tree, y: nat)
    requires y in Ids(t)
    ensures exists i :: 0 <= i < |Walk(t)| && Walk(t)[i].id == y
  {
    match t
    case Nil =>
    case Node(_, l, x, k, r) =>
      if y in Ids(l) {
        IdsInWalk(l, y);
        var i :| 0 <= i < |Walk(l)| && Walk(l)[i].id == y;
        Pick(Walk(l), Entry(x, k), Walk(r), i);
        assert Walk(t)[i].id == y;
      } else if y in Ids(r) {
        IdsInWalk(r, y);
        var i :| 0 <= i < |Walk(r)| && Walk(r)[i].id == y;
        Pick(Walk(l), Entry(x, k), Walk(r), i + |Walk(l)| + 1);
        assert Walk(t)[i + |Walk(l)| + 1].id == y;
      } else {
        Pick(Walk(l), Entry(x, k), Walk(r), |Walk(l)|);
        assert Walk(t)[|Walk(l)|].id == y;
      }
  }

  /** The addresses a traversal lists. */
  ghost function WalkIds(w: seq<Entry>): set<nat>
  {
    set i | 0 <= i < |w| :: w[i].id
  }

  /** A tree's addresses are those its traversal lists. */
  lemma {:induction false} IdsWalk(t: Tree)
    ensures Ids(t) == WalkIds(Walk(t))
  {
    WalkInIds(t);
    forall y | y in Ids(t)
      ensures y in WalkIds(Walk(t))
    {
      IdsInWalk(t, y);
    }
  }

  /** No address is null and none is listed twice. */
  ghost predicate DistinctIds(w: seq<Entry>)
  {
    && (forall i :: 0 <= i < |w| ==> 0 < w[i].id)
    && (forall i, j :: 0 <= i < j < |w| ==> w[i].id != w[j].id)
  }

  lemma {:induction false} DistinctSplit(a: seq<Entry>, e: Entry, b: seq<Entry>)
    ensures DistinctIds(a + [e] + b) <==>
      && DistinctIds(a) && DistinctIds(b) && 0 < e.id
      && e.id !in WalkIds(a) && e.id !in WalkIds(b) && WalkIds(a) !! WalkIds(b)
  {
    var w := a + [e] + b;
    assert forall i :: 0 <= i < |a| ==> w[i] == a[i];
    assert forall i :: 0 <= i < |b| ==> w[|a| + 1 + i] == b[i];
    assert w[|a|] == e;
    if DistinctIds(w) {
      forall i, j | 0 <= i < |a| && 0 <= j < |b|
        ensures a[i].id != b[j].id
      {
        assert w[i] == a[i] && w[|a| + 1 + j] == b[j];
      }
      forall i | 0 <= i < |a|
        ensures a[i].id != e.id
      {
        assert w[i] == a[i];
      }
      forall j | 0 <= j < |b|
        ensures b[j].id != e.id
      {
        assert w[|a| + 1 + j] == b[j];
      }
      forall i, j | 0 <= i < j < |b|
        ensures b[i].id != b[j].id
      {
        assert w[|a| + 1 + i] == b[i] && w[|a| + 1 + j] == b[j];
      }
    }
    if && DistinctIds(a) && DistinctIds(b) && 0 < e.id
       && e.id !in WalkIds(a) && e.id !in WalkIds(b) && WalkIds(a) !! WalkIds(b)
    {
      forall i | 0 <= i < |w|
        ensures 0 < w[i].id
      {
        Pick(a, e, b, i);
      }
      forall i, j | 0 <= i < j < |w|
        ensures w[i].id != w[j].id
      {
        Pick(a, e, b, i);
        Pick(a, e, b, j);
        if i < |a| {
          assert a[i].id in WalkIds(a);
        }
        if j > |a| {
          assert b[j - |a| - 1].id in WalkIds(b);
        }
      }
    }
  }

  /** Distinct non-null addresses in the traversal are what Unique asks of the tree. */
  lemma {:induction false} UniqueWalk(t: Tree)
    ensures Unique(t) <==> DistinctIds(Walk(t))
  {
    match t
    case Nil =>
    case Node(_, l, x, k, r) =>
      UniqueWalk(l);
      UniqueWalk(r);
      IdsWalk(l);
      IdsWalk(r);
      DistinctSplit(Walk(l), Entry(x, k), Walk(r));
  }

  // ---------------------------------------------------------------- colours

  predicate IsRed(t: Tree)
  {
    t.Node? && t.color == Red
  }

  /** No red node has a red child. */
  ghost predicate RedFree(t: Tree)
  {
    match t
    case Nil => true
    case Node(c, l, _, _, r) => RedFree(l) && RedFree(r) && (c == Red ==> !IsRed(l) && !IsRed(r))
  }

  /** Black nodes on the leftmost path below t, t included. */
  function BlackHeight(t: Tree): nat
  {
    match t
    case Nil => 0
    case Node(c, l, _, _, _) => BlackHeight(l) + (if c == Black then 1 else 0)
  }

  /** Every path from a node down to a null child passes the same number of black nodes. */
  ghost predicate Balanced(t: Tree)
  {
    match t
    case Nil => true
    case Node(_, l, _, _, r) => Balanced(l) && Balanced(r) && BlackHeight(l) == BlackHeight(r)
  }

  /** The red-black properties: black root, no red node with a red child, equal black heights. */
  ghost predicate RedBlack(t: Tree)
  {
    !IsRed(t) && RedFree(t) && Balanced(t)
  }

  /** The red-free conditions along a path, except between its last node and the subtree below. */
  ghost predicate RedFreeCtx(p: seq<Frame>)
    decreases |p|
  {
    |p| == 0 ||
    var f := p[|p| - 1];
    && RedFreeCtx(p[..|p| - 1]) && RedFree(f.other) && !(f.color == Red && IsRed(f.other))
    && (|p| > 1 ==> !(p[|p| - 2].color == Red && f.color == Red))
  }

  lemma {:induction false} RedFreePlug(p: seq<Frame>, s: Tree)
    ensures RedFree(Plug(p, s)) <==>
      RedFreeCtx(p) && RedFree(s) && (|p| > 0 ==> !(p[|p| - 1].color == Red && IsRed(s)))
    decreases |p|
  {
    if |p| > 0 {
      var f := p[|p| - 1];
      var p' := p[..|p| - 1];
      RedFreePlug(p', Wrap(f, s));
      if |p| > 1 {
        assert p'[|p'| - 1] == p[|p| - 2];
      }
    }
  }

  lemma {:induction false} BalancedSub(p: seq<Frame>, s: Tree)
    requires Balanced(Plug(p, s))
    ensures Balanced(s)
    decreases |p|
  {
    if |p| > 0 {
      BalancedSub(p[..|p| - 1], Wrap(p[|p| - 1], s));
    }
  }

  /** A balanced subtree of the same black height can take the place of another one. */
  lemma {:induction false} BalancedReplace(p: seq<Frame>, s: Tree, s': Tree)
    requires Balanced(Plug(p, s)) && Balanced(s') && BlackHeight(s') == BlackHeight(s)
    ensures Balanced(Plug(p, s'))
    decreases |p|
  {
    if |p| > 0 {
      var f := p[|p| - 1];
      BalancedSub(p[..|p| - 1], Wrap(f, s));
      BalancedReplace(p[..|p| - 1], Wrap(f, s), Wrap(f, s'));
    }
  }

  // ---------------------------------------------------------------- rotations

  /** __rb_tree_rotate_left on values: the right child y takes t's place, t becomes y's left child. */
  function RotateLeft(t: Tree): (r: Tree)
    requires t.Node? && t.right.Node?
  {
    Node(t.right.color, Node(t.color, t.left, t.id, t.key, t.right.left), t.right.id, t.right.key, t.right.right)
  }

  /** __rb_tree_rotate_right on values: the left child y takes t's place, t becomes y's right child. */
  function RotateRight(t: Tree): (r: Tree)
    requires t.Node? && t.left.Node?
  {
    Node(t.left.color, t.left.left, t.left.id, t.left.key, Node(t.color, t.left.right, t.id, t.key, t.right))
  }

  /** A rotation keeps the in-order sequence, the addresses and their uniqueness. */
  lemma {:induction false} RotateLeftKeeps(t: Tree)
    requires t.Node? && t.right.Node?
    ensures Walk(RotateLeft(t)) == Walk(t) && Ids(RotateLeft(t)) == Ids(t)
    ensures Unique(t) ==> Unique(RotateLeft(t))
  {
    var y := t.right;
    var a, b, c := t.left, y.left, y.right;
    var inner := Node(t.color, a, t.id, t.key, b);
    assert Walk(t) == Walk(a) + [Entry(t.id, t.key)] + (Walk(b) + [Entry(y.id, y.key)] + Walk(c));
    assert Ids(inner) == Ids(a) + {t.id} + Ids(b);
    if Unique(t) {
      assert Unique(y) && 0 < y.id && Unique(b) && Unique(c);
      assert Ids(y) == Ids(b) + {y.id} + Ids(c);
      UniqueRotated(a, t.id, b, y.id, c, t.color, t.key);
    }
  }

  lemma {:induction false} RotateRightKeeps(t: Tree)
    requires t.Node? && t.left.Node?
    ensures Walk(RotateRight(t)) == Walk(t) && Ids(RotateRight(t)) == Ids(t)
    ensures Unique(t) ==> Unique(RotateRight(t))
  {
    var y := t.left;
    var a, b, c := y.left, y.right, t.right;
    var inner := Node(t.color, b, t.id, t.key, c);
    assert Walk(t) == (Walk(a) + [Entry(y.id, y.key)] + Walk(b)) + [Entry(t.id, t.key)] + Walk(c);
    assert Ids(inner) == Ids(b) + {t.id} + Ids(c);
    if Unique(t) {
      assert Unique(y) && 0 < y.id && Unique(a) && Unique(b);
      assert Ids(y) == Ids(a) + {y.id} + Ids(b);
      UniqueRotatedBack(a, y.id, b, t.id, c, t.color, t.key);
    }
  }

  /** Distinct addresses in a, x, b, y, c stay distinct when x and y trade places. */
  lemma {:induction false} UniqueRotated(a: Tree, x: nat, b: Tree, y: nat, c: Tree, cx: Color, kx: int)
    requires 0 < x && 0 < y && x != y && Unique(a) && Unique(b) && Unique(c)
    requires x !in Ids(a) + Ids(b) + Ids(c) && y !in Ids(a) + Ids(b) + Ids(c)
    requires Ids(a) !! Ids(b) && Ids(a) !! Ids(c) && Ids(b) !! Ids(c)
    ensures Unique(Node(cx, a, x, kx, b))
  {
  }

  lemma {:induction false} UniqueRotatedBack(a: Tree, y: nat, b: Tree, x: nat, c: Tree, cx: Color, kx: int)
    requires 0 < x && 0 < y && x != y && Unique(a) && Unique(b) && Unique(c)
    requires x !in Ids(a) + Ids(b) + Ids(c) && y !in Ids(a) + Ids(b) + Ids(c)
    requires Ids(a) !! Ids(b) && Ids(a) !! Ids(c) && Ids(b) !! Ids(c)
    ensures Unique(Node(cx, b, x, kx, c))
  {
  }

  // ---------------------------------------------------------------- rebalancing

  /** The root of a tree reached through a non-empty path is the path's first node. */
  lemma {:induction false} RootPlug(p: seq<Frame>, s: Tree)
    requires |p| > 0
    ensures Plug(p, s).Node? && Plug(p, s).color == p[0].color && Plug(p, s).id == p[0].id
    decreases |p|
  {
    if |p| > 1 {
      RootPlug(p[..|p| - 1], Wrap(p[|p| - 1], s));
    }
  }

  /** Two steps up: the tree seen from the grandparent of the path's subtree. */
  lemma {:induction false} PlugTwo(p: seq<Frame>, s: Tree)
    requires |p| >= 2
    ensures Plug(p, s) == Plug(p[..|p| - 2], Wrap(p[|p| - 2], Wrap(p[|p| - 1], s)))
  {
    var p' := p[..|p| - 1];
    assert p'[..|p'| - 1] == p[..|p| - 2] && p'[|p'| - 1] == p[|p| - 2];
  }

  /** One step down. */
  lemma {:induction false} PlugPush(p: seq<Frame>, f: Frame, s: Tree)
    ensures Plug(p + [f], s) == Plug(p, Wrap(f, s))
  {
    assert (p + [f])[..|p|] == p;
  }

  /** The frames' nodes are addresses of the context. */
  lemma {:induction false} CtxHas(p: seq<Frame>, j: nat)
    requires j < |p|
    ensures p[j].id in IdsCtx(p)
    decreases |p|
  {
    if j < |p| - 1 {
      CtxHas(p[..|p| - 1], j);
    }
  }

  /** Element i of a traversal is a node reached by some path: an iterator's node. */
  lemma {:induction false} Locate(t: Tree, i: nat) returns (p: seq<Frame>, s: Tree)
    requires i < |Walk(t)|
    ensures Plug(p, s) == t && s.Node? && |Before(p)| + |Walk(s.left)| == i
    ensures Walk(t)[i] == Entry(s.id, s.key)
  {
    p, s := LocateFrom([], t, i);
    WalkPlug(p, s);
    assert Walk(t) == Before(p) + (Walk(s.left) + [Entry(s.id, s.key)] + Walk(s.right)) + After(p);
  }

  lemma {:induction false} LocateFrom(p0: seq<Frame>, s0: Tree, i: nat) returns (p: seq<Frame>, s: Tree)
    requires i < |Walk(s0)|
    ensures Plug(p, s) == Plug(p0, s0) && s.Node? && |Before(p)| + |Walk(s.left)| == |Before(p0)| + i
    decreases s0
  {
    var n := |Walk(s0.left)|;
    if i < n {
      var f := Frame(true, s0.color, s0.id, s0.key, s0.right);
      PlugPush(p0, f, s0.left);
      assert (p0 + [f])[..|p0|] == p0;
      p, s := LocateFrom(p0 + [f], s0.left, i);
    } else if i == n {
      p, s := p0, s0;
    } else {
      var f := Frame(false, s0.color, s0.id, s0.key, s0.left);
      PlugPush(p0, f, s0.right);
      assert (p0 + [f])[..|p0|] == p0;
      assert |Before(p0 + [f])| == |Before(p0)| + n + 1;
      p, s := LocateFrom(p0 + [f], s0.right, i - n - 1);
    }
  }

  /** A balanced node: its black height and the balance of its children. */
  lemma {:induction false} WrapHeight(f: Frame, s: Tree)
    ensures Balanced(Wrap(f, s)) <==> Balanced(s) && Balanced(f.other) && BlackHeight(s) == BlackHeight(f.other)
    ensures Balanced(Wrap(f, s)) ==>
      BlackHeight(Wrap(f, s)) == BlackHeight(s) + (if f.color == Black then 1 else 0)
  {
  }

  /** Walking a node ignores its colour. */
  lemma {:induction false} WalkWrap(f: Frame, c: Color, s: Tree, s': Tree)
    requires Walk(s') == Walk(s)
    ensures Walk(Wrap(f.(color := c), s')) == Walk(Wrap(f, s))
  {
  }

  /**
   * The loop invariant of __rb_tree_rebalance. The path p leads to `node`, which is red; the
   * only red node that may have a red child is node's parent; black heights are equal
   * everywhere; and the root is black unless node is the root.
   */
  ghost predicate Fixing(p: seq<Frame>, s: Tree)
  {
    && s.Node? && s.color == Red && RedFree(s) && RedFreeCtx(p) && Balanced(Plug(p, s))
    && (|p| > 0 ==> p[0].color == Black)
  }

  /** A red leaf put where a red-black tree had a null child starts the loop. */
  lemma {:induction false} StartFixing(p: seq<Frame>, z: nat, k: int)
    requires RedBlack(Plug(p, Nil))
    ensures Fixing(p, Node(Red, Nil, z, k, Nil))
  {
    RedFreePlug(p, Nil);
    BalancedReplace(p, Nil, Node(Red, Nil, z, k, Nil));
    if |p| > 0 {
      RootPlug(p, Nil);
    }
  }

  /** A red parent is not the root, and the grandparent is black. */
  lemma {:induction false} ParentRed(p: seq<Frame>, s: Tree)
    requires Fixing(p, s) && |p| > 0 && p[|p| - 1].color == Red
    ensures |p| >= 2 && p[|p| - 2].color == Black
  {
  }

  /** Case "uncle is red": parent and uncle turn black, the grandparent red. */
  function Recoloured(g: Frame, f: Frame, s: Tree): Tree
    requires g.other.Node?
  {
    Wrap(g.(color := Red, other := g.other.(color := Black)), Wrap(f.(color := Black), s))
  }

  /** The frame that reaches g's other child, with s where the path went on. */
  function Sibling(g: Frame, s: Tree): (f: Frame)
    ensures Wrap(f, g.other) == Wrap(g, s) && f.id == g.id && f.toLeft == !g.toLeft
  {
    Frame(!g.toLeft, g.color, g.id, g.key, s)
  }

  /**
   * The three nodes the "uncle is red" case recolours, each as the end of a path through the
   * tree as it stands before that write: the parent, the uncle, then the grandparent.
   */
  lemma {:induction false} RecolourPaths(p: seq<Frame>, s: Tree)
    requires |p| >= 2 && p[|p| - 2].other.Node?
    ensures var n := |p|;
      var g, f := p[n - 2], p[n - 1];
      var f', u' := f.(color := Black), g.other.(color := Black);
      && Plug(p, s) == Plug(p[..n - 1], Wrap(f, s))
      && Plug(p[..n - 1], Wrap(f, s).(color := Black)) == Plug(p[..n - 2] + [Sibling(g, Wrap(f', s))], g.other)
      && Plug(p[..n - 2] + [Sibling(g, Wrap(f', s))], u') == Plug(p[..n - 2], Wrap(g.(other := u'), Wrap(f', s)))
      && Wrap(g.(other := u'), Wrap(f', s)).(color := Red) == Recoloured(g, f, s)
  {
    var n := |p|;
    var g, f := p[n - 2], p[n - 1];
    var f', u' := f.(color := Black), g.other.(color := Black);
    assert p[..n - 1][..n - 2] == p[..n - 2] && p[..n - 1][n - 2] == g;
    PlugPush(p[..n - 2], Sibling(g, Wrap(f', s)), g.other);
    PlugPush(p[..n - 2], Sibling(g, Wrap(f', s)), u');
  }

  /** After the recolouring the loop goes on two levels up, at the grandparent. */
  lemma {:induction false} UncleRedStep(p: seq<Frame>, s: Tree)
    requires Fixing(p, s) && |p| >= 2 && p[|p| - 1].color == Red && IsRed(p[|p| - 2].other)
    ensures Fixing(p[..|p| - 2], Recoloured(p[|p| - 2], p[|p| - 1], s))
    ensures Walk(Plug(p[..|p| - 2], Recoloured(p[|p| - 2], p[|p| - 1], s))) == Walk(Plug(p, s))
  {
    var n := |p|;
    var q, g, f := p[..n - 2], p[n - 2], p[n - 1];
    var u := g.other;
    var s' := Recoloured(g, f, s);
    PlugTwo(p, s);
    assert p[..n - 1][..n - 2] == q && p[..n - 1][n - 2] == g;
    assert RedFreeCtx(p[..n - 1]);
    assert RedFree(u) && RedFree(f.other) && g.color == Black;
    var pf := Wrap(f.(color := Black), s);
    var uf := u.(color := Black);
    assert RedFree(pf) && RedFree(uf);
    BalancedSub(q, Wrap(g, Wrap(f, s)));
    WrapHeight(g, Wrap(f, s));
    WrapHeight(f, s);
    WrapHeight(f.(color := Black), s);
    WrapHeight(g.(color := Red, other := uf), pf);
    BalancedReplace(q, Wrap(g, Wrap(f, s)), s');
    WalkWrap(f, Black, s, s);
    assert Walk(uf) == Walk(u);
    WalkWrap(g.(other := uf), Red, Wrap(f, s), pf);
    WalkPlug(q, s');
    WalkPlug(q, Wrap(g, Wrap(f, s)));
  }

  /** The frame above `node` once the inner case has rotated at the parent. */
  function InnerFrame(g: Frame, s: Tree): Frame
    requires s.Node?
  {
    Frame(g.toLeft, s.color, s.id, s.key, Child(s, !g.toLeft))
  }

  /** Inner case: rotating at the parent makes the old parent the new `node`, an outer child. */
  lemma {:induction false} InnerStep(p: seq<Frame>, s: Tree)
    requires Fixing(p, s) && |p| >= 2 && p[|p| - 1].color == Red && !IsRed(p[|p| - 2].other)
    requires p[|p| - 1].toLeft != p[|p| - 2].toLeft
    ensures var f := p[|p| - 1];
      (if f.toLeft then Wrap(f, s).left.Node? && RotateRight(Wrap(f, s)) == Wrap(InnerFrame(p[|p| - 2], s), Wrap(f, Child(s, p[|p| - 2].toLeft)))
       else Wrap(f, s).right.Node? && RotateLeft(Wrap(f, s)) == Wrap(InnerFrame(p[|p| - 2], s), Wrap(f, Child(s, p[|p| - 2].toLeft))))
    ensures var p' := p[..|p| - 1] + [InnerFrame(p[|p| - 2], s)];
      var s' := Wrap(p[|p| - 1], Child(s, p[|p| - 2].toLeft));
      && Fixing(p', s') && Walk(Plug(p', s')) == Walk(Plug(p, s))
      && |p'| == |p| && p'[|p| - 2] == p[|p| - 2] && p'[|p| - 1].color == Red
      && p'[|p| - 1].toLeft == p[|p| - 2].toLeft && p'[..|p| - 2] == p[..|p| - 2]
  {
    var n := |p|;
    var g, f := p[n - 2], p[n - 1];
    var F := InnerFrame(g, s);
    var c := Child(s, g.toLeft);
    var s' := Wrap(f, c);
    var p' := p[..n - 1] + [F];
    assert p'[..n - 1] == p[..n - 1];
    assert p'[n - 2] == g;
    assert RedFreeCtx(p[..n - 1]);
    assert RedFree(f.other) && !IsRed(f.other) && g.color == Black;
    assert RedFree(c) && !IsRed(c) && RedFree(Child(s, !g.toLeft)) && !IsRed(Child(s, !g.toLeft));
    assert RedFree(s');
    assert RedFreeCtx(p');
    PlugPush(p[..n - 1], F, s');
    BalancedSub(p[..n - 1], Wrap(f, s));
    WrapHeight(f, s);
    WrapHeight(f, c);
    WrapHeight(F, s');
    BalancedReplace(p[..n - 1], Wrap(f, s), Wrap(F, s'));
    if f.toLeft {
      RotateRightKeeps(Wrap(f, s));
    } else {
      RotateLeftKeeps(Wrap(f, s));
    }
    WalkPlug(p[..n - 1], Wrap(f, s));
    WalkPlug(p[..n - 1], Wrap(F, s'));
  }

  /** The frame above `node` once the outer case has rotated at the grandparent. */
  function OuterFrame(g: Frame, f: Frame): Frame
  {
    Frame(g.toLeft, Black, f.id, f.key, Wrap(g.(color := Red), f.other))
  }

  /**
   * Outer case: the parent turns black, the grandparent red, and rotating at the grandparent
   * lifts the parent into its place; node's new parent is black, so the loop ends.
   */
  lemma {:induction false} OuterStep(p: seq<Frame>, s: Tree)
    requires Fixing(p, s) && |p| >= 2 && p[|p| - 1].color == Red && !IsRed(p[|p| - 2].other)
    requires p[|p| - 1].toLeft == p[|p| - 2].toLeft
    ensures var g, f := p[|p| - 2], p[|p| - 1];
      var t := Wrap(g.(color := Red), Wrap(f.(color := Black), s));
      (if g.toLeft then t.left.Node? && RotateRight(t) == Wrap(OuterFrame(g, f), s)
       else t.right.Node? && RotateLeft(t) == Wrap(OuterFrame(g, f), s))
    ensures var p' := p[..|p| - 2] + [OuterFrame(p[|p| - 2], p[|p| - 1])];
      Fixing(p', s) && Walk(Plug(p', s)) == Walk(Plug(p, s)) && |p'| == |p| - 1 && p'[|p'| - 1].color == Black
  {
    var n := |p|;
    var q, g, f := p[..n - 2], p[n - 2], p[n - 1];
    var u := g.other;
    var F := OuterFrame(g, f);
    var x := Wrap(g.(color := Red), f.other);
    var p' := q + [F];
    PlugTwo(p, s);
    assert p[..n - 1][..n - 2] == q && p[..n - 1][n - 2] == g;
    assert RedFreeCtx(p[..n - 1]);
    assert RedFree(u) && RedFree(f.other) && !IsRed(f.other) && g.color == Black;
    assert RedFree(x);
    assert p'[..|p'| - 1] == q;
    assert RedFreeCtx(p');
    PlugPush(q, F, s);
    BalancedSub(q, Wrap(g, Wrap(f, s)));
    WrapHeight(g, Wrap(f, s));
    WrapHeight(f, s);
    WrapHeight(g.(color := Red), f.other);
    WrapHeight(F, s);
    BalancedReplace(q, Wrap(g, Wrap(f, s)), Wrap(F, s));
    var t := Wrap(g.(color := Red), Wrap(f.(color := Black), s));
    if g.toLeft {
      RotateRightKeeps(t);
    } else {
      RotateLeftKeeps(t);
    }
    WalkWrap(f, Black, s, s);
    WalkWrap(g, Red, Wrap(f, s), Wrap(f.(color := Black), s));
    WalkPlug(q, Wrap(g, Wrap(f, s)));
    WalkPlug(q, Wrap(F, s));
  }

  /** root->color = black. */
  function Blacken(t: Tree): Tree
  {
    if t.Nil? then t else t.(color := Black)
  }

  /** When the loop stops, blackening the root leaves a red-black tree. */
  lemma {:induction false} FinishFixing(p: seq<Frame>, s: Tree)
    requires Fixing(p, s) && (|p| == 0 || p[|p| - 1].color == Black)
    ensures RedBlack(Blacken(Plug(p, s))) && Walk(Blacken(Plug(p, s))) == Walk(Plug(p, s))
    ensures |p| > 0 ==> Blacken(Plug(p, s)) == Plug(p, s)
  {
    RedFreePlug(p, s);
    if |p| > 0 {
      RootPlug(p, s);
    }
  }
}
