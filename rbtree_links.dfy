// The node records of mini::util::rb_tree: how a red-black tree value is laid out in
// parent/left/right pointers, with the header node whose parent is the root and whose left and
// right are the leftmost and rightmost nodes. Every pointer rewrite the class performs is
// justified here by a lemma from the values it writes to the tree it then holds.
module RbTreeLinks {
  import opened RbTreeValues

  /** __rb_tree_node<int>: colour, the three pointers (0 is null) and the value. */
  datatype Rec = Rec(color: Color, parent: nat, left: nat, right: nat, key: int)

  /** The child pointer of a record on one side. */
  function ChildPtr(r: Rec, left: bool): nat
  {
    if left then r.left else r.right
  }

  /** The record with its child pointer on one side replaced by c. */
  function Relink(r: Rec, left: bool, c: nat): (r': Rec)
    ensures ChildPtr(r', left) == c && ChildPtr(r', !left) == ChildPtr(r, !left)
    ensures r'.parent == r.parent && r'.color == r.color && r'.key == r.key
  {
    if left then r.(left := c) else r.(right := c)
  }

  /** The records m hold the subtree t, whose root's parent pointer is par. */
  ghost predicate Repr(t: Tree, par: nat, m: map<nat, Rec>)
  {
    match t
    case Nil => true
    case Node(c, l, x, k, r) =>
      x in m && m[x] == Rec(c, par, Ptr(l), Ptr(r), k) && Repr(l, x, m) && Repr(r, x, m)
  }

  /** A subtree depends on its own records only. */
  lemma {:induction false} ReprFrame(t: Tree, par: nat, m: map<nat, Rec>, m': map<nat, Rec>)
    requires Repr(t, par, m)
    requires forall a :: a in Ids(t) ==> a in m && a in m' && m'[a] == m[a]
    ensures Repr(t, par, m')
  {
    match t
    case Nil =>
    case Node(_, l, x, _, r) =>
      ReprFrame(l, x, m, m');
      ReprFrame(r, x, m, m');
  }

  /** Changing the parent pointer of a subtree's root hangs the subtree under another node. */
  lemma {:induction false} Reparent(t: Tree, par: nat, par': nat, m: map<nat, Rec>, m': map<nat, Rec>)
    requires Repr(t, par, m) && Unique(t) && t.Node?
    requires t.id in m' && m'[t.id] == m[t.id].(parent := par')
    requires forall a :: a in Ids(t) && a != t.id ==> a in m && a in m' && m'[a] == m[a]
    ensures Repr(t, par', m')
  {
    ReprFrame(t.left, t.id, m, m');
    ReprFrame(t.right, t.id, m, m');
  }

  /** The records of a subtree reached by a path, and the pointer to it from its parent. */
  lemma {:induction false} SubRepr(p: seq<Frame>, s: Tree, par: nat, m: map<nat, Rec>)
    requires Repr(Plug(p, s), par, m)
    ensures Repr(s, Hole(p, par), m)
    ensures |p| > 0 ==> Hole(p, par) in m && ChildPtr(m[Hole(p, par)], p[|p| - 1].toLeft) == Ptr(s)
    ensures |p| > 0 ==> m[Hole(p, par)].parent == Hole(p[..|p| - 1], par)
    ensures |p| > 0 ==> ChildPtr(m[Hole(p, par)], !p[|p| - 1].toLeft) == Ptr(p[|p| - 1].other)
    ensures |p| > 0 ==> m[Hole(p, par)].color == p[|p| - 1].color && m[Hole(p, par)].key == p[|p| - 1].key
    decreases |p|
  {
    if |p| > 0 {
      SubRepr(p[..|p| - 1], Wrap(p[|p| - 1], s), par, m);
    }
  }

  /**
   * Replacing the subtree at the end of a path: when the new subtree's records are in place,
   * the path's other records are untouched and the parent's child pointer is redirected, the
   * records hold the whole new tree.
   */
  lemma {:induction false} Replace(p: seq<Frame>, s: Tree, s': Tree, par: nat, m: map<nat, Rec>, m': map<nat, Rec>)
    requires Repr(Plug(p, s), par, m) && Unique(Plug(p, s))
    requires Repr(s', Hole(p, par), m')
    requires forall a :: a in IdsCtx(p) && a != Hole(p, par) ==> a in m && a in m' && m'[a] == m[a]
    requires |p| > 0 ==> (Hole(p, par) in m && Hole(p, par) in m' &&
      m'[Hole(p, par)] == Relink(m[Hole(p, par)], p[|p| - 1].toLeft, Ptr(s')))
    ensures Repr(Plug(p, s'), par, m')
    decreases |p|
  {
    if |p| > 0 {
      var q, f := p[..|p| - 1], p[|p| - 1];
      SubRepr(q, Wrap(f, s), par, m);
      UniquePlug(q, Wrap(f, s));
      assert IdsCtx(p) == IdsCtx(q) + {f.id} + Ids(f.other);
      ReprFrame(f.other, f.id, m, m');
      assert Repr(Wrap(f, s'), Hole(q, par), m');
      if |q| > 0 {
        assert Hole(q, par) in IdsCtx(q);
      }
      Replace(q, Wrap(f, s), Wrap(f, s'), par, m, m');
    }
  }

  /**
   * The tree t hangs below the header h (address h): the header is red, its parent is the root,
   * its left and right are the first and last nodes in order, and the records are exactly the
   * tree's nodes and the header.
   */
  ghost predicate Links(t: Tree, h: nat, m: map<nat, Rec>)
  {
    && 0 < h && h in m && h !in Ids(t) && Unique(t) && Repr(t, h, m)
    && m[h].parent == Ptr(t) && m[h].color == Red
    && m[h].left == First(t, h) && m[h].right == Last(t, h)
    && m.Keys == Ids(t) + {h}
  }

  /** Every node of the in-order sequence has its record, with its key. */
  lemma {:induction false} WalkRecords(t: Tree, par: nat, m: map<nat, Rec>)
    requires Repr(t, par, m)
    ensures forall i :: 0 <= i < |Walk(t)| ==> Walk(t)[i].id in m && m[Walk(t)[i].id].key == Walk(t)[i].key
  {
    match t
    case Nil =>
    case Node(_, l, x, k, r) =>
      WalkRecords(l, x, m);
      WalkRecords(r, x, m);
      forall i | 0 <= i < |Walk(t)|
        ensures Walk(t)[i].id in m && m[Walk(t)[i].id].key == Walk(t)[i].key
      {
        Pick(Walk(l), Entry(x, k), Walk(r), i);
      }
  }

  /** A subtree swapped for one with the same walk and addresses changes neither for the tree. */
  lemma {:induction false} PlugKeeps(p: seq<Frame>, s: Tree, s': Tree)
    requires s.Node? && s'.Node? && Walk(s') == Walk(s) && Ids(s') == Ids(s) && Unique(s')
    requires Unique(Plug(p, s))
    ensures Walk(Plug(p, s')) == Walk(Plug(p, s)) && Ids(Plug(p, s')) == Ids(Plug(p, s))
    ensures Unique(Plug(p, s'))
    ensures Ptr(Plug(p, s')) == if |p| == 0 then s'.id else Ptr(Plug(p, s))
  {
    WalkPlug(p, s);
    WalkPlug(p, s');
    IdsPlug(p, s);
    IdsPlug(p, s');
    UniquePlug(p, s);
    UniquePlug(p, s');
    if |p| > 0 {
      RootPlug(p, s);
      RootPlug(p, s');
    }
  }

  /** Links of a tree whose subtree at the end of p gave way to one with the same walk and addresses. */
  lemma {:induction false} LinksKept(p: seq<Frame>, s: Tree, s': Tree, h: nat, m: map<nat, Rec>, m': map<nat, Rec>)
    requires Links(Plug(p, s), h, m) && Repr(Plug(p, s'), h, m')
    requires s.Node? && s'.Node? && Walk(s') == Walk(s) && Ids(s') == Ids(s) && Unique(s')
    requires m'.Keys == m.Keys && m'[h] == (if |p| == 0 then m[h].(parent := s'.id) else m[h])
    ensures 0 < h && h in m' && h !in Ids(Plug(p, s')) && Unique(Plug(p, s')) && Repr(Plug(p, s'), h, m')
    ensures m'[h].parent == Ptr(Plug(p, s')) && m'[h].color == Red
    ensures m'[h].left == First(Plug(p, s'), h) && m'[h].right == Last(Plug(p, s'), h)
    ensures m'.Keys == Ids(Plug(p, s')) + {h}
  {
    PlugKeeps(p, s, s');
    var t, t' := Plug(p, s), Plug(p, s');
    assert First(t', h) == First(t, h) && Last(t', h) == Last(t, h);
  }

  /** The records of a subtree rotated left at its root, once x, y and b are rewritten. */
  lemma {:induction false} RotatedLeftRepr(s: Tree, px: nat, m: map<nat, Rec>, m': map<nat, Rec>)
    requires Repr(s, px, m) && Unique(s) && s.Node? && s.right.Node?
    requires var a, x, y, bt, c := s.left, s.id, s.right.id, s.right.left, s.right.right;
      && x in m' && m'[x] == Rec(s.color, y, Ptr(a), Ptr(bt), s.key)
      && y in m' && m'[y] == Rec(s.right.color, px, x, Ptr(c), s.right.key)
      && (bt.Node? ==> bt.id in m' && m'[bt.id] == Rec(bt.color, x, Ptr(bt.left), Ptr(bt.right), bt.key))
      && (forall a :: a in Ids(s) && a != x && a != y && !(bt.Node? && a == bt.id) ==>
           a in m && a in m' && m'[a] == m[a])
    ensures Repr(RotateLeft(s), px, m')
  {
    var x, y := s.id, s.right.id;
    var a, bt, c := s.left, s.right.left, s.right.right;
    assert x !in Ids(a) && y !in Ids(a) && (bt.Node? ==> bt.id !in Ids(a));
    ReprFrame(a, x, m, m');
    assert x !in Ids(c) && y !in Ids(c) && (bt.Node? ==> bt.id !in Ids(c));
    ReprFrame(c, y, m, m');
    if bt.Node? {
      Reparent(bt, y, x, m, m');
    }
  }

  /** The records of a subtree rotated right at its root, once x, y and b are rewritten. */
  lemma {:induction false} RotatedRightRepr(s: Tree, px: nat, m: map<nat, Rec>, m': map<nat, Rec>)
    requires Repr(s, px, m) && Unique(s) && s.Node? && s.left.Node?
    requires var a, x, y, bt, c := s.left.left, s.id, s.left.id, s.left.right, s.right;
      && x in m' && m'[x] == Rec(s.color, y, Ptr(bt), Ptr(c), s.key)
      && y in m' && m'[y] == Rec(s.left.color, px, Ptr(a), x, s.left.key)
      && (bt.Node? ==> bt.id in m' && m'[bt.id] == Rec(bt.color, x, Ptr(bt.left), Ptr(bt.right), bt.key))
      && (forall a :: a in Ids(s) && a != x && a != y && !(bt.Node? && a == bt.id) ==>
           a in m && a in m' && m'[a] == m[a])
    ensures Repr(RotateRight(s), px, m')
  {
    var x, y := s.id, s.left.id;
    var a, bt, c := s.left.left, s.left.right, s.right;
    assert x !in Ids(a) && y !in Ids(a) && (bt.Node? ==> bt.id !in Ids(a));
    ReprFrame(a, y, m, m');
    assert x !in Ids(c) && y !in Ids(c) && (bt.Node? ==> bt.id !in Ids(c));
    ReprFrame(c, x, m, m');
    if bt.Node? {
      Reparent(bt, y, x, m, m');
    }
  }

  /** Records outside a rewritten subtree, other than its parent's, are those of the context. */
  lemma {:induction false} ContextKept(p: seq<Frame>, s: Tree, h: nat, m: map<nat, Rec>, m': map<nat, Rec>)
    requires Links(Plug(p, s), h, m) && m'.Keys == m.Keys
    requires forall a :: a in m && a !in Ids(s) && a != Hole(p, h) ==> m'[a] == m[a]
    ensures forall a :: a in IdsCtx(p) && a != Hole(p, h) ==> a in m && a in m' && m'[a] == m[a]
    ensures Hole(p, h) !in Ids(s) && Hole(p, h) in m && Repr(s, Hole(p, h), m) && Unique(s)
  {
    SubRepr(p, s, h, m);
    UniquePlug(p, s);
    IdsPlug(p, s);
    if |p| > 0 {
      assert Hole(p, h) in IdsCtx(p);
    }
  }

  /**
   * __rb_tree_rotate_left at the root x of the subtree s reached by p, with y its right child:
   * the records x, y, y's old left child b and x's parent (the header when x is the root) are
   * rewritten as the source does, and the records then hold the rotated tree.
   */
  lemma {:induction false} RotateLeftLinks(p: seq<Frame>, s: Tree, h: nat, m: map<nat, Rec>, m': map<nat, Rec>)
    requires Links(Plug(p, s), h, m) && s.Node? && s.right.Node? && m'.Keys == m.Keys
    requires var a, x, y, bt, c, px := s.left, s.id, s.right.id, s.right.left, s.right.right, Hole(p, h);
      && x in m' && m'[x] == Rec(s.color, y, Ptr(a), Ptr(bt), s.key)
      && y in m' && m'[y] == Rec(s.right.color, px, x, Ptr(c), s.right.key)
      && (bt.Node? ==> bt.id in m' && m'[bt.id] == Rec(bt.color, x, Ptr(bt.left), Ptr(bt.right), bt.key))
      && px in m && m'[px] == (if |p| == 0 then m[px].(parent := y) else Relink(m[px], p[|p| - 1].toLeft, y))
      && (forall a :: a in m && a != x && a != y && !(bt.Node? && a == bt.id) && a != px ==> m'[a] == m[a])
    ensures Links(Plug(p, RotateLeft(s)), h, m')
  {
    var px, bt := Hole(p, h), s.right.left;
    assert s.id in Ids(s) && s.right.id in Ids(s) && (bt.Node? ==> bt.id in Ids(bt) && Ids(bt) <= Ids(s.right));
    ContextKept(p, s, h, m, m');
    IdsPlug(p, s);
    if |p| > 0 {
      assert px in IdsCtx(p);
    }
    RotatedLeftRepr(s, px, m, m');
    Replace(p, s, RotateLeft(s), h, m, m');
    RotateLeftKeeps(s);
    LinksKept(p, s, RotateLeft(s), h, m, m');
  }

  /** __rb_tree_rotate_right, the mirror image of RotateLeftLinks. */
  lemma {:induction false} RotateRightLinks(p: seq<Frame>, s: Tree, h: nat, m: map<nat, Rec>, m': map<nat, Rec>)
    requires Links(Plug(p, s), h, m) && s.Node? && s.left.Node? && m'.Keys == m.Keys
    requires var a, x, y, bt, c, px := s.left.left, s.id, s.left.id, s.left.right, s.right, Hole(p, h);
      && x in m' && m'[x] == Rec(s.color, y, Ptr(bt), Ptr(c), s.key)
      && y in m' && m'[y] == Rec(s.left.color, px, Ptr(a), x, s.left.key)
      && (bt.Node? ==> bt.id in m' && m'[bt.id] == Rec(bt.color, x, Ptr(bt.left), Ptr(bt.right), bt.key))
      && px in m && m'[px] == (if |p| == 0 then m[px].(parent := y) else Relink(m[px], p[|p| - 1].toLeft, y))
      && (forall a :: a in m && a != x && a != y && !(bt.Node? && a == bt.id) && a != px ==> m'[a] == m[a])
    ensures Links(Plug(p, RotateRight(s)), h, m')
  {
    var px, bt := Hole(p, h), s.left.right;
    assert s.id in Ids(s) && s.left.id in Ids(s) && (bt.Node? ==> bt.id in Ids(bt) && Ids(bt) <= Ids(s.left));
    ContextKept(p, s, h, m, m');
    IdsPlug(p, s);
    if |p| > 0 {
      assert px in IdsCtx(p);
    }
    RotatedRightRepr(s, px, m, m');
    Replace(p, s, RotateRight(s), h, m, m');
    RotateRightKeeps(s);
    LinksKept(p, s, RotateRight(s), h, m, m');
  }

  /** Writing a node's colour recolours that node of the tree and nothing else. */
  lemma {:induction false} RecolorLinks(p: seq<Frame>, s: Tree, c: Color, h: nat, m: map<nat, Rec>)
    requires Links(Plug(p, s), h, m) && s.Node? && s.id in m
    ensures Links(Plug(p, s.(color := c)), h, m[s.id := m[s.id].(color := c)])
  {
    var m' := m[s.id := m[s.id].(color := c)];
    var s' := s.(color := c);
    SubRepr(p, s, h, m);
    UniquePlug(p, s);
    IdsPlug(p, s);
    if |p| > 0 {
      assert Hole(p, h) in IdsCtx(p);
    }
    ReprFrame(s.left, s.id, m, m');
    ReprFrame(s.right, s.id, m, m');
    Replace(p, s, s', h, m, m');
    LinksKept(p, s, s', h, m, m');
  }

  /** The walk of a tree with a hole at the end of p, around what fills the hole. */
  lemma {:induction false} HoleNeighbours(p: seq<Frame>)
    requires |p| > 0
    ensures var f := p[|p| - 1];
      f.toLeft ==> |After(p)| > 0 && After(p)[0] == Entry(f.id, f.key)
    ensures var f := p[|p| - 1];
      !f.toLeft ==> |Before(p)| > 0 && Before(p)[|Before(p)| - 1] == Entry(f.id, f.key)
  {
  }

  /**
   * The records __insert leaves: z a red-or-black leaf below y, the end of p (the root when p is
   * empty), y's child pointer on the path's side leading to z, the header's leftmost and
   * rightmost following z when y was one of them, and every other record as it was.
   */
  ghost predicate Attached(p: seq<Frame>, z: nat, k: int, c: Color, h: nat, m: map<nat, Rec>, m': map<nat, Rec>)
  {
    var y, left := Hole(p, h), |p| == 0 || p[|p| - 1].toLeft;
    && y in m && h in m && m'.Keys == m.Keys + {z}
    && m'[z] == Rec(c, y, 0, 0, k)
    && (|p| == 0 ==> m'[h] == m[h].(parent := z, left := z, right := z))
    && (|p| > 0 ==> m'[y] == Relink(m[y], left, z))
    && (|p| > 0 ==> m'[h] == m[h].(left := if left && m[h].left == y then z else m[h].left,
                                   right := if !left && m[h].right == y then z else m[h].right))
    && (forall a :: a in m && a != y && a != h ==> m'[a] == m[a])
  }

  /** After __insert the header's leftmost is the first node of the grown traversal. */
  lemma {:induction false} AttachLeftmost(p: seq<Frame>, z: nat, k: int, c: Color, h: nat, m: map<nat, Rec>, m': map<nat, Rec>)
    requires Links(Plug(p, Nil), h, m) && 0 < z && z !in m && Attached(p, z, k, c, h, m, m')
    ensures m'[h].left == First(Plug(p, Node(c, Nil, z, k, Nil)), h)
  {
    var t, n := Plug(p, Nil), Node(c, Nil, z, k, Nil);
    WalkPlug(p, Nil);
    WalkPlug(p, n);
    if |p| > 0 {
      var y, w := Hole(p, h), Walk(t);
      assert w == Before(p) + After(p);
      HoleNeighbours(p);
      WalkDistinct(t);
      if p[|p| - 1].toLeft {
        assert w[|Before(p)|] == After(p)[0];
        if |Before(p)| > 0 {
          assert w[0] == Before(p)[0];
        }
      } else {
        assert w[|Before(p)| - 1] == Before(p)[|Before(p)| - 1];
        assert w[0] == Before(p)[0];
      }
    }
  }

  /** After __insert the header's rightmost is the last node of the grown traversal. */
  lemma {:induction false} AttachRightmost(p: seq<Frame>, z: nat, k: int, c: Color, h: nat, m: map<nat, Rec>, m': map<nat, Rec>)
    requires Links(Plug(p, Nil), h, m) && 0 < z && z !in m && Attached(p, z, k, c, h, m, m')
    ensures m'[h].right == Last(Plug(p, Node(c, Nil, z, k, Nil)), h)
  {
    var t, n := Plug(p, Nil), Node(c, Nil, z, k, Nil);
    WalkPlug(p, Nil);
    WalkPlug(p, n);
    if |p| > 0 {
      var y, w := Hole(p, h), Walk(t);
      assert w == Before(p) + After(p);
      HoleNeighbours(p);
      WalkDistinct(t);
      if p[|p| - 1].toLeft {
        assert w[|Before(p)|] == After(p)[0];
        assert w[|w| - 1] == After(p)[|w| - 1 - |Before(p)|];
      } else {
        assert w[|Before(p)| - 1] == Before(p)[|Before(p)| - 1];
        if |After(p)| > 0 {
          assert w[|w| - 1] == After(p)[|w| - 1 - |Before(p)|];
        }
      }
    }
  }

  /**
   * __insert: the new node z becomes the left (or right) child of y, the end of p, or the root
   * when the tree was empty; the header's leftmost and rightmost follow it when y was one of them.
   */
  lemma {:induction false} AttachLinks(p: seq<Frame>, z: nat, k: int, c: Color, h: nat, m: map<nat, Rec>, m': map<nat, Rec>)
    requires Links(Plug(p, Nil), h, m) && 0 < z && z !in m && Attached(p, z, k, c, h, m, m')
    ensures Links(Plug(p, Node(c, Nil, z, k, Nil)), h, m')
  {
    var t, n := Plug(p, Nil), Node(c, Nil, z, k, Nil);
    SubRepr(p, Nil, h, m);
    UniquePlug(p, Nil);
    UniquePlug(p, n);
    IdsPlug(p, Nil);
    IdsPlug(p, n);
    if |p| > 0 {
      assert Hole(p, h) in IdsCtx(p);
      RootPlug(p, Nil);
      RootPlug(p, n);
    }
    Replace(p, Nil, n, h, m, m');
    AttachLeftmost(p, z, k, c, h, m, m');
    AttachRightmost(p, z, k, c, h, m, m');
  }

  /**
   * What the records say about the node at the end of a path: its own record, and its parent's
   * (the header when the node is the root), whose child pointer on the path's side leads back.
   */
  lemma {:induction false} NodeView(q: seq<Frame>, c: Tree, h: nat, m: map<nat, Rec>)
    requires Links(Plug(q, c), h, m) && c.Node?
    ensures c.id in m && m[c.id] == Rec(c.color, Hole(q, h), Ptr(c.left), Ptr(c.right), c.key)
    ensures Repr(c, Hole(q, h), m) && h !in Ids(c)
    ensures c.id != h && 0 < Hole(q, h) && Hole(q, h) in m && Hole(q, h) !in Ids(c) && Unique(c)
    ensures Ptr(c.left) != Hole(q, h) && Ptr(c.right) != Hole(q, h)
    ensures |q| == 0 ==> Hole(q, h) == h && m[h].parent == c.id
    ensures |q| > 0 ==> Hole(q, h) != h && m[h].parent != c.id
    ensures |q| > 0 ==> var f := q[|q| - 1];
      && ChildPtr(m[f.id], f.toLeft) == c.id && ChildPtr(m[f.id], !f.toLeft) == Ptr(f.other)
      && Ptr(f.other) != c.id && m[f.id].parent == Hole(q[..|q| - 1], h)
      && m[f.id].color == f.color && m[f.id].key == f.key && Hole(q[..|q| - 1], h) in m
  {
    SubRepr(q, c, h, m);
    UniquePlug(q, c);
    IdsPlug(q, c);
    assert c.id in Ids(c);
    if |q| > 0 {
      var f := q[|q| - 1];
      CtxHas(q, |q| - 1);
      CtxHas(q, 0);
      RootPlug(q, c);
      assert Ids(f.other) <= IdsCtx(q);
      if |q| > 1 {
        CtxHas(q, |q| - 2);
        assert q[..|q| - 1][|q| - 2] == q[|q| - 2];
      }
    }
  }

  /**
   * The i-th node in order, found in the tree with its path, its record and its parent's record;
   * in a tree with a black root no red node is its own grandparent (only the header is).
   */
  lemma {:induction false} LocateRecord(t: Tree, h: nat, m: map<nat, Rec>, i: nat) returns (p: seq<Frame>, s: Tree)
    requires Links(t, h, m) && !IsRed(t) && i < |Walk(t)|
    ensures Plug(p, s) == t && s.Node? && s.id == Walk(t)[i].id && |Before(p)| + |Walk(s.left)| == i
    ensures Walk(t) == Before(p) + Walk(s) + After(p) && Walk(s) == Walk(s.left) + [Entry(s.id, s.key)] + Walk(s.right)
    ensures s.id in m && m[s.id] == Rec(s.color, Hole(p, h), Ptr(s.left), Ptr(s.right), s.key)
    ensures s.id != h && Hole(p, h) in m && !(s.color == Red && m[Hole(p, h)].parent == s.id)
    ensures (s.left.Nil? <==> Ptr(s.left) == 0) && (s.right.Nil? <==> Ptr(s.right) == 0)
  {
    p, s := Locate(t, i);
    NodeView(p, s, h, m);
    WalkPlug(p, s);
    if |p| > 1 {
      UniquePlug(p, s);
      CtxHas(p, |p| - 2);
      assert s.id in Ids(s);
    }
  }

  /** The node at the end of a path of length two or more, its parent, grandparent and uncle. */
  lemma {:induction false} Family(q: seq<Frame>, c: Tree, h: nat, m: map<nat, Rec>)
    requires Links(Plug(q, c), h, m) && c.Node? && |q| >= 2
    ensures var f, g := q[|q| - 1], q[|q| - 2];
      && c.id in m && f.id in m && g.id in m && f.id != h && g.id != h
      && m[c.id].parent == f.id && m[f.id].parent == g.id && m[f.id].color == f.color
      && (m[f.id].left == c.id <==> f.toLeft) && (m[f.id].right == c.id <==> !f.toLeft)
      && (m[g.id].left == f.id <==> g.toLeft) && ChildPtr(m[g.id], !g.toLeft) == Ptr(g.other)
      && (Ptr(g.other) != 0 ==> Ptr(g.other) in m && m[Ptr(g.other)].color == g.other.color)
      && (g.other.Node? <==> Ptr(g.other) != 0)
  {
    var n := |q|;
    var f, g := q[n - 1], q[n - 2];
    NodeView(q, c, h, m);
    assert q[..n - 1][n - 2] == g;
    NodeView(q[..n - 1], Wrap(f, c), h, m);
    PlugTwo(q, c);
    SubRepr(q[..n - 2], Wrap(g, Wrap(f, c)), h, m);
    UniquePlug(q[..n - 2], Wrap(g, Wrap(f, c)));
  }
}
