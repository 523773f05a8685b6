// mini::util::rb_tree<int, int, identity, less<int>>: the container of mini_utility_rbtree.h
// with int values that are their own keys. Node memory is the map `nodes` from address to
// record (0 is null); the header node, allocated by init, lives at address `header`. The
// ghost field `tree` is the red-black tree the records hold (see Links), so every operation is
// stated on that value and proved against the functions of RbTreeValues and RbTreeInsert.
// An iterator is the address of its node; a ghost index names its place in the in-order
// sequence, the header (end()) standing after the last element.
module RbTreeContainer {
  import opened RbTreeValues
  import opened RbTreeLinks
  import opened RbTreeInsert

  class RbTree {
    /** Node records by address; get_node hands out `top` and moves it on. */
    var nodes: map<nat, Rec>
    var top: nat
    /** header_ */
    const header: nat
    /** node_count_ */
    var nodeCount: nat
    /** The tree the records hold. */
    ghost var tree: Tree

    /** The records hold `tree` below the header, and every allocated address is below top. */
    ghost predicate Linked()
      reads this
    {
      Links(tree, header, nodes) && forall a :: a in nodes ==> a < top
    }

    /** A red-black search tree whose size is node_count_. */
    ghost predicate Valid()
      reads this
    {
      Linked() && Sorted(Walk(tree)) && RedBlack(tree) && nodeCount == |Walk(tree)|
    }

    /** rb_tree() and init(): an empty tree; the header is red, is its own leftmost and rightmost, and has a null root. */
    constructor ()
      ensures Valid() && tree == Nil && nodeCount == 0
      ensures nodes == map[header := Rec(Red, 0, header, header, 0)]
    {
      header := 1;
      top := 2;
      nodeCount := 0;
      nodes := map[1 := Rec(Red, 0, 1, 1, 0)];
      tree := Nil;
    }

    /** begin(): leftmost(), the first node in order, or the header when the tree is empty. */
    function Begin(): (r: nat)
      reads this
      requires Valid()
      ensures r == if |Walk(tree)| == 0 then header else Walk(tree)[0].id
    {
      nodes[header].left
    }

    /** end(): the header, which holds no element. */
    function End(): (r: nat)
      reads this
      requires Valid()
      ensures r !in Ids(tree) && r in nodes
    {
      header
    }

    /** rightmost(): the last node in order, or the header when the tree is empty. */
    function Rightmost(): (r: nat)
      reads this
      requires Valid()
      ensures r == if |Walk(tree)| == 0 then header else Walk(tree)[|Walk(tree)| - 1].id
    {
      nodes[header].right
    }

    /** root(): the header's parent, null for an empty tree. */
    function Root(): (r: nat)
      reads this
      requires Valid()
      ensures r == 0 <==> tree.Nil?
      ensures tree.Node? ==> r == tree.id
    {
      nodes[header].parent
    }

    /** empty() */
    function Empty(): (b: bool)
      reads this
      requires Valid()
      ensures b <==> Walk(tree) == []
    {
      nodeCount == 0
    }

    /** size() */
    function Size(): (n: nat)
      reads this
      requires Valid()
      ensures n == |Walk(tree)|
    {
      nodeCount
    }

    /** minimum(p): the first node in order of the subtree at x, null when x is null. */
    method Minimum(x: nat, ghost p: seq<Frame>, ghost s: Tree) returns (r: nat)
      requires Linked() && tree == Plug(p, s) && x == Ptr(s)
      ensures r == if s.Nil? then 0 else Walk(s)[0].id
    {
      ghost var c, par := s, Hole(p, header);
      SubRepr(p, s, header, nodes);
      UniquePlug(p, s);
      r := x;
      while r != 0 && nodes[r].left != 0
        invariant Repr(c, par, nodes) && r == Ptr(c) && Unique(c)
        invariant c.Nil? <==> s.Nil?
        invariant c.Node? ==> Walk(c)[0] == Walk(s)[0]
        decreases c
      {
        r := nodes[r].left;
        par, c := c.id, c.left;
      }
    }

    /** maximum(p): the last node in order of the subtree at x, null when x is null. */
    method Maximum(x: nat, ghost p: seq<Frame>, ghost s: Tree) returns (r: nat)
      requires Linked() && tree == Plug(p, s) && x == Ptr(s)
      ensures r == if s.Nil? then 0 else Walk(s)[|Walk(s)| - 1].id
    {
      ghost var c, par := s, Hole(p, header);
      SubRepr(p, s, header, nodes);
      UniquePlug(p, s);
      r := x;
      while r != 0 && nodes[r].right != 0
        invariant Repr(c, par, nodes) && r == Ptr(c) && Unique(c)
        invariant c.Nil? <==> s.Nil?
        invariant c.Node? ==> Walk(c)[|Walk(c)| - 1] == Walk(s)[|Walk(s)| - 1]
        decreases c
      {
        r := nodes[r].right;
        par, c := c.id, c.right;
      }
    }

    /** color(a) = col, for the node a at the end of the path p. */
    method SetColor(a: nat, col: Color, ghost p: seq<Frame>, ghost s: Tree)
      requires Linked() && tree == Plug(p, s) && s.Node? && a == s.id
      modifies this
      ensures a in old(nodes) && nodes == old(nodes)[a := old(nodes)[a].(color := col)]
      ensures nodes.Keys == old(nodes.Keys)
      ensures tree == Plug(p, s.(color := col)) && Linked()
      ensures top == old(top) && nodeCount == old(nodeCount)
    {
      NodeView(p, s, header, nodes);
      RecolorLinks(p, s, col, header, nodes);
      nodes := nodes[a := nodes[a].(color := col)];
      tree := Plug(p, s.(color := col));
    }

    /**
     * The pointer writes of __rb_tree_rotate_left at x, with y its right child and px its
     * parent: y's left child b moves to x's right, y takes x's place below px (as the root when
     * x was the root), and x becomes y's left child.
     */
    method RelinkLeft(x: nat)
      requires x in nodes && header in nodes && nodes[x].right in nodes && nodes[x].parent in nodes
      requires var y, px := nodes[x].right, nodes[x].parent; var b := nodes[y].left;
        && x != y && x != px && y != px && x != header && y != header
        && (b != 0 ==> b in nodes && b != x && b != y && b != px && b != header)
        && (nodes[header].parent == x ==> px == header)
      modifies this
      ensures var y, px := old(nodes[x].right), old(nodes[x].parent); var b := old(nodes[y].left);
        && nodes.Keys == old(nodes.Keys)
        && nodes[x] == old(nodes[x]).(right := b, parent := y)
        && nodes[y] == old(nodes[y]).(parent := px, left := x)
        && (b != 0 ==> nodes[b] == old(nodes[b]).(parent := x))
        && nodes[px] == (if old(nodes[header].parent) == x then old(nodes[px]).(parent := y)
                         else if old(nodes[px].left) == x then old(nodes[px]).(left := y)
                         else old(nodes[px]).(right := y))
        && (forall a :: a in old(nodes) && a != x && a != y && !(b != 0 && a == b) && a != px ==> nodes[a] == old(nodes[a]))
      ensures top == old(top) && nodeCount == old(nodeCount) && tree == old(tree)
    {
      var y := nodes[x].right;
      nodes := nodes[x := nodes[x].(right := nodes[y].left)];
      if nodes[y].left != 0 {
        nodes := nodes[nodes[y].left := nodes[nodes[y].left].(parent := x)];
      }
      nodes := nodes[y := nodes[y].(parent := nodes[x].parent)];
      if x == nodes[header].parent {
        nodes := nodes[header := nodes[header].(parent := y)];
      } else if x == nodes[nodes[x].parent].left {
        nodes := nodes[nodes[x].parent := nodes[nodes[x].parent].(left := y)];
      } else {
        nodes := nodes[nodes[x].parent := nodes[nodes[x].parent].(right := y)];
      }
      nodes := nodes[y := nodes[y].(left := x)];
      nodes := nodes[x := nodes[x].(parent := y)];
    }

    /** The pointer writes of __rb_tree_rotate_right, the mirror image of RelinkLeft. */
    method RelinkRight(x: nat)
      requires x in nodes && header in nodes && nodes[x].left in nodes && nodes[x].parent in nodes
      requires var y, px := nodes[x].left, nodes[x].parent; var b := nodes[y].right;
        && x != y && x != px && y != px && x != header && y != header
        && (b != 0 ==> b in nodes && b != x && b != y && b != px && b != header)
        && (nodes[header].parent == x ==> px == header)
      modifies this
      ensures var y, px := old(nodes[x].left), old(nodes[x].parent); var b := old(nodes[y].right);
        && nodes.Keys == old(nodes.Keys)
        && nodes[x] == old(nodes[x]).(left := b, parent := y)
        && nodes[y] == old(nodes[y]).(parent := px, right := x)
        && (b != 0 ==> nodes[b] == old(nodes[b]).(parent := x))
        && nodes[px] == (if old(nodes[header].parent) == x then old(nodes[px]).(parent := y)
                         else if old(nodes[px].right) == x then old(nodes[px]).(right := y)
                         else old(nodes[px]).(left := y))
        && (forall a :: a in old(nodes) && a != x && a != y && !(b != 0 && a == b) && a != px ==> nodes[a] == old(nodes[a]))
      ensures top == old(top) && nodeCount == old(nodeCount) && tree == old(tree)
    {
      var y := nodes[x].left;
      nodes := nodes[x := nodes[x].(left := nodes[y].right)];
      if nodes[y].right != 0 {
        nodes := nodes[nodes[y].right := nodes[nodes[y].right].(parent := x)];
      }
      nodes := nodes[y := nodes[y].(parent := nodes[x].parent)];
      if x == nodes[header].parent {
        nodes := nodes[header := nodes[header].(parent := y)];
      } else if x == nodes[nodes[x].parent].right {
        nodes := nodes[nodes[x].parent := nodes[nodes[x].parent].(right := y)];
      } else {
        nodes := nodes[nodes[x].parent := nodes[nodes[x].parent].(left := y)];
      }
      nodes := nodes[y := nodes[y].(right := x)];
      nodes := nodes[x := nodes[x].(parent := y)];
    }

    /**
     * __rb_tree_rotate_left(x, root), for the node x at the end of the path p: the records then
     * hold the tree rotated at x, with the same in-order sequence, and the root is updated when
     * x was the root.
     */
    method RotateLeft(x: nat, ghost p: seq<Frame>, ghost s: Tree)
      requires Linked() && tree == Plug(p, s) && s.Node? && s.right.Node? && x == s.id
      modifies this
      ensures tree == Plug(p, RbTreeValues.RotateLeft(s)) && Linked() && Walk(tree) == Walk(old(tree))
      ensures nodes.Keys == old(nodes.Keys) && top == old(top) && nodeCount == old(nodeCount)
      ensures |p| == 0 ==> nodes[header].parent == s.right.id
    {
      ghost var m := nodes;
      NodeView(p, s, header, nodes);
      ghost var bt := s.right.left;
      assert s.right.id in Ids(s) && (bt.Node? ==> bt.id in Ids(s) && bt.id != s.right.id);
      assert Repr(s.right, x, m) && Repr(bt, s.right.id, m) && Unique(s.right) && Unique(bt);
      RelinkLeft(x);
      RotateLeftLinks(p, s, header, m, nodes);
      RotateLeftKeeps(s);
      PlugKeeps(p, s, RbTreeValues.RotateLeft(s));
      tree := Plug(p, RbTreeValues.RotateLeft(s));
    }

    /** __rb_tree_rotate_right(x, root), the mirror image of RotateLeft. */
    method RotateRight(x: nat, ghost p: seq<Frame>, ghost s: Tree)
      requires Linked() && tree == Plug(p, s) && s.Node? && s.left.Node? && x == s.id
      modifies this
      ensures tree == Plug(p, RbTreeValues.RotateRight(s)) && Linked() && Walk(tree) == Walk(old(tree))
      ensures nodes.Keys == old(nodes.Keys) && top == old(top) && nodeCount == old(nodeCount)
      ensures |p| == 0 ==> nodes[header].parent == s.left.id
    {
      ghost var m := nodes;
      NodeView(p, s, header, nodes);
      ghost var bt := s.left.right;
      assert s.left.id in Ids(s) && (bt.Node? ==> bt.id in Ids(s) && bt.id != s.left.id);
      assert Repr(s.left, x, m) && Repr(bt, s.left.id, m) && Unique(s.left) && Unique(bt);
      RelinkRight(x);
      RotateRightLinks(p, s, header, m, nodes);
      RotateRightKeeps(s);
      PlugKeeps(p, s, RbTreeValues.RotateRight(s));
      tree := Plug(p, RbTreeValues.RotateRight(s));
    }

    // ------------------------------------------------------------ __rb_tree_rebalance

    /**
     * Case "uncle is red" (lines 479-482 and 505-508): the parent and the uncle y turn black,
     * the grandparent red, and node moves up to the grandparent.
     */
    method RecolourCase(x: nat, y: nat, ghost q: seq<Frame>, ghost c: Tree) returns (x': nat, ghost q': seq<Frame>, ghost c': Tree)
      requires Linked() && tree == Plug(q, c) && Fixing(q, c) && x == c.id
      requires |q| >= 2 && q[|q| - 1].color == Red && IsRed(q[|q| - 2].other) && y == q[|q| - 2].other.id
      modifies this
      ensures Linked() && tree == Plug(q', c') && Fixing(q', c') && x' == c'.id && |q'| == |q| - 2
      ensures Rebalanced(q', c') == Rebalanced(q, c)
      ensures nodes.Keys == old(nodes.Keys) && top == old(top) && nodeCount == old(nodeCount)
    {
      ghost var n := |q|;
      ghost var g, f := q[n - 2], q[n - 1];
      ghost var f', u' := f.(color := Black), g.other.(color := Black);
      Family(q, c, header, nodes);
      RecolourPaths(q, c);
      var xp := nodes[x].parent;
      var xpp := nodes[xp].parent;
      SetColor(xp, Black, q[..n - 1], Wrap(f, c));
      SetColor(y, Black, q[..n - 2] + [Sibling(g, Wrap(f', c))], g.other);
      SetColor(xpp, Red, q[..n - 2], Wrap(g.(other := u'), Wrap(f', c)));
      x' := xpp;
      q', c' := q[..n - 2], Recoloured(g, f, c);
      UncleRedStep(q, c);
    }

    /**
     * Inner insertion, uncle not red (lines 487-491 and 510-513): node moves up to its parent
     * and the tree is rotated there, away from the grandparent's side `left`.
     */
    method InnerCase(x: nat, left: bool, ghost q: seq<Frame>, ghost c: Tree) returns (x': nat, ghost q': seq<Frame>, ghost c': Tree)
      requires Linked() && tree == Plug(q, c) && Fixing(q, c) && x == c.id
      requires |q| >= 2 && q[|q| - 1].color == Red && !IsRed(q[|q| - 2].other)
      requires q[|q| - 1].toLeft != q[|q| - 2].toLeft && left == q[|q| - 2].toLeft
      modifies this
      ensures Linked() && tree == Plug(q', c') && Fixing(q', c') && x' == c'.id && |q'| == |q|
      ensures q'[|q| - 1].color == Red && !IsRed(q'[|q| - 2].other)
      ensures q'[|q| - 1].toLeft == left && q'[|q| - 2].toLeft == left
      ensures Rebalanced(q', c') == Rebalanced(q, c)
      ensures nodes.Keys == old(nodes.Keys) && top == old(top) && nodeCount == old(nodeCount)
    {
      ghost var n := |q|;
      ghost var g, f := q[n - 2], q[n - 1];
      Family(q, c, header, nodes);
      InnerStep(q, c);
      InnerRebalanced(q, c);
      x' := nodes[x].parent;
      if left {
        RotateLeft(x', q[..n - 1], Wrap(f, c));
      } else {
        RotateRight(x', q[..n - 1], Wrap(f, c));
      }
      q', c' := q[..n - 1] + [InnerFrame(g, c)], Wrap(f, Child(c, g.toLeft));
      PlugPush(q[..n - 1], InnerFrame(g, c), c');
    }

    /**
     * Outer insertion, uncle not red (lines 494-496 and 515-517): the parent turns black, the
     * grandparent red, and the tree is rotated at the grandparent towards its side `left`.
     */
    method OuterCase(x: nat, left: bool, ghost q: seq<Frame>, ghost c: Tree) returns (ghost q': seq<Frame>)
      requires Linked() && tree == Plug(q, c) && Fixing(q, c) && x == c.id
      requires |q| >= 2 && q[|q| - 1].color == Red && !IsRed(q[|q| - 2].other)
      requires q[|q| - 1].toLeft == left && q[|q| - 2].toLeft == left
      modifies this
      ensures Linked() && tree == Plug(q', c) && Fixing(q', c) && |q'| == |q| - 1
      ensures q'[|q'| - 1].color == Black && Rebalanced(q', c) == Rebalanced(q, c)
      ensures nodes.Keys == old(nodes.Keys) && top == old(top) && nodeCount == old(nodeCount)
    {
      ghost var n := |q|;
      ghost var g, f := q[n - 2], q[n - 1];
      ghost var r := q[..n - 2];
      Family(q, c, header, nodes);
      OuterStep(q, c);
      OuterRebalanced(q, c);
      assert q[..n - 1][..n - 2] == r && q[..n - 1][n - 2] == g;
      var xp := nodes[x].parent;
      var xpp := nodes[xp].parent;
      SetColor(xp, Black, q[..n - 1], Wrap(f, c));
      SetColor(xpp, Red, r, Wrap(g, Wrap(f.(color := Black), c)));
      if left {
        RotateRight(xpp, r, Wrap(g.(color := Red), Wrap(f.(color := Black), c)));
      } else {
        RotateLeft(xpp, r, Wrap(g.(color := Red), Wrap(f.(color := Black), c)));
      }
      q' := r + [OuterFrame(g, f)];
      PlugPush(r, OuterFrame(g, f), c);
    }

    /** One turn of the loop of __rb_tree_rebalance, on a node whose parent is red. */
    method RebalanceStep(x: nat, ghost q: seq<Frame>, ghost c: Tree) returns (x': nat, ghost q': seq<Frame>, ghost c': Tree)
      requires Linked() && tree == Plug(q, c) && Fixing(q, c) && x == c.id
      requires |q| > 0 && q[|q| - 1].color == Red
      modifies this
      ensures Linked() && tree == Plug(q', c') && Fixing(q', c') && x' == c'.id && |q'| < |q|
      ensures Rebalanced(q', c') == Rebalanced(q, c)
      ensures nodes.Keys == old(nodes.Keys) && top == old(top) && nodeCount == old(nodeCount)
    {
      ParentRed(q, c);
      Family(q, c, header, nodes);
      var xp := nodes[x].parent;
      var xpp := nodes[xp].parent;
      if xp == nodes[xpp].left {
        var y := nodes[xpp].right;
        if y != 0 && nodes[y].color == Red {
          x', q', c' := RecolourCase(x, y, q, c);
        } else {
          x', q', c' := x, q, c;
          if x == nodes[xp].right {
            x', q', c' := InnerCase(x, true, q, c);
          }
          q' := OuterCase(x', true, q', c');
        }
      } else {
        var y := nodes[xpp].left;
        if y != 0 && nodes[y].color == Red {
          x', q', c' := RecolourCase(x, y, q, c);
        } else {
          x', q', c' := x, q, c;
          if x == nodes[xp].left {
            x', q', c' := InnerCase(x, false, q, c);
          }
          q' := OuterCase(x', false, q', c');
        }
      }
    }

    /**
     * __rb_tree_rebalance(x, root) for the node x just hung at the end of the path p: x turns
     * red, the loop runs while x's parent is red, and the root turns black. The tree is then the
     * red-black tree Rebalanced describes, with the same in-order sequence.
     */
    method Rebalance(x: nat, ghost p: seq<Frame>, ghost s: Tree)
      requires Linked() && tree == Plug(p, s) && s.Node? && x == s.id && Fixing(p, s.(color := Red))
      modifies this
      ensures Linked() && tree == Blacken(Rebalanced(p, s.(color := Red)))
      ensures RedBlack(tree) && Walk(tree) == Walk(old(tree))
      ensures nodes.Keys == old(nodes.Keys) && top == old(top) && nodeCount == old(nodeCount)
    {
      ghost var c := s.(color := Red);
      RebalancedFixes(p, c);
      WalkPlug(p, s);
      WalkPlug(p, c);
      SetColor(x, Red, p, s);
      ghost var q := p;
      var node := x;
      NodeView(q, c, header, nodes);
      while node != nodes[header].parent && nodes[nodes[node].parent].color == Red
        invariant Linked() && tree == Plug(q, c) && Fixing(q, c) && node == c.id
        invariant node in nodes && nodes[node].parent in nodes
        invariant |q| == 0 <==> node == nodes[header].parent
        invariant |q| > 0 ==> nodes[nodes[node].parent].color == q[|q| - 1].color
        invariant Rebalanced(q, c) == Rebalanced(p, s.(color := Red))
        invariant nodes.Keys == old(nodes.Keys) && top == old(top) && nodeCount == old(nodeCount)
        decreases |q|
      {
        node, q, c := RebalanceStep(node, q, c);
        NodeView(q, c, header, nodes);
      }
      if |q| > 0 {
        RootPlug(q, c);
      }
      ghost var t0 := tree;
      assert Rebalanced(q, c) == t0;
      SetColor(nodes[header].parent, Black, [], tree);
      assert tree == Blacken(t0);
    }

    // ------------------------------------------------------------ insertion and search

    /**
     * The first half of __insert: create_node takes the fresh address top (its colour is left
     * for the rebalance to set; Black stands for the unset value), and z becomes y's left child
     * when y is the header, x is not null or the key is less than y's, else y's right child;
     * the header's root, leftmost and rightmost follow.
     */
    method LinkNode(x: nat, y: nat, v: int) returns (z: nat)
      requires header in nodes && y in nodes && forall a :: a in nodes ==> a < top
      modifies this
      ensures z == old(top) && top == old(top) + 1 && nodes.Keys == old(nodes.Keys) + {z}
      ensures var left := y == header || x != 0 || v < old(nodes[y].key);
        && nodes[z] == Rec(Black, y, 0, 0, v)
        && (y == header ==> nodes[header] == old(nodes[header]).(parent := z, left := z, right := z))
        && (y != header ==> nodes[y] == Relink(old(nodes[y]), left, z))
        && (y != header ==> nodes[header] == old(nodes[header]).(
              left := if left && old(nodes[header].left) == y then z else old(nodes[header].left),
              right := if !left && old(nodes[header].right) == y then z else old(nodes[header].right)))
        && forall a :: a in old(nodes) && a != y && a != header ==> nodes[a] == old(nodes[a])
      ensures nodeCount == old(nodeCount) && tree == old(tree)
    {
      z := top;
      top := top + 1;
      nodes := nodes[z := Rec(Black, 0, 0, 0, v)];
      if y == header || x != 0 || v < nodes[y].key {
        nodes := nodes[y := nodes[y].(left := z)];
        if y == header {
          nodes := nodes[header := nodes[header].(parent := z)];
          nodes := nodes[header := nodes[header].(right := z)];
        } else if y == nodes[header].left {
          nodes := nodes[header := nodes[header].(left := z)];
        }
      } else {
        nodes := nodes[y := nodes[y].(right := z)];
        if y == nodes[header].right {
          nodes := nodes[header := nodes[header].(right := z)];
        }
      }
      nodes := nodes[z := nodes[z].(parent := y)];
      nodes := nodes[z := nodes[z].(left := 0)];
      nodes := nodes[z := nodes[z].(right := 0)];
    }

    /**
     * LinkNode justified: the records now hold the tree with the new node hung at the hole the
     * path p ends in, on the side the comparison at y chose.
     */
    method Hang(x: nat, y: nat, v: int, ghost p: seq<Frame>) returns (z: nat)
      requires Linked() && Plug(p, Nil) == tree && x == 0 && y == Hole(p, header)
      requires |p| > 0 ==> p[|p| - 1].toLeft == (v < p[|p| - 1].key)
      modifies this
      ensures Linked() && z == old(top) && z !in Ids(old(tree)) && 0 < z
      ensures tree == Plug(p, Node(Black, Nil, z, v, Nil))
      ensures top == old(top) + 1 && nodes.Keys == old(nodes.Keys) + {z} && nodeCount == old(nodeCount)
    {
      ghost var m := nodes;
      if |p| > 0 {
        NodeView(p[..|p| - 1], Wrap(p[|p| - 1], Nil), header, nodes);
      }
      z := LinkNode(x, y, v);
      AttachLinks(p, z, v, Black, header, m, nodes);
      tree := Plug(p, Node(Black, Nil, z, v, Nil));
    }

    /**
     * __insert(x, y, v) where the descent for v stopped: x is the null child of y it reached,
     * p the path it took. The tree becomes InsertTree's, the new entry sits at the strict rank
     * of v in the in-order sequence, and node_count_ grows by one.
     */
    method Insert(x: nat, y: nat, v: int, ghost p: seq<Frame>) returns (r: nat)
      requires Valid() && x == 0 && p == Descend(tree, v, true) && y == Hole(p, header)
      modifies this
      ensures Valid() && r == old(top) && tree == InsertTree(old(tree), r, v)
      ensures var w := old(Walk(tree)); var i := Rank(w, v, true);
        Walk(tree) == w[..i] + [Entry(r, v)] + w[i..]
      ensures nodeCount == old(nodeCount) + 1 && top == old(top) + 1 && nodes.Keys == old(nodes.Keys) + {r}
    {
      ghost var t := tree;
      DescendRank(t, v, true);
      DescendTurn(t, v, true);
      var z := Hang(x, y, v, p);
      StartFixing(p, z, v);
      Rebalance(z, p, Node(Black, Nil, z, v, Nil));
      nodeCount := nodeCount + 1;
      InsertTreeSpec(t, z, v);
      r := z;
    }

    /**
     * The descent loop of insert_equal and insert_unique: from the root, go left when v is
     * smaller than the node's key and right otherwise, until a null child; y is its parent and
     * comp the last comparison (true when the tree is empty).
     */
    method Descent(v: int) returns (y: nat, x: nat, comp: bool, ghost q: seq<Frame>)
      requires Valid()
      ensures x == 0 && q == Descend(tree, v, true) && y == Hole(q, header)
      ensures comp <==> |q| == 0 || q[|q| - 1].toLeft
    {
      y := header;
      x := nodes[header].parent;
      comp := true;
      ghost var c;
      q, c := [], tree;
      while x != 0
        invariant Plug(q, c) == tree && x == Ptr(c) && Unique(c) && y == Hole(q, header)
        invariant DescendFrom(q, c, v, true) == Descend(tree, v, true)
        invariant comp <==> |q| == 0 || q[|q| - 1].toLeft
        decreases c
      {
        NodeView(q, c, header, nodes);
        ghost var f := StepFrame(c, v, true);
        y := x;
        comp := v < nodes[x].key;
        x := if comp then nodes[x].left else nodes[x].right;
        PlugPush(q, f, Child(c, f.toLeft));
        q, c := q + [f], Child(c, f.toLeft);
      }
    }

    /** insert_equal(v): descend, equal keys going right, and insert where the descent stops. */
    method InsertEqual(v: int) returns (r: nat)
      requires Valid()
      modifies this
      ensures Valid() && r == old(top) && tree == InsertTree(old(tree), r, v)
      ensures var w := old(Walk(tree)); var i := Rank(w, v, true);
        Walk(tree) == w[..i] + [Entry(r, v)] + w[i..]
      ensures nodeCount == old(nodeCount) + 1
    {
      var parent, node, _, q := Descent(v);
      r := Insert(node, parent, v, q);
    }

    /**
     * insert_unique(v): the same descent, then the node before the hole in order (the parent,
     * or its predecessor when the hole is a left child) decides: a smaller key means v is new
     * and is inserted; otherwise that node has key v, and it is returned with false and the tree
     * unchanged.
     */
    method InsertUnique(v: int) returns (r: nat, inserted: bool)
      requires Valid()
      modifies this
      ensures Valid() && tree == InsertUniqueTree(old(tree), old(top), v)
      ensures inserted <==> !HasKey(old(Walk(tree)), v)
      ensures inserted ==> r == old(top) && nodeCount == old(nodeCount) + 1
      ensures !inserted ==> nodes == old(nodes) && top == old(top) && nodeCount == old(nodeCount)
      ensures !inserted ==> var w := old(Walk(tree)); var i := Rank(w, v, true);
        0 < i && r == w[i - 1].id && w[i - 1].key == v
    {
      var parent, node, comp, q := Descent(v);
      ghost var w := Walk(tree);
      ghost var i := Rank(w, v, true);
      UniqueStop(tree, v);
      WalkRecords(tree, header, nodes);
      var j := parent;
      if comp {
        if j == nodes[header].left {
          r := Insert(node, parent, v, q);
          inserted := true;
          return;
        }
        j := Decrement(j, i);
      }
      if nodes[j].key < v {
        r := Insert(node, parent, v, q);
        inserted := true;
        return;
      }
      r, inserted := j, false;
    }

    /**
     * find(k): descend, going left when the node's key is not less than k, and remember the last
     * node where it went left: the first node with a key not less than k. It is the result when
     * its key is k; otherwise end().
     */
    method Find(k: int) returns (r: nat)
      requires Valid()
      ensures HasKey(Walk(tree), k) <==> r != header
      ensures r != header ==> var w, i := Walk(tree), Rank(Walk(tree), k, false);
        i < |w| && r == w[i].id && r in nodes && nodes[r].key == k
    {
      var y := header;
      var x := nodes[header].parent;
      ghost var q, c := [], tree;
      while x != 0
        invariant Plug(q, c) == tree && x == Ptr(c) && Unique(c)
        invariant DescendFrom(q, c, k, false) == Descend(tree, k, false)
        invariant y == if |After(q)| == 0 then header else After(q)[0].id
        decreases c
      {
        NodeView(q, c, header, nodes);
        ghost var f := StepFrame(c, k, false);
        if !(nodes[x].key < k) {
          y := x;
          x := nodes[x].left;
        } else {
          x := nodes[x].right;
        }
        PlugPush(q, f, Child(c, f.toLeft));
        assert (q + [f])[..|q|] == q;
        q, c := q + [f], Child(c, f.toLeft);
      }
      FindStop(tree, k);
      WalkRecords(tree, header, nodes);
      WalkInIds(tree);
      if y == header || k < nodes[y].key {
        r := header;
      } else {
        r := y;
      }
    }

    // ------------------------------------------------------------ iterator steps

    /**
     * __rb_tree_iterator_base::increment from the i-th node in order: the leftmost node of the
     * right subtree when there is one, else the first ancestor reached from a left child. From
     * the last node the climb ends at the header, end().
     */
    method Increment(x: nat, ghost i: nat) returns (y: nat)
      requires Valid() && i < |Walk(tree)| && x == Walk(tree)[i].id
      ensures y == if i + 1 < |Walk(tree)| then Walk(tree)[i + 1].id else header
    {
      ghost var w := Walk(tree);
      ghost var p, s := LocateRecord(tree, header, nodes, i);
      if nodes[x].right != 0 {
        ghost var f := Frame(false, s.color, s.id, s.key, s.left);
        PlugPush(p, f, s.right);
        y := Minimum(nodes[x].right, p + [f], s.right);
        assert w[i + 1] == Walk(s.right)[0];
      } else {
        var node := x;
        var parent := nodes[x].parent;
        ghost var q, c := p, s;
        assert Walk(s) == Walk(s.left) + [Entry(s.id, s.key)];
        while node == nodes[parent].right
          invariant parent in nodes && node in nodes
          invariant node != header ==>
            && Plug(q, c) == tree && c.Node? && node == c.id
            && parent == Hole(q, header) && |Before(q)| + |Walk(c)| == i + 1
          invariant node == header ==> parent == Ptr(tree) && parent == nodes[header].right && i + 1 == |w|
          decreases if node == header then 0 else |q| + 1
        {
          if node == header {
            NodeView([], tree, header, nodes);
            assert false;
          }
          NodeView(q, c, header, nodes);
          node := parent;
          parent := nodes[parent].parent;
          if |q| > 0 {
            ghost var f := q[|q| - 1];
            assert !f.toLeft;
            assert Links(Plug(q[..|q| - 1], Wrap(f, c)), header, nodes);
            q, c := q[..|q| - 1], Wrap(f, c);
          }
        }
        if node != header {
          NodeView(q, c, header, nodes);
          WalkPlug(q, c);
          UniquePlug(q, c);
          if |q| > 0 {
            HoleNeighbours(q);
            assert w[i + 1] == After(q)[0];
          }
        }
        if nodes[node].right != parent {
          node := parent;
        }
        y := node;
      }
    }

    /**
     * __rb_tree_iterator_base::decrement from position i in order (i == |w| is end(), the
     * header): the header, red and its own grandparent, steps to the rightmost node; a node with
     * a left subtree to that subtree's rightmost node; else the first ancestor reached from a
     * right child.
     */
    method Decrement(x: nat, ghost i: nat) returns (y: nat)
      requires Valid() && 0 < i <= |Walk(tree)|
      requires x == if i == |Walk(tree)| then header else Walk(tree)[i].id
      ensures y == Walk(tree)[i - 1].id
    {
      if i == |Walk(tree)| {
        NodeView([], tree, header, nodes);
        WalkInIds(tree);
      } else {
        ghost var p, s := LocateRecord(tree, header, nodes, i);
      }
      if nodes[x].color == Red && x == nodes[nodes[x].parent].parent {
        y := nodes[x].right;
      } else {
        y := DecrementNode(x, i);
      }
    }

    /** The two branches of decrement taken from the i-th node in order, not the header. */
    method DecrementNode(x: nat, ghost i: nat) returns (y: nat)
      requires Valid() && 0 < i < |Walk(tree)| && x == Walk(tree)[i].id
      ensures y == Walk(tree)[i - 1].id
    {
      ghost var w := Walk(tree);
      ghost var p, s := LocateRecord(tree, header, nodes, i);
      if nodes[x].left != 0 {
        ghost var f := Frame(true, s.color, s.id, s.key, s.right);
        PlugPush(p, f, s.left);
        y := Maximum(nodes[x].left, p + [f], s.left);
        assert w[i - 1] == Walk(s.left)[|Walk(s.left)| - 1];
      } else {
        var node := x;
        var parent := nodes[x].parent;
        ghost var q, c := p, s;
        assert Walk(s.left) == [];
        while node == nodes[parent].left
          invariant parent in nodes && node in nodes
          invariant Plug(q, c) == tree && c.Node? && node == c.id
          invariant parent == Hole(q, header) && |Before(q)| == i
          decreases |q|
        {
          NodeView(q, c, header, nodes);
          ghost var f := q[|q| - 1];
          node := parent;
          parent := nodes[parent].parent;
          q, c := q[..|q| - 1], Wrap(f, c);
        }
        NodeView(q, c, header, nodes);
        HoleNeighbours(q);
        WalkPlug(q, c);
        assert w[i - 1] == Before(q)[|Before(q)| - 1];
        y := parent;
      }
    }
  }
}
