/**
 * The red-black trees of lib/rbtree.c and include/rbtree.h. A struct rb_root
 * and the rb_node structures hanging from it are an RbRoot: node is
 * root->node, and left, right, parent and color hold, for each node of the
 * arena, its left and right links and the two halves of par_color (NIL
 * stands for NULL). The ghost tree is the shape the links describe. Each
 * method follows its C function statement by statement; the colour cases of
 * the two fix-up loops are the lemmas of RedBlack, and the order the keys
 * keep is that of Order.
 */
module RbTree {
  import opened Arena
  import opened RedBlack
  import opened Order

  /** The link rb_link_node stores a new node in: root->node, parent->left or parent->right. */
  datatype Link = RootLink | LeftOf(n: nat) | RightOf(n: nat)

  /** The link standing for the place a path leads to. */
  function LinkOf(p: Path): Link
  {
    if p.Top? then RootLink else if p.holeLeft then LeftOf(p.id) else RightOf(p.id)
  }

  class RbRoot {
    var left: seq<int>
    var right: seq<int>
    var parent: seq<int>
    var color: seq<Color>
    /** root->node */
    var node: int
    ghost var tree: Tree

    /** The links describe tree, hung below NULL, and root->node is its top. */
    ghost predicate Linked()
      reads this
    {
      |right| == |left| && |parent| == |left| && |color| == |left| &&
      Shaped(left, right, parent, tree, NIL) && node == Root(tree)
    }

    /** A red-black tree. */
    ghost predicate Valid()
      reads this
    {
      Linked() && RedBlack.RedBlack(color, tree)
    }

    /** The keys K[x] of the nodes decrease along the symmetric order, as rb_find and rb_insert keep them. */
    ghost predicate Ordered(K: seq<int>)
      reads this
    {
      Descending(K, Inorder(tree))
    }

    /** RB_ROOT: an empty tree over an arena of n nodes. */
    constructor (n: nat)
      ensures Valid() && tree == Leaf && node == NIL && |left| == n
    {
      left := seq(n, _ => NIL);
      right := seq(n, _ => NIL);
      parent := seq(n, _ => NIL);
      color := seq(n, _ => Black);
      node := NIL;
      tree := Leaf;
    }

    /** rb_set_parent: the parent half of par_color. */
    method SetParent(x: nat, v: int)
      requires x < |parent|
      modifies this
      ensures parent == old(parent)[x := v]
      ensures left == old(left) && right == old(right) && color == old(color) && node == old(node) && tree == old(tree)
    {
      parent := parent[x := v];
    }

    /** rb_set_color, and rb_set_red and rb_set_black with Red and Black: the colour half of par_color. */
    method SetColor(x: nat, c: Color)
      requires x < |color|
      modifies this
      ensures color == old(color)[x := c]
      ensures left == old(left) && right == old(right) && parent == old(parent) && node == old(node) && tree == old(tree)
    {
      color := color[x := c];
    }

    /**
     * RB_EMPTY_NODE: the node is its own parent, the mark RB_CLEAR_NODE
     * leaves; no node of a well-linked tree carries it.
     */
    predicate EmptyNode(x: nat): (r: bool)
      requires x < |parent|
      reads this
      ensures r && Linked() ==> x !in Nodes(tree)
    {
      assert Linked() && x in Nodes(tree) ==> parent[x] != x by {
        if Linked() && x in Nodes(tree) {
          InTreeNotEmpty(x);
        }
      }
      parent[x] == x
    }

    /** RB_CLEAR_NODE: make the node its own parent, which no node of the tree is. */
    method ClearNode(x: nat)
      requires x < |parent|
      modifies this
      ensures parent == old(parent)[x := x] && EmptyNode(x)
      ensures left == old(left) && right == old(right) && color == old(color) && node == old(node) && tree == old(tree)
      ensures old(Linked()) && x !in Nodes(tree) ==> Linked()
    {
      ghost var P := parent;
      SetParent(x, x);
      if old(Linked()) && x !in Nodes(tree) {
        NodesBelow(left, right, P, tree);
        SameUpdate(P, x, x, Nodes(tree));
        ShapedFrame(left, right, P, left, right, parent, tree, NIL, Nodes(tree));
      }
    }

    /** The links of the tree's nodes stay within the tree: every store through them writes a node of the tree. */
    lemma {:induction false} Closed()
      requires Linked()
      ensures forall y :: y in Nodes(tree) ==>
        y < |left| && (left[y] == NIL || left[y] in Nodes(tree)) &&
        (right[y] == NIL || right[y] in Nodes(tree)) && (parent[y] == NIL || parent[y] in Nodes(tree))
    {
      LinksClosed(left, right, parent, tree, NIL);
    }

    /** A linked node is not empty in the sense of RB_EMPTY_NODE. */
    lemma {:induction false} InTreeNotEmpty(x: nat)
      requires Linked() && x in Nodes(tree)
      ensures x < |parent| && parent[x] != x
    {
      ParentNotSelf(left, right, parent, tree, x);
    }

    /**
     * rb_link_node: x, red and without children, is hung from par at link,
     * the place where the path p from the top ends in a NULL link.
     */
    method LinkNode(x: nat, par: int, link: Link, ghost p: Path)
      requires Linked() && tree == Plug(p, Leaf) && x < |left| && x !in Nodes(tree)
      requires par == HoleParent(p, NIL) && link == LinkOf(p)
      modifies this
      ensures Linked() && tree == Plug(p, Node(Leaf, x, Leaf)) && color == old(color)[x := Red]
      ensures Kept(old(left), old(right), old(parent), old(color), left, right, parent, color, old(Nodes(tree)) + {x})
    {
      ghost var L, R, P := left, right, parent;
      if p.Up? {
        HoleLinks(L, R, P, p, Leaf, NIL);
        PlugNodes(p, Leaf);
        assert p.id in PathNodes(p);
      }
      parent := parent[x := par];
      color := color[x := Red];
      left := left[x := NIL];
      right := right[x := NIL];
      match link {
        case RootLink =>
          node := x;
        case LeftOf(n) =>
          left := left[n := x];
        case RightOf(n) =>
          right := right[n := x];
      }
      LinkLeafShaped(L, R, P, left, right, parent, p, x);
      tree := Plug(p, Node(Leaf, x, Leaf));
      if p.Up? {
        PlugTop(p, Leaf, Node(Leaf, x, Leaf));
      }
    }

    /** __rb_rotate_left: x's right child y takes x's place, x becomes y's left child, y's old left subtree x's right. */
    method RotateLeft(x: nat, ghost p: Path, ghost a: Tree, ghost b: Tree, ghost y: nat, ghost c: Tree)
      requires Linked() && tree == Plug(p, Node(a, x, Node(b, y, c)))
      modifies this
      ensures Linked() && tree == Plug(p, Node(Node(a, x, b), y, c)) && color == old(color)
      ensures Inorder(tree) == old(Inorder(tree)) && Nodes(tree) == old(Nodes(tree))
      ensures Kept(old(left), old(right), old(parent), old(color), left, right, parent, color, old(Nodes(tree)))
    {
      ghost var L, R, P := left, right, parent;
      RotateLeftReads(L, R, P, p, a, x, b, y, c);
      var r := right[x];
      var par := parent[x];
      var rl := left[r];
      right := right[x := rl];
      if rl != NIL {
        SetParent(rl, x);
      }
      left := left[r := x];
      SetParent(r, par);
      if par != NIL {
        if x == left[par] {
          left := left[par := r];
        } else {
          right := right[par := r];
        }
      } else {
        node := r;
      }
      SetParent(x, r);
      RotateLeftLinks(L, R, P, left, right, parent, p, a, x, b, y, c);
      RotateLeftKept(L, R, P, color, left, right, parent, p, a, x, b, y, c);
      tree := Plug(p, Node(Node(a, x, b), y, c));
      RotateSame(p, a, x, b, y, c);
      if p.Up? {
        PlugTop(p, Node(a, x, Node(b, y, c)), Node(Node(a, x, b), y, c));
      }
    }

    /** __rb_rotate_right: x's left child y takes x's place, x becomes y's right child, y's old right subtree x's left. */
    method RotateRight(x: nat, ghost p: Path, ghost a: Tree, ghost y: nat, ghost b: Tree, ghost c: Tree)
      requires Linked() && tree == Plug(p, Node(Node(a, y, b), x, c))
      modifies this
      ensures Linked() && tree == Plug(p, Node(a, y, Node(b, x, c))) && color == old(color)
      ensures Inorder(tree) == old(Inorder(tree)) && Nodes(tree) == old(Nodes(tree))
      ensures Kept(old(left), old(right), old(parent), old(color), left, right, parent, color, old(Nodes(tree)))
    {
      ghost var L, R, P := left, right, parent;
      RotateRightReads(L, R, P, p, a, y, b, x, c);
      var l := left[x];
      var par := parent[x];
      var lr := right[l];
      left := left[x := lr];
      if lr != NIL {
        SetParent(lr, x);
      }
      right := right[l := x];
      SetParent(l, par);
      if par != NIL {
        if x == right[par] {
          right := right[par := l];
        } else {
          left := left[par := l];
        }
      } else {
        node := l;
      }
      SetParent(x, l);
      RotateRightLinks(L, R, P, left, right, parent, p, a, y, b, x, c);
      RotateRightKept(L, R, P, color, left, right, parent, p, a, y, b, x, c);
      tree := Plug(p, Node(a, y, Node(b, x, c)));
      RotateSame(p, a, y, b, x, c);
      if p.Up? {
        PlugTop(p, Node(Node(a, y, b), x, c), Node(a, y, Node(b, x, c)));
      }
    }

    /**
     * The state inside rb_insert_color's loop: n, red, tops the subtree s the
     * path p leads to; s is balanced at h and so is everything around it, save
     * that n's parent may be red as well.
     */
    ghost predicate Fixing(n: nat, p: Path, s: Tree, h: int)
      reads this
    {
      Linked() && tree == Plug(p, s) && s.Node? && s.id == n &&
      IsRed(color, s) && Balanced(color, s, h) && Context(color, p, h, true, true)
    }

    /** The uncle is red: the parent and the uncle turn black, the grandparent red, and the repair moves up to it. */
    method InsertRecolor(n: nat, par: nat, g: nat, uncle: nat, ghost p: Path, ghost s: Tree, ghost h: int)
      requires Fixing(n, p, s, h) && p.Up? && p.above.Up? && par == p.id && g == p.above.id && Col(color, par) == Red
      requires p.above.other.Node? && uncle == p.above.other.id && Col(color, uncle) == Red
      modifies this
      ensures Fixing(g, p.above.above, Attach(p.above, Attach(p, s)), h + 1) && tree == old(tree)
      ensures Kept(old(left), old(right), old(parent), old(color), left, right, parent, color, old(Nodes(tree)))
    {
      GrandLinks(left, right, parent, p, s);
      PlugNodes(p, s);
      assert uncle in Nodes(p.above.other);
      ghost var C := color;
      SetColor(uncle, Black);
      SetColor(par, Black);
      SetColor(g, Red);
      InsRecolor(C, p, s, h);
      assert tree == Plug(p.above, Attach(p, s));
      assert tree == Plug(p.above.above, Attach(p.above, Attach(p, s)));
    }

    /**
     * The parent is a left child and the uncle black: a node that is its
     * parent's right child is rotated up first, then the parent turns black,
     * the grandparent red, and a right rotation at the grandparent ends the
     * repair.
     */
    method InsertRotateRight(n: nat, par: nat, g: nat, ghost p: Path, ghost s: Tree, ghost h: int)
        returns (n2: nat, ghost p2: Path, ghost s2: Tree)
      requires Fixing(n, p, s, h) && p.Up? && p.above.Up? && p.above.holeLeft && par == p.id && g == p.above.id
      requires Col(color, par) == Red && !IsRed(color, p.above.other)
      modifies this
      ensures Fixing(n2, p2, s2, h) && Depth(p2) < Depth(p) && p2.Up? && Col(color, p2.id) == Black
      ensures Inorder(tree) == old(Inorder(tree)) && Nodes(tree) == old(Nodes(tree))
      ensures Kept(old(left), old(right), old(parent), old(color), left, right, parent, color, old(Nodes(tree)))
    {
      ghost var L0, R0, P0, C0, S := left, right, parent, color, Nodes(tree);
      GrandLinks(left, right, parent, p, s);
      PlugNodes(p, s);
      assert n in Nodes(s);
      var node, parent' := n, par;
      ghost var q, t := p, s;
      if right[par] == n {
        RotateLeft(par, p.above, p.other, s.l, n, s.r);
        InsPreLeft(color, p, s, h);
        q, t := Up(true, n, s.r, p.above), Node(p.other, par, s.l);
        node, parent' := par, n;
      }
      assert q == Up(true, parent', q.other, p.above) && tree == Plug(q, t);
      assert tree == Plug(p.above, Node(t, parent', q.other));
      assert tree == Plug(p.above.above, Node(Node(t, parent', q.other), g, p.above.other));
      ghost var L1, R1, P1, C1 := left, right, parent, color;
      assert Kept(L0, R0, P0, C0, L1, R1, P1, C1, S);
      ghost var C := color;
      SetColor(parent', Black);
      SetColor(g, Red);
      InsStraightLeft(C, t, parent', q.other, g, p.above.other, p.above.above, h);
      ghost var C2 := color;
      ColorsKept(L1, R1, P1, C1, C2, parent', g, S);
      RotateRight(g, p.above.above, t, parent', q.other, p.above.other);
      KeptChain(L0, R0, P0, C0, L1, R1, P1, C1, L1, R1, P1, C2, S, S);
      KeptChain(L0, R0, P0, C0, L1, R1, P1, C2, left, right, parent, color, S, S);
      n2, p2, s2 := node, Up(true, parent', Node(q.other, g, p.above.other), p.above.above), t;
    }

    /** The mirror: the parent is a right child and the uncle black. */
    method InsertRotateLeft(n: nat, par: nat, g: nat, ghost p: Path, ghost s: Tree, ghost h: int)
        returns (n2: nat, ghost p2: Path, ghost s2: Tree)
      requires Fixing(n, p, s, h) && p.Up? && p.above.Up? && !p.above.holeLeft && par == p.id && g == p.above.id
      requires Col(color, par) == Red && !IsRed(color, p.above.other)
      modifies this
      ensures Fixing(n2, p2, s2, h) && Depth(p2) < Depth(p) && p2.Up? && Col(color, p2.id) == Black
      ensures Inorder(tree) == old(Inorder(tree)) && Nodes(tree) == old(Nodes(tree))
      ensures Kept(old(left), old(right), old(parent), old(color), left, right, parent, color, old(Nodes(tree)))
    {
      ghost var L0, R0, P0, C0, S := left, right, parent, color, Nodes(tree);
      GrandLinks(left, right, parent, p, s);
      PlugNodes(p, s);
      assert n in Nodes(s);
      var node, parent' := n, par;
      ghost var q, t := p, s;
      if left[par] == n {
        RotateRight(par, p.above, s.l, n, s.r, p.other);
        InsPreRight(color, p, s, h);
        q, t := Up(false, n, s.l, p.above), Node(s.r, par, p.other);
        node, parent' := par, n;
      }
      assert q == Up(false, parent', q.other, p.above) && tree == Plug(q, t);
      assert tree == Plug(p.above, Node(q.other, parent', t));
      assert tree == Plug(p.above.above, Node(p.above.other, g, Node(q.other, parent', t)));
      ghost var L1, R1, P1, C1 := left, right, parent, color;
      assert Kept(L0, R0, P0, C0, L1, R1, P1, C1, S);
      ghost var C := color;
      SetColor(parent', Black);
      SetColor(g, Red);
      InsStraightRight(C, t, parent', q.other, g, p.above.other, p.above.above, h);
      ghost var C2 := color;
      ColorsKept(L1, R1, P1, C1, C2, parent', g, S);
      RotateLeft(g, p.above.above, p.above.other, q.other, parent', t);
      KeptChain(L0, R0, P0, C0, L1, R1, P1, C1, L1, R1, P1, C2, S, S);
      KeptChain(L0, R0, P0, C0, L1, R1, P1, C2, left, right, parent, color, S, S);
      n2, p2, s2 := node, Up(false, parent', Node(p.above.other, g, q.other), p.above.above), t;
    }

    /** One round of rb_insert_color's loop, entered with a red parent: the grandparent exists and is black. */
    method InsertStep(n: nat, ghost p: Path, ghost s: Tree, ghost h: int)
        returns (n2: nat, ghost p2: Path, ghost s2: Tree, ghost h2: int)
      requires Fixing(n, p, s, h) && p.Up? && Col(color, p.id) == Red
      modifies this
      ensures Fixing(n2, p2, s2, h2) && Depth(p2) < Depth(p)
      ensures Inorder(tree) == old(Inorder(tree)) && Nodes(tree) == old(Nodes(tree))
      ensures Kept(old(left), old(right), old(parent), old(color), left, right, parent, color, old(Nodes(tree)))
    {
      GrandContext(color, p, h);
      GrandLinks(left, right, parent, p, s);
      UpLink(left, right, parent, p, s);
      var par := parent[n];
      var g := parent[par];
      if par == left[g] {
        var uncle := right[g];
        if uncle != NIL && color[uncle] == Red {
          InsertRecolor(n, par, g, uncle, p, s, h);
          n2, p2, s2, h2 := g, p.above.above, Attach(p.above, Attach(p, s)), h + 1;
        } else {
          n2, p2, s2 := InsertRotateRight(n, par, g, p, s, h);
          h2 := h;
        }
      } else {
        var uncle := left[g];
        if uncle != NIL && color[uncle] == Red {
          InsertRecolor(n, par, g, uncle, p, s, h);
          n2, p2, s2, h2 := g, p.above.above, Attach(p.above, Attach(p, s)), h + 1;
        } else {
          n2, p2, s2 := InsertRotateLeft(n, par, g, p, s, h);
          h2 := h;
        }
      }
    }

    /**
     * rb_insert_color: x, red, has just been linked where a red-black tree had
     * a NULL link. The loop repairs red parents of red nodes on the way up,
     * and the top is made black: the result is red-black again, with the same
     * nodes in the same order.
     */
    method InsertColor(x: nat, ghost p0: Path)
      requires Linked() && tree == Plug(p0, Node(Leaf, x, Leaf)) && Col(color, x) == Red
      requires RedBlack.RedBlack(color, Plug(p0, Leaf))
      modifies this
      ensures Valid() && Inorder(tree) == old(Inorder(tree)) && Nodes(tree) == old(Nodes(tree))
      ensures Kept(old(left), old(right), old(parent), old(color), left, right, parent, color, old(Nodes(tree)))
    {
      InsertStart(color, p0, x);
      var n: nat := x;
      ghost var p, s, h := p0, Node(Leaf, x, Leaf), 0;
      UpLink(left, right, parent, p, s);
      while parent[n] != NIL && color[parent[n]] == Red
        invariant Fixing(n, p, s, h) && n < |parent| && parent[n] == HoleParent(p, NIL) && (p.Up? ==> p.id < |color|)
        invariant Inorder(tree) == old(Inorder(tree)) && Nodes(tree) == old(Nodes(tree))
        invariant Kept(old(left), old(right), old(parent), old(color), left, right, parent, color, old(Nodes(tree)))
        decreases Depth(p)
      {
        ghost var L1, R1, P1, C1, S1 := left, right, parent, color, Nodes(tree);
        n, p, s, h := InsertStep(n, p, s, h);
        KeptChain(old(left), old(right), old(parent), old(color), L1, R1, P1, C1, left, right, parent, color, old(Nodes(tree)), S1);
        UpLink(left, right, parent, p, s);
      }
      PlugNodes(p, s);
      assert s.id in Nodes(tree);
      InsDone(color, p, s, h);
      ghost var L1, R1, P1, C1 := left, right, parent, color;
      SetColor(node, Black);
      ColorsKept(L1, R1, P1, C1, color, node, node, Nodes(tree));
      KeptChain(old(left), old(right), old(parent), old(color), L1, R1, P1, C1, L1, R1, P1, color, old(Nodes(tree)), Nodes(tree));
    }

    /**
     * The state inside __rb_erase_color's loop: n tops the subtree s the path
     * p leads to and par is its parent, if it has one; s is one black short
     * of the height h its context asks for, unless its top is red.
     */
    ghost predicate Repairing(n: int, par: int, p: Path, s: Tree, h: int)
      reads this
    {
      Linked() && tree == Plug(p, s) && n == Root(s) && (p.Up? ==> par == p.id) &&
      Context(color, p, h, false, false) && Deficit(color, s, h)
    }

    /** What the loop's guard reads: n is root->node only at the top, and a deficit means a height of at least one. */
    lemma {:induction false} RepairState(n: int, par: int, p: Path, s: Tree, h: int)
      requires Repairing(n, par, p, s, h)
      ensures (n == node <==> p.Top?) && (s.Node? ==> s.id < |color|) && h >= 1
      ensures IsRed(color, s) <==> n != NIL && color[n] == Red
    {
      if p.Up? {
        PlugRootOff(p, s);
      }
      if s.Node? {
        TopLinks(left, right, parent, p, s, NIL);
      }
      if IsRed(color, s) {
        BalancedHeight(color, s.l, h - 1);
      } else {
        BalancedHeight(color, s, h - 1);
      }
    }

    /** Below an ancestor, a subtree short of a positive height has a sibling, whose links and children are these. */
    lemma {:induction false} SiblingLinks(n: int, par: int, p: Path, s: Tree, h: int)
      requires Repairing(n, par, p, s, h) && p.Up?
      ensures p.other.Node? && par == p.id && par < |color| && p.other.id < |color| && p.other.id != n
      ensures left[par] == (if p.holeLeft then n else p.other.id) && right[par] == (if p.holeLeft then p.other.id else n)
      ensures left[p.other.id] == Root(p.other.l) && right[p.other.id] == Root(p.other.r)
      ensures (p.other.l.Node? ==> p.other.l.id < |color|) && (p.other.r.Node? ==> p.other.r.id < |color|)
    {
      RepairState(n, par, p, s, h);
      HoleLinks(left, right, parent, p, s, NIL);
    }

    /**
     * Case 1 of __rb_erase_color, n a left child: its sibling is red. The
     * sibling turns black, the parent red, and a left rotation at the parent
     * gives n a black sibling, one level further down.
     */
    method EraseRedSiblingLeft(par: nat, other: nat, ghost p: Path, ghost s: Tree, ghost h: int) returns (ghost p2: Path)
      requires Repairing(Root(s), par, p, s, h) && !IsRed(color, s) && p.Up? && p.holeLeft
      requires p.other.Node? && other == p.other.id && Col(color, other) == Red
      modifies this
      ensures Repairing(Root(s), par, p2, s, h) && !IsRed(color, s) && p2.Up? && p2.holeLeft && p2.id == par && Col(color, par) == Red
      ensures Depth(p2) == Depth(p) + 1
      ensures Inorder(tree) == old(Inorder(tree)) && Nodes(tree) == old(Nodes(tree))
      ensures Kept(old(left), old(right), old(parent), old(color), left, right, parent, color, old(Nodes(tree)))
    {
      SiblingLinks(Root(s), par, p, s, h);
      SiblingNodes(p, s);
      ghost var C, o := color, p.other;
      SetColor(other, Black);
      SetColor(par, Red);
      RotateLeft(par, p.above, s, o.l, other, o.r);
      DelCase1Left(C, s, par, o, p.above, h);
      p2 := Up(true, par, o.l, Up(true, other, o.r, p.above));
      assert tree == Plug(Up(true, other, o.r, p.above), Node(s, par, o.l));
    }

    /** The mirror: n a right child with a red sibling, rotated right at the parent. */
    method EraseRedSiblingRight(par: nat, other: nat, ghost p: Path, ghost s: Tree, ghost h: int) returns (ghost p2: Path)
      requires Repairing(Root(s), par, p, s, h) && !IsRed(color, s) && p.Up? && !p.holeLeft
      requires p.other.Node? && other == p.other.id && Col(color, other) == Red
      modifies this
      ensures Repairing(Root(s), par, p2, s, h) && !IsRed(color, s) && p2.Up? && !p2.holeLeft && p2.id == par && Col(color, par) == Red
      ensures Depth(p2) == Depth(p) + 1
      ensures Inorder(tree) == old(Inorder(tree)) && Nodes(tree) == old(Nodes(tree))
      ensures Kept(old(left), old(right), old(parent), old(color), left, right, parent, color, old(Nodes(tree)))
    {
      SiblingLinks(Root(s), par, p, s, h);
      SiblingNodes(p, s);
      ghost var C, o := color, p.other;
      SetColor(other, Black);
      SetColor(par, Red);
      RotateRight(par, p.above, o.l, other, o.r, s);
      DelCase1Right(C, s, par, o, p.above, h);
      p2 := Up(false, par, o.r, Up(false, other, o.l, p.above));
      assert tree == Plug(Up(false, other, o.l, p.above), Node(o.r, par, s));
    }

    /**
     * Case 2: the sibling and both its children are black. The sibling turns
     * red, which leaves the parent's subtree one black short, and the repair
     * moves up to the parent.
     */
    method EraseBlackSibling(other: nat, ghost p: Path, ghost s: Tree, ghost h: int) returns (ghost p2: Path, ghost s2: Tree, ghost h2: int)
      requires p.Up? && Repairing(Root(s), p.id, p, s, h) && !IsRed(color, s)
      requires p.other.Node? && other == p.other.id && !IsRed(color, p.other)
      requires !IsRed(color, p.other.l) && !IsRed(color, p.other.r)
      modifies this
      ensures p2 == p.above && s2 == Attach(p, s) && h2 == h + Weight(old(Col(color, p.id)))
      ensures Repairing(p.id, HoleParent(p.above, NIL), p2, s2, h2) && (IsRed(color, s2) <==> old(Col(color, p.id)) == Red)
      ensures p.id < |parent| && parent[p.id] == HoleParent(p.above, NIL)
      ensures tree == old(tree)
      ensures Kept(old(left), old(right), old(parent), old(color), left, right, parent, color, old(Nodes(tree)))
    {
      SiblingLinks(Root(s), p.id, p, s, h);
      SiblingNodes(p, s);
      ghost var C := color;
      SetColor(other, Red);
      DelCase2(C, p, s, h);
      p2, s2, h2 := p.above, Attach(p, s), h + Weight(Col(C, p.id));
      UpLink(left, right, parent, p2, s2);
    }

    /**
     * Case 3, n a left child: the sibling's right child is black, so its left
     * one is red. That one turns black, the sibling red, and a right rotation
     * at the sibling leaves n a black sibling with a red right child.
     */
    method EraseInnerNephewLeft(par: nat, other: nat, ghost p: Path, ghost s: Tree, ghost h: int) returns (ghost o2: Tree)
      requires Repairing(Root(s), par, p, s, h) && !IsRed(color, s) && p.Up? && p.holeLeft
      requires p.other.Node? && other == p.other.id && !IsRed(color, p.other)
      requires IsRed(color, p.other.l) && !IsRed(color, p.other.r)
      modifies this
      ensures Repairing(Root(s), par, Up(true, par, o2, p.above), s, h) && !IsRed(color, s) && o2.Node? && !IsRed(color, o2) && IsRed(color, o2.r)
      ensures Inorder(tree) == old(Inorder(tree)) && Nodes(tree) == old(Nodes(tree))
      ensures Kept(old(left), old(right), old(parent), old(color), left, right, parent, color, old(Nodes(tree)))
    {
      SiblingLinks(Root(s), par, p, s, h);
      SiblingNodes(p, s);
      ghost var C, o := color, p.other;
      var oLeft := left[other];
      if oLeft != NIL {
        SetColor(oLeft, Black);
      }
      SetColor(other, Red);
      assert tree == Plug(Up(false, par, s, p.above), Node(Node(o.l.l, o.l.id, o.l.r), other, o.r));
      RotateRight(other, Up(false, par, s, p.above), o.l.l, o.l.id, o.l.r, o.r);
      DelCase3Left(C, s, par, o, p.above, h);
      o2 := Node(o.l.l, o.l.id, Node(o.l.r, other, o.r));
    }

    /** The mirror of case 3: n a right child, the sibling's left child black and its right one red. */
    method EraseInnerNephewRight(par: nat, other: nat, ghost p: Path, ghost s: Tree, ghost h: int) returns (ghost o2: Tree)
      requires Repairing(Root(s), par, p, s, h) && !IsRed(color, s) && p.Up? && !p.holeLeft
      requires p.other.Node? && other == p.other.id && !IsRed(color, p.other)
      requires IsRed(color, p.other.r) && !IsRed(color, p.other.l)
      modifies this
      ensures Repairing(Root(s), par, Up(false, par, o2, p.above), s, h) && !IsRed(color, s) && o2.Node? && !IsRed(color, o2) && IsRed(color, o2.l)
      ensures Inorder(tree) == old(Inorder(tree)) && Nodes(tree) == old(Nodes(tree))
      ensures Kept(old(left), old(right), old(parent), old(color), left, right, parent, color, old(Nodes(tree)))
    {
      SiblingLinks(Root(s), par, p, s, h);
      SiblingNodes(p, s);
      ghost var C, o := color, p.other;
      var oRight := right[other];
      if oRight != NIL {
        SetColor(oRight, Black);
      }
      SetColor(other, Red);
      assert tree == Plug(Up(true, par, s, p.above), Node(o.l, other, Node(o.r.l, o.r.id, o.r.r)));
      RotateLeft(other, Up(true, par, s, p.above), o.l, o.r.l, o.r.id, o.r.r);
      DelCase3Right(C, s, par, o, p.above, h);
      o2 := Node(Node(o.l, other, o.r.l), o.r.id, o.r.r);
    }

    /**
     * Case 4, n a left child: the sibling is black and its right child red. The
     * sibling takes the parent's colour, the parent and that child turn black,
     * and a left rotation at the parent repairs the tree.
     */
    method EraseOuterNephewLeft(par: nat, other: nat, ghost p: Path, ghost s: Tree, ghost h: int)
      requires Repairing(Root(s), par, p, s, h) && !IsRed(color, s) && p.Up? && p.holeLeft
      requires p.other.Node? && other == p.other.id && !IsRed(color, p.other) && IsRed(color, p.other.r)
      modifies this
      ensures Valid() && Inorder(tree) == old(Inorder(tree)) && Nodes(tree) == old(Nodes(tree))
      ensures Kept(old(left), old(right), old(parent), old(color), left, right, parent, color, old(Nodes(tree)))
    {
      SiblingLinks(Root(s), par, p, s, h);
      SiblingNodes(p, s);
      ghost var C, o := color, p.other;
      SetColor(other, color[par]);
      SetColor(par, Black);
      if right[other] != NIL {
        SetColor(right[other], Black);
      }
      RotateLeft(par, p.above, s, o.l, other, o.r);
      DelCase4Left(C, s, par, o, p.above, h);
    }

    /** Cases 3 and 4, n a left child: the sibling is black and has a red child. */
    method EraseRedNephewLeft(par: nat, other0: nat, ghost p: Path, ghost s: Tree, ghost h: int)
      requires Repairing(Root(s), par, p, s, h) && !IsRed(color, s) && p.Up? && p.holeLeft
      requires p.other.Node? && other0 == p.other.id && !IsRed(color, p.other)
      requires IsRed(color, p.other.l) || IsRed(color, p.other.r)
      modifies this
      ensures Valid() && Inorder(tree) == old(Inorder(tree)) && Nodes(tree) == old(Nodes(tree))
      ensures Kept(old(left), old(right), old(parent), old(color), left, right, parent, color, old(Nodes(tree)))
    {
      SiblingLinks(Root(s), par, p, s, h);
      var other := other0;
      ghost var q := p;
      if right[other] == NIL || color[right[other]] == Black {
        ghost var o := EraseInnerNephewLeft(par, other, p, s, h);
        q := Up(true, par, o, p.above);
        SiblingLinks(Root(s), par, q, s, h);
        other := right[par];
      }
      EraseOuterNephewLeft(par, other, q, s, h);
    }

    /**
     * Case 4, n a right child: the sibling is black and its left child red. The
     * sibling takes the parent's colour, the parent and that child turn black,
     * and a right rotation at the parent repairs the tree.
     */
    method EraseOuterNephewRight(par: nat, other: nat, ghost p: Path, ghost s: Tree, ghost h: int)
      requires Repairing(Root(s), par, p, s, h) && !IsRed(color, s) && p.Up? && !p.holeLeft
      requires p.other.Node? && other == p.other.id && !IsRed(color, p.other) && IsRed(color, p.other.l)
      modifies this
      ensures Valid() && Inorder(tree) == old(Inorder(tree)) && Nodes(tree) == old(Nodes(tree))
      ensures Kept(old(left), old(right), old(parent), old(color), left, right, parent, color, old(Nodes(tree)))
    {
      SiblingLinks(Root(s), par, p, s, h);
      SiblingNodes(p, s);
      ghost var C, o := color, p.other;
      SetColor(other, color[par]);
      SetColor(par, Black);
      if left[other] != NIL {
        SetColor(left[other], Black);
      }
      RotateRight(par, p.above, o.l, other, o.r, s);
      DelCase4Right(C, s, par, o, p.above, h);
    }

    /** Cases 3 and 4, n a right child: the sibling is black and has a red child. */
    method EraseRedNephewRight(par: nat, other0: nat, ghost p: Path, ghost s: Tree, ghost h: int)
      requires Repairing(Root(s), par, p, s, h) && !IsRed(color, s) && p.Up? && !p.holeLeft
      requires p.other.Node? && other0 == p.other.id && !IsRed(color, p.other)
      requires IsRed(color, p.other.l) || IsRed(color, p.other.r)
      modifies this
      ensures Valid() && Inorder(tree) == old(Inorder(tree)) && Nodes(tree) == old(Nodes(tree))
      ensures Kept(old(left), old(right), old(parent), old(color), left, right, parent, color, old(Nodes(tree)))
    {
      SiblingLinks(Root(s), par, p, s, h);
      var other := other0;
      ghost var q := p;
      if left[other] == NIL || color[left[other]] == Black {
        ghost var o := EraseInnerNephewRight(par, other, p, s, h);
        q := Up(false, par, o, p.above);
        SiblingLinks(Root(s), par, q, s, h);
        other := left[par];
      }
      EraseOuterNephewRight(par, other, q, s, h);
    }

    /**
     * The start of a round of __rb_erase_color's loop, n a left child: the
     * sibling, made black by case 1 if it was red.
     */
    method BlackSiblingLeft(par: nat, ghost p: Path, ghost s: Tree, ghost h: int) returns (other: nat, ghost p2: Path)
      requires Repairing(Root(s), par, p, s, h) && !IsRed(color, s) && p.Up? && p.holeLeft
      modifies this
      ensures Repairing(Root(s), par, p2, s, h) && !IsRed(color, s) && p2.Up? && p2.holeLeft
      ensures p2.other.Node? && other == p2.other.id && !IsRed(color, p2.other)
      ensures Depth(p2) == Depth(p) || (Depth(p2) == Depth(p) + 1 && Col(color, par) == Red)
      ensures Inorder(tree) == old(Inorder(tree)) && Nodes(tree) == old(Nodes(tree))
      ensures Kept(old(left), old(right), old(parent), old(color), left, right, parent, color, old(Nodes(tree)))
    {
      SiblingLinks(Root(s), par, p, s, h);
      p2 := p;
      other := right[par];
      if color[other] == Red {
        p2 := EraseRedSiblingLeft(par, other, p, s, h);
        SiblingLinks(Root(s), par, p2, s, h);
        other := right[par];
      }
    }

    /** The mirror: n a right child. */
    method BlackSiblingRight(par: nat, ghost p: Path, ghost s: Tree, ghost h: int) returns (other: nat, ghost p2: Path)
      requires Repairing(Root(s), par, p, s, h) && !IsRed(color, s) && p.Up? && !p.holeLeft
      modifies this
      ensures Repairing(Root(s), par, p2, s, h) && !IsRed(color, s) && p2.Up? && !p2.holeLeft
      ensures p2.other.Node? && other == p2.other.id && !IsRed(color, p2.other)
      ensures Depth(p2) == Depth(p) || (Depth(p2) == Depth(p) + 1 && Col(color, par) == Red)
      ensures Inorder(tree) == old(Inorder(tree)) && Nodes(tree) == old(Nodes(tree))
      ensures Kept(old(left), old(right), old(parent), old(color), left, right, parent, color, old(Nodes(tree)))
    {
      SiblingLinks(Root(s), par, p, s, h);
      p2 := p;
      other := left[par];
      if color[other] == Red {
        p2 := EraseRedSiblingRight(par, other, p, s, h);
        SiblingLinks(Root(s), par, p2, s, h);
        other := left[par];
      }
    }

    /**
     * A round of __rb_erase_color's loop, n a left child: case 1 if the
     * sibling is red, then case 2, which moves up to the parent, or cases 3
     * and 4, which repair the tree and end the loop with n = root->node.
     */
    method EraseStepLeft(n: int, par: int, ghost p: Path, ghost s: Tree, ghost h: int)
        returns (n2: int, par2: int, ghost p2: Path, ghost s2: Tree, ghost h2: int)
      requires Repairing(n, par, p, s, h) && !IsRed(color, s) && p.Up? && p.holeLeft
      modifies this
      ensures Repairing(n2, par2, p2, s2, h2) && 2 * Depth(p2) + (if IsRed(color, s2) then 0 else 1) < 2 * Depth(p) + 1
      ensures Inorder(tree) == old(Inorder(tree)) && Nodes(tree) == old(Nodes(tree))
      ensures Kept(old(left), old(right), old(parent), old(color), left, right, parent, color, old(Nodes(tree)))
    {
      var other;
      ghost var q;
      other, q := BlackSiblingLeft(par, p, s, h);
      SiblingLinks(n, par, q, s, h);
      if (left[other] == NIL || color[left[other]] == Black) && (right[other] == NIL || color[right[other]] == Black) {
        p2, s2, h2 := EraseBlackSibling(other, q, s, h);
        n2 := par;
        par2 := parent[n2];
      } else {
        EraseRedNephewLeft(par, other, q, s, h);
        n2, par2 := node, par;
        p2, s2, h2 := Top, tree, BlackHeight(color, tree) + 1;
      }
    }

    /** The mirror: a round with n a right child. */
    method EraseStepRight(n: int, par: int, ghost p: Path, ghost s: Tree, ghost h: int)
        returns (n2: int, par2: int, ghost p2: Path, ghost s2: Tree, ghost h2: int)
      requires Repairing(n, par, p, s, h) && !IsRed(color, s) && p.Up? && !p.holeLeft
      modifies this
      ensures Repairing(n2, par2, p2, s2, h2) && 2 * Depth(p2) + (if IsRed(color, s2) then 0 else 1) < 2 * Depth(p) + 1
      ensures Inorder(tree) == old(Inorder(tree)) && Nodes(tree) == old(Nodes(tree))
      ensures Kept(old(left), old(right), old(parent), old(color), left, right, parent, color, old(Nodes(tree)))
    {
      var other;
      ghost var q;
      other, q := BlackSiblingRight(par, p, s, h);
      SiblingLinks(n, par, q, s, h);
      if (left[other] == NIL || color[left[other]] == Black) && (right[other] == NIL || color[right[other]] == Black) {
        p2, s2, h2 := EraseBlackSibling(other, q, s, h);
        n2 := par;
        par2 := parent[n2];
      } else {
        EraseRedNephewRight(par, other, q, s, h);
        n2, par2 := node, par;
        p2, s2, h2 := Top, tree, BlackHeight(color, tree) + 1;
      }
    }

    /**
     * __rb_erase_color: node, with parent par, tops a subtree one black short
     * of its context, because a black node was unlinked above it. The loop
     * moves the deficit up through black siblings, or ends it by rotations at
     * a sibling with a red child (whose round leaves node at root->node, so
     * the guard ends the loop where the C code breaks out of it), or stops at
     * a red node or the top, which turns black: the result is red-black
     * again, with the same nodes in the same order.
     */
    method EraseColor(node0: int, parent0: int, ghost p0: Path, ghost s0: Tree, ghost h0: int)
      requires Repairing(node0, parent0, p0, s0, h0)
      modifies this
      ensures Valid() && Inorder(tree) == old(Inorder(tree)) && Nodes(tree) == old(Nodes(tree))
      ensures Kept(old(left), old(right), old(parent), old(color), left, right, parent, color, old(Nodes(tree)))
    {
      var n, par := node0, parent0;
      ghost var p, s, h := p0, s0, h0;
      RepairState(n, par, p, s, h);
      while (n == NIL || color[n] == Black) && n != node
        invariant Repairing(n, par, p, s, h) && (n != NIL ==> n < |color|)
        invariant Inorder(tree) == old(Inorder(tree)) && Nodes(tree) == old(Nodes(tree))
        invariant Kept(old(left), old(right), old(parent), old(color), left, right, parent, color, old(Nodes(tree)))
        decreases 2 * Depth(p) + (if IsRed(color, s) then 0 else 1)
      {
        RepairState(n, par, p, s, h);
        SiblingLinks(n, par, p, s, h);
        ghost var L1, R1, P1, C1, S1 := left, right, parent, color, Nodes(tree);
        if left[par] == n {
          n, par, p, s, h := EraseStepLeft(n, par, p, s, h);
        } else {
          n, par, p, s, h := EraseStepRight(n, par, p, s, h);
        }
        KeptChain(old(left), old(right), old(parent), old(color), L1, R1, P1, C1, left, right, parent, color, old(Nodes(tree)), S1);
        RepairState(n, par, p, s, h);
      }
      RepairState(n, par, p, s, h);
      DelDone(color, p, s, h);
      if n != NIL {
        PlugNodes(p, s);
        assert n in Nodes(s);
        ghost var L1, R1, P1, C1 := left, right, parent, color;
        SetColor(n, Black);
        ColorsKept(L1, R1, P1, C1, color, n, n, Nodes(tree));
        KeptChain(old(left), old(right), old(parent), old(color), L1, R1, P1, C1, L1, R1, P1, color, old(Nodes(tree)), Nodes(tree));
      }
    }

    /**
     * rb_replace_node: replacement (new in the C code), which is not in the
     * tree, takes the place, children and colour of victim, which leaves it.
     * The order renames victim to replacement.
     */
    method ReplaceNode(victim: nat, replacement: nat)
      requires Valid() && victim in Nodes(tree) && replacement < |left| && replacement !in Nodes(tree)
      modifies this
      ensures Valid() && Inorder(tree) == Rename(old(Inorder(tree)), victim, replacement)
      ensures Nodes(tree) == old(Nodes(tree)) - {victim} + {replacement}
      ensures color == old(color)[replacement := Col(old(color), victim)]
      ensures Kept(old(left), old(right), old(parent), old(color), left, right, parent, color, old(Nodes(tree)) + {replacement})
    {
      ghost var (p, t) := Arena.Find(tree, victim);
      ReplaceTree(color, p, t.l, victim, t.r, replacement);
      Substitute(victim, replacement, p, t.l, t.r);
    }

    /** The stores of rb_replace_node, in its order: the parent's link, the children's parent links, then *y = *x. */
    method Substitute(x: nat, y: nat, ghost p: Path, ghost a: Tree, ghost b: Tree)
      requires Linked() && tree == Plug(p, Node(a, x, b)) && y < |left| && y !in Nodes(tree)
      modifies this
      ensures Linked() && tree == Plug(p, Node(a, y, b)) && color == old(color)[y := Col(old(color), x)]
      ensures Kept(old(left), old(right), old(parent), old(color), left, right, parent, color, old(Nodes(tree)) + {y})
    {
      ghost var L, R, P, C := left, right, parent, color;
      SubstituteLinks(L, R, P, p, a, x, b, y);
      var par := parent[x];
      ChangeChild(x, y, par);
      AdoptChildren(x, y);
      CopyNode(y, x);
      ReplaceDone(L, R, P, C, left, right, parent, color, p, a, x, b, y);
      tree := Plug(p, Node(a, y, b));
    }

    /**
     * rb_find with a comparison of int keys K: from root->node go left while
     * the key is below v, right while it is above, and stop at an equal one.
     * NULL means no node of the tree has the key v.
     */
    method Find(K: seq<int>, v: int) returns (r: int)
      requires Linked() && Ordered(K)
      ensures r != NIL ==> r in Nodes(tree) && r < |K| && K[r] == v
      ensures r == NIL ==> forall z :: z in Nodes(tree) ==> z < |K| && K[z] != v
    {
      InorderNodes(tree);
      var found := false;
      var n := node;
      ghost var t := tree;
      while n != NIL
        invariant n == Root(t) && Links(left, right, parent, t) && Descending(K, Inorder(t)) && Nodes(t) <= Nodes(tree)
        invariant forall z :: z in Nodes(tree) ==> z < |K|
        invariant forall z :: z in Nodes(tree) && K[z] == v ==> z in Nodes(t)
        decreases Size(t)
      {
        SubtreeKeys(K, t);
        var result := Cmp(K[n], v);
        if result < 0 {
          n, t := left[n], t.l;
        } else if result > 0 {
          n, t := right[n], t.r;
        } else {
          found := true;
          break;
        }
      }
      r := if found then n else NIL;
    }

    /**
     * rb_insert with a comparison of int keys K: descend from root->node as
     * rb_find does, remembering the last node passed and the link to follow;
     * at a node with item's key stop without a change, else hang item at the
     * NULL link reached and rebalance. inserted is the macro's insert flag.
     */
    method Insert(K: seq<int>, item: nat) returns (inserted: bool)
      requires Valid() && Ordered(K) && item < |left| && item < |K| && item !in Nodes(tree)
      modifies this
      ensures Valid() && Ordered(K)
      ensures inserted <==> forall z :: z in old(Nodes(tree)) ==> z < |K| && K[z] != K[item]
      ensures Nodes(tree) == if inserted then old(Nodes(tree)) + {item} else old(Nodes(tree))
      ensures !inserted ==> tree == old(tree) && left == old(left) && right == old(right) && parent == old(parent) && color == old(color)
      ensures Kept(old(left), old(right), old(parent), old(color), left, right, parent, color, old(Nodes(tree)) + {item})
    {
      var insert, par, link, p, t := Descend(K, item);
      if insert {
        InsertPlace(K, color, item, p);
        LinkNode(item, par, link, p);
        InsertColor(item, p);
      } else {
        PlugNodes(p, t);
      }
      inserted := insert;
    }

    /**
     * The loop of rb_insert: from root->node go left past keys below item's
     * and right past keys above it, keeping the last node passed (parent)
     * and the link to follow (new), until a NULL link or a node with item's
     * key. At a NULL link, item's key fits between the keys before and after.
     */
    method Descend(K: seq<int>, item: nat) returns (insert: bool, par: int, link: Link, ghost p: Path, ghost t: Tree)
      requires Linked() && Ordered(K) && item < |K|
      ensures tree == Plug(p, t)
      ensures insert ==> t.Leaf? && par == HoleParent(p, NIL) && link == LinkOf(p) && Inorder(tree) == Before(p) + After(p)
      ensures insert ==> forall z :: z in Before(p) ==> z < |K| && K[z] > K[item]
      ensures insert ==> forall z :: z in After(p) ==> z < |K| && K[z] < K[item]
      ensures !insert ==> t.Node? && t.id < |K| && K[t.id] == K[item]
    {
      insert := true;
      var n := node;
      par, link := NIL, RootLink;
      p, t := Top, tree;
      while n != NIL
        invariant tree == Plug(p, t) && n == Root(t) && Links(left, right, parent, t)
        invariant par == HoleParent(p, NIL) && link == LinkOf(p) && insert && Descending(K, Inorder(t))
        invariant forall z :: z in Before(p) ==> z < |K| && K[z] > K[item]
        invariant forall z :: z in After(p) ==> z < |K| && K[z] < K[item]
        decreases Size(t)
      {
        par := n;
        SubtreeKeys(K, t);
        var result := Cmp(K[n], K[item]);
        if result < 0 {
          DescendLeft(K, item, p, t);
          n, link := left[n], LeftOf(n);
          p, t := Up(true, t.id, t.r, p), t.l;
        } else if result > 0 {
          DescendRight(K, item, p, t);
          n, link := right[n], RightOf(n);
          p, t := Up(false, t.id, t.l, p), t.r;
        } else {
          insert := false;
          break;
        }
      }
      if insert {
        PlugInorder(p, t);
        assert Before(p) + Inorder(t) + After(p) == Before(p) + After(p);
      }
    }

    /** rb_del with a comparison of int keys K: rb_find, then rb_erase of the node found, if any. */
    method Del(K: seq<int>, v: int)
      requires Valid() && Ordered(K)
      modifies this
      ensures Valid() && Ordered(K) && Nodes(tree) <= old(Nodes(tree))
      ensures forall z :: z in old(Nodes(tree)) ==> (z in Nodes(tree) <==> z < |K| && K[z] != v)
      ensures (forall z :: z in old(Nodes(tree)) ==> z < |K| && K[z] != v) ==>
        tree == old(tree) && left == old(left) && right == old(right) && parent == old(parent) && color == old(color)
      ensures Kept(old(left), old(right), old(parent), old(color), left, right, parent, color, old(Nodes(tree)))
    {
      var n := Find(K, v);
      if n != NIL {
        ghost var s := Inorder(tree);
        InorderNodes(tree);
        Erase(n);
        DescendingWithout(K, s, n);
        forall z | z in old(Nodes(tree)) && z != n
          ensures z < |K| && K[z] != v
        {
          DescendingDistinctKeys(K, s, z, n);
        }
      }
    }

    /**
     * rb_insert, then rb_find of the item's key: the two descend alike, so
     * the key is found, and it is the item's node when the item went in.
     */
    method InsertThenFind(K: seq<int>, item: nat) returns (inserted: bool, r: int)
      requires Valid() && Ordered(K) && item < |left| && item < |K| && item !in Nodes(tree)
      modifies this
      ensures Valid() && Ordered(K)
      ensures r != NIL && r in Nodes(tree) && r < |K| && K[r] == K[item]
      ensures inserted ==> r == item
      ensures Kept(old(left), old(right), old(parent), old(color), left, right, parent, color, old(Nodes(tree)) + {item})
    {
      inserted := Insert(K, item);
      r := Find(K, K[item]);
      if inserted && r != item {
        InorderNodes(tree);
        DescendingDistinctKeys(K, Inorder(tree), r, item);
      }
    }

    /** The loop of rb_first, and the descent of rb_next: from n0 follow left links while there are any. */
    method Leftmost(n0: nat, ghost ps: Path, ghost s: Tree) returns (n: nat, ghost q: Path, ghost u: Tree)
      requires Linked() && tree == Plug(ps, s) && s.Node? && n0 == s.id
      ensures Plug(q, u) == s && AllLeft(q) && u.Node? && u.id == n && u.l.Leaf?
      ensures n == Head(Inorder(s))
    {
      PlugShapedPart(left, right, parent, ps, s, NIL);
      n, q, u := n0, Top, s;
      while left[n] != NIL
        invariant Plug(q, u) == s && AllLeft(q) && u.Node? && u.id == n && Links(left, right, parent, u)
        decreases Size(u)
      {
        n, q, u := left[n], Up(true, u.id, u.r, q), u.l;
      }
      PlugInorder(q, u);
      AllLeftBefore(q);
    }

    /** The loop of rb_last, and the descent of rb_prev: from n0 follow right links while there are any. */
    method Rightmost(n0: nat, ghost ps: Path, ghost s: Tree) returns (n: nat, ghost q: Path, ghost u: Tree)
      requires Linked() && tree == Plug(ps, s) && s.Node? && n0 == s.id
      ensures Plug(q, u) == s && AllRight(q) && u.Node? && u.id == n && u.r.Leaf?
      ensures n == Order.Last(Inorder(s))
    {
      PlugShapedPart(left, right, parent, ps, s, NIL);
      n, q, u := n0, Top, s;
      while right[n] != NIL
        invariant Plug(q, u) == s && AllRight(q) && u.Node? && u.id == n && Links(left, right, parent, u)
        decreases Size(u)
      {
        n, q, u := right[n], Up(false, u.id, u.l, q), u.r;
      }
      PlugInorder(q, u);
      AllRightAfter(q);
    }

    /** rb_first: the first node in symmetric order, NULL for an empty tree. */
    method First() returns (r: int)
      requires Linked()
      ensures r == Head(Inorder(tree))
    {
      var n := node;
      if n == NIL {
        return NIL;
      }
      ghost var q, u;
      r, q, u := Leftmost(n, Top, tree);
    }

    /** rb_last: the last node in symmetric order, NULL for an empty tree. */
    method Last() returns (r: int)
      requires Linked()
      ensures r == Order.Last(Inorder(tree))
    {
      var n := node;
      if n == NIL {
        return NIL;
      }
      ghost var q, u;
      r, q, u := Rightmost(n, Top, tree);
    }

    /**
     * rb_next: NULL for a node cleared by RB_CLEAR_NODE, else the node after
     * x in symmetric order: the leftmost node of x's right subtree, or the
     * first ancestor reached from a left child, or NULL for the last node.
     */
    method Next(x: nat) returns (r: int)
      requires Linked() && x < |parent| && (x in Nodes(tree) || parent[x] == x)
      ensures x in Nodes(tree) ==> r == NextIn(Inorder(tree), x)
      ensures x !in Nodes(tree) ==> r == NIL
    {
      if parent[x] == x {
        if x in Nodes(tree) {
          InTreeNotEmpty(x);
        }
        return NIL;
      }
      ghost var (p, t) := Arena.Find(tree, x);
      TopLinks(left, right, parent, p, t, NIL);
      NextInTree(p, t);
      if right[x] != NIL {
        ghost var q, u;
        r, q, u := Leftmost(right[x], Up(false, x, t.l, p), t.r);
        return;
      }
      var n := x;
      ghost var pp, s := p, t;
      UpLink(left, right, parent, pp, s);
      if pp.Up? {
        ParentSide(left, right, parent, pp, s);
      }
      var par := parent[n];
      while par != NIL && n == right[par]
        invariant tree == Plug(pp, s) && s.Node? && s.id == n && par == HoleParent(pp, NIL)
        invariant pp.Up? ==> pp.id < |right| && (right[pp.id] == n <==> !pp.holeLeft)
        invariant Head(After(pp)) == NextIn(Inorder(tree), x)
        decreases Depth(pp)
      {
        n, s, pp := par, Attach(pp, s), pp.above;
        UpLink(left, right, parent, pp, s);
        if pp.Up? {
          ParentSide(left, right, parent, pp, s);
        }
        par := parent[n];
      }
      r := par;
    }

    /**
     * rb_prev: NULL for a node cleared by RB_CLEAR_NODE, else the node before
     * x in symmetric order: the rightmost node of x's left subtree, or the
     * first ancestor reached from a right child, or NULL for the first node.
     */
    method Prev(x: nat) returns (r: int)
      requires Linked() && x < |parent| && (x in Nodes(tree) || parent[x] == x)
      ensures x in Nodes(tree) ==> r == PrevIn(Inorder(tree), x)
      ensures x !in Nodes(tree) ==> r == NIL
    {
      if parent[x] == x {
        if x in Nodes(tree) {
          InTreeNotEmpty(x);
        }
        return NIL;
      }
      ghost var (p, t) := Arena.Find(tree, x);
      TopLinks(left, right, parent, p, t, NIL);
      PrevInTree(p, t);
      if left[x] != NIL {
        ghost var q, u;
        r, q, u := Rightmost(left[x], Up(true, x, t.r, p), t.l);
        return;
      }
      var n := x;
      ghost var pp, s := p, t;
      UpLink(left, right, parent, pp, s);
      if pp.Up? {
        ParentSide(left, right, parent, pp, s);
      }
      var par := parent[n];
      while par != NIL && n == left[par]
        invariant tree == Plug(pp, s) && s.Node? && s.id == n && par == HoleParent(pp, NIL)
        invariant pp.Up? ==> pp.id < |left| && (left[pp.id] == n <==> pp.holeLeft)
        invariant Order.Last(Before(pp)) == PrevIn(Inorder(tree), x)
        decreases Depth(pp)
      {
        n, s, pp := par, Attach(pp, s), pp.above;
        UpLink(left, right, parent, pp, s);
        if pp.Up? {
          ParentSide(left, right, parent, pp, s);
        }
        par := parent[n];
      }
      r := par;
    }

    /**
     * rb_erase: x leaves the tree, which stays red-black. A node with at most
     * one child is unlinked; one with two children is replaced by its
     * successor. The other nodes keep their order.
     */
    method Erase(x: nat)
      requires Valid() && x in Nodes(tree)
      modifies this
      ensures Valid() && Inorder(tree) == Without(old(Inorder(tree)), x) && Nodes(tree) == old(Nodes(tree)) - {x}
      ensures Kept(old(left), old(right), old(parent), old(color), left, right, parent, color, old(Nodes(tree)))
    {
      ghost var (p, t) := Arena.Find(tree, x);
      TopLinks(left, right, parent, p, t, NIL);
      if left[x] == NIL {
        EraseWithChild(x, right[x], p, t);
      } else if right[x] == NIL {
        EraseWithChild(x, left[x], p, t);
      } else {
        EraseWithSuccessor(x, p, t.l, t.r);
      }
    }

    /**
     * The unlinking half of rb_erase for a node x with at most one child:
     * the child (NULL when there is none) takes x's place below x's parent,
     * or at root->node. Returns x's parent and x's colour, as rb_erase keeps
     * them for the colour repair.
     */
    method UnlinkOne(x: nat, child: int, ghost p: Path, ghost t: Tree) returns (par: int, c0: Color)
      requires Linked() && tree == Plug(p, t) && t.Node? && t.id == x && (t.l.Leaf? || t.r.Leaf?)
      requires child == Root(if t.l.Leaf? then t.r else t.l)
      modifies this
      ensures Linked() && tree == Plug(p, if t.l.Leaf? then t.r else t.l)
      ensures par == HoleParent(p, NIL) && c0 == Col(old(color), x) && color == old(color)
      ensures Kept(old(left), old(right), old(parent), old(color), left, right, parent, color, old(Nodes(tree)))
    {
      UnlinkNodes(p, t);
      ghost var L, R, P := left, right, parent;
      UnlinkLinks(L, R, P, p, t);
      par := parent[x];
      c0 := color[x];
      if child != NIL {
        SetParent(child, par);
      }
      ChangeChild(x, child, par);
      UnlinkDone(L, R, P, left, right, parent, p, t);
      tree := Plug(p, if t.l.Leaf? then t.r else t.l);
    }

    /**
     * The first half of rb_erase for a node x with two children: its
     * successor y, the leftmost node u of its right subtree reached by q,
     * is spliced out, its right child (perhaps NULL) taking its place. When y
     * is x's right child the parent the colour repair starts from is y
     * itself, which is about to take x's place; otherwise it is y's parent.
     */
    method SpliceSuccessor(x: nat, y: nat, ghost p: Path, ghost a: Tree, ghost q: Path, ghost u: Tree)
      returns (child: int, par: int, c0: Color)
      requires Linked() && tree == Plug(p, Node(a, x, Plug(q, u))) && AllLeft(q) && u.Node? && u.id == y && u.l.Leaf?
      modifies this
      ensures Linked() && tree == Plug(p, Node(a, x, Plug(q, u.r))) && color == old(color)
      ensures child == Root(u.r) && par == (if q.Top? then y else q.id) && c0 == Col(color, y)
      ensures y < |left| && y !in Nodes(tree) && Nodes(tree) + {y} == old(Nodes(tree))
      ensures Kept(old(left), old(right), old(parent), old(color), left, right, parent, color, old(Nodes(tree)))
    {
      SpliceNodes(p, a, x, q, u);
      ghost var L, R, P := left, right, parent;
      SuccessorLinks(L, R, P, p, a, x, q, u);
      child := right[y];
      par := parent[y];
      c0 := color[y];
      if child != NIL {
        SetParent(child, par);
      }
      if par == x {
        right := right[par := child];
        par := y;
      } else {
        left := left[par := child];
      }
      assert parent == if u.r.Node? then P[u.r.id := P[y]] else P;
      SuccessorSpliced(L, R, P, left, right, parent, p, a, x, q, u);
      tree := Plug(p, Node(a, x, Plug(q, u.r)));
    }

    /** The children of x, those that are not NULL, get y as their parent. */
    method AdoptChildren(x: nat, y: int)
      requires x < |left| && x < |right| && (left[x] != NIL ==> 0 <= left[x] < |parent|)
      requires right[x] != NIL ==> 0 <= right[x] < |parent|
      modifies this
      ensures left == old(left) && right == old(right) && color == old(color) && node == old(node) && tree == old(tree)
      ensures var P1 := if left[x] != NIL then old(parent)[left[x] := y] else old(parent);
        parent == if right[x] != NIL then P1[right[x] := y] else P1
    {
      if left[x] != NIL {
        SetParent(left[x], y);
      }
      if right[x] != NIL {
        SetParent(right[x], y);
      }
    }

    /** *y = *x for the links and the colour: par_color, right and left, in that order. */
    method CopyNode(y: nat, x: nat)
      requires x < |left| && y < |left| && |right| == |left| && |parent| == |left| && |color| == |left|
      modifies this
      ensures parent == old(parent)[y := old(parent)[x]] && color == old(color)[y := old(color)[x]]
      ensures right == old(right)[y := old(right)[x]] && left == old(left)[y := old(left)[x]]
      ensures node == old(node) && tree == old(tree)
    {
      parent := parent[y := parent[x]];
      color := color[y := color[x]];
      right := right[y := right[x]];
      left := left[y := left[x]];
    }

    /**
     * The link to x from its parent gp, or root->node when gp is NULL, leads
     * to y instead, as rb_erase and rb_replace_node redirect it.
     */
    method ChangeChild(x: nat, y: int, gp: int)
      requires gp != NIL ==> 0 <= gp < |left| && gp < |right|
      modifies this
      ensures left == (if gp != NIL && old(left)[gp] == x then old(left)[gp := y] else old(left))
      ensures right == (if gp != NIL && old(left)[gp] != x then old(right)[gp := y] else old(right))
      ensures node == (if gp == NIL then y else old(node))
      ensures parent == old(parent) && color == old(color) && tree == old(tree)
    {
      if gp != NIL {
        if left[gp] == x {
          left := left[gp := y];
        } else {
          right := right[gp := y];
        }
      } else {
        node := y;
      }
    }

    /**
     * The second half of rb_erase for a node x with two children: y, no
     * longer in the tree, takes x's parent and colour (par_color), x's
     * children, and x's place below its parent or at root->node.
     */
    method SubstituteSuccessor(x: nat, y: nat, ghost p: Path, ghost a: Tree, ghost b: Tree)
      requires Linked() && tree == Plug(p, Node(a, x, b)) && a.Node? && y < |left| && y !in Nodes(tree)
      modifies this
      ensures Linked() && tree == Plug(p, Node(a, y, b)) && color == old(color)[y := Col(old(color), x)]
      ensures Kept(old(left), old(right), old(parent), old(color), left, right, parent, color, old(Nodes(tree)) + {y})
    {
      ghost var L, R, P, C := left, right, parent, color;
      SubstituteLinks(L, R, P, p, a, x, b, y);
      CopyNode(y, x);
      ChangeChild(x, y, parent[x]);
      SetParent(left[x], y);
      if right[x] != NIL {
        SetParent(right[x], y);
      }
      SubstituteDone(L, R, P, C, left, right, parent, color, p, a, x, b, y);
      tree := Plug(p, Node(a, y, b));
    }

    /**
     * rb_erase for a node x with two children: its successor takes its place
     * and colour, and a black successor leaves its old place one black short,
     * which __rb_erase_color repairs from the successor's right child.
     */
    method EraseWithSuccessor(x: nat, ghost p: Path, ghost a: Tree, ghost b: Tree)
      requires Valid() && tree == Plug(p, Node(a, x, b)) && a.Node? && b.Node?
      modifies this
      ensures Valid() && Inorder(tree) == Without(old(Inorder(tree)), x) && Nodes(tree) == old(Nodes(tree)) - {x}
      ensures Kept(old(left), old(right), old(parent), old(color), left, right, parent, color, old(Nodes(tree)))
    {
      ghost var C := color;
      TopLinks(left, right, parent, p, Node(a, x, b), NIL);
      var y, q, u := Leftmost(right[x], Up(false, x, a, p), b);
      ghost var r2 := Concat(q, Up(false, y, a, p));
      EraseTwoInorder(p, a, x, q, u);
      var child, par, c0 := SpliceSuccessor(x, y, p, a, q, u);
      EraseTwo(C, C[y := Col(C, x)], p, a, x, q, u, r2);
      SubstituteSuccessor(x, y, p, a, Plug(q, u.r));
      if c0 == Black {
        EraseColor(child, par, r2, u.r, 1);
      }
    }

    /**
     * rb_erase for a node x with at most one child: x is unlinked, and a
     * black x leaves its child's subtree one black short, which
     * __rb_erase_color repairs.
     */
    method EraseWithChild(x: nat, child: int, ghost p: Path, ghost t: Tree)
      requires Valid() && tree == Plug(p, t) && t.Node? && t.id == x && (t.l.Leaf? || t.r.Leaf?)
      requires child == Root(if t.l.Leaf? then t.r else t.l)
      modifies this
      ensures Valid() && Inorder(tree) == Without(old(Inorder(tree)), x) && Nodes(tree) == old(Nodes(tree)) - {x}
      ensures Kept(old(left), old(right), old(parent), old(color), left, right, parent, color, old(Nodes(tree)))
    {
      ghost var c := if t.l.Leaf? then t.r else t.l;
      SplitRedBlack(color, p, t);
      EraseOne(color, p, t, c, BlackHeight(color, t));
      EraseOneInorder(p, t, c);
      var par, c0 := UnlinkOne(x, child, p, t);
      if c0 == Black {
        EraseColor(child, par, p, c, 1);
      }
    }

  }

  /** The nodes outside S keep their links and colour, and the arena keeps its size. */
  ghost predicate Kept(L0: seq<int>, R0: seq<int>, P0: seq<int>, C0: seq<Color>,
                       L: seq<int>, R: seq<int>, P: seq<int>, C: seq<Color>, S: set<nat>)
  {
    |L| == |L0| && |R| == |R0| && |P| == |P0| && |C| == |C0| &&
    forall y: nat :: y !in S && y < |L0| && y < |R0| && y < |P0| && y < |C0| ==>
      L[y] == L0[y] && R[y] == R0[y] && P[y] == P0[y] && C[y] == C0[y]
  }

  /** Two steps that each keep the nodes outside S keep them together. */
  /** Two colour stores into nodes of S keep everything outside S. */
lemma {:induction false} ColorsKept(L: seq<int>, R: seq<int>, P: seq<int>, C: seq<Color>, C2: seq<Color>,
                                    x: nat, y: nat, S: set<nat>)
  requires x < |C| && y < |C| && x in S && y in S
  requires |C2| == |C| && forall z :: 0 <= z < |C| && z != x && z != y ==> C2[z] == C[z]
  ensures Kept(L, R, P, C, L, R, P, C2, S)
{ }

lemma {:induction false} KeptChain(L0: seq<int>, R0: seq<int>, P0: seq<int>, C0: seq<Color>,
                                     L1: seq<int>, R1: seq<int>, P1: seq<int>, C1: seq<Color>,
                                     L: seq<int>, R: seq<int>, P: seq<int>, C: seq<Color>, S: set<nat>, T: set<nat>)
    requires Kept(L0, R0, P0, C0, L1, R1, P1, C1, S) && Kept(L1, R1, P1, C1, L, R, P, C, T) && T <= S
    ensures Kept(L0, R0, P0, C0, L, R, P, C, S)
  {
  }

  /** The links of a node of a linked tree lead to nodes of the tree, or to NULL, or, for the top, to par. */
  lemma {:induction false} LinksClosed(L: seq<int>, R: seq<int>, P: seq<int>, t: Tree, par: int)
    requires Links(L, R, P, t) && ParentIs(P, t, par)
    ensures forall y :: y in Nodes(t) ==>
      y < |L| && y < |R| && y < |P| && (L[y] == NIL || L[y] in Nodes(t)) &&
      (R[y] == NIL || R[y] in Nodes(t)) && (P[y] == par || P[y] in Nodes(t))
  {
    if t.Node? {
      LinksClosed(L, R, P, t.l, t.id);
      LinksClosed(L, R, P, t.r, t.id);
    }
  }

  /** The parent, the sibling and the sibling's children of the subtree a path leads to are nodes of the tree. */
  lemma {:induction false} SiblingNodes(p: Path, s: Tree)
    requires p.Up? && p.other.Node?
    ensures p.id in Nodes(Plug(p, s)) && p.other.id in Nodes(Plug(p, s))
    ensures p.other.l.Node? ==> p.other.l.id in Nodes(Plug(p, s))
    ensures p.other.r.Node? ==> p.other.r.id in Nodes(Plug(p, s))
  {
    PlugNodes(p, s);
    var o := p.other;
    assert o.l.Node? ==> o.l.id in Nodes(o.l);
    assert o.r.Node? ==> o.r.id in Nodes(o.r);
  }

  /** The nodes UnlinkOne stores into, x's parent and x's child, are nodes of the tree. */
  lemma {:induction false} UnlinkNodes(p: Path, t: Tree)
    requires t.Node?
    ensures t.id in Nodes(Plug(p, t)) && (p.Up? ==> p.id in Nodes(Plug(p, t)))
    ensures (t.l.Node? ==> t.l.id in Nodes(Plug(p, t))) && (t.r.Node? ==> t.r.id in Nodes(Plug(p, t)))
  {
    PlugNodes(p, t);
    assert t.l.Node? ==> t.l.id in Nodes(t.l);
    assert t.r.Node? ==> t.r.id in Nodes(t.r);
  }

  /**
   * The nodes SpliceSuccessor stores into, x, the successor's parent and its
   * right child, are nodes of the tree, and splicing out the successor
   * removes exactly it.
   */
  lemma {:induction false} SpliceNodes(p: Path, a: Tree, x: nat, q: Path, u: Tree)
    requires u.Node? && u.l.Leaf?
    ensures var T := Nodes(Plug(p, Node(a, x, Plug(q, u))));
      x in T && u.id in T && (q.Up? ==> q.id in T) && (u.r.Node? ==> u.r.id in T) &&
      Nodes(Plug(p, Node(a, x, Plug(q, u.r)))) + {u.id} == T
  {
    PlugNodes(p, Node(a, x, Plug(q, u)));
    PlugNodes(p, Node(a, x, Plug(q, u.r)));
    PlugNodes(q, u);
    PlugNodes(q, u.r);
    assert u.r.Node? ==> u.r.id in Nodes(u.r);
  }

  /** The nodes rb_replace_node and rb_erase store into around x, its parent and its children, are nodes of the tree. */
  lemma {:induction false} SubstituteNodes(p: Path, a: Tree, x: nat, b: Tree)
    ensures var T := Nodes(Plug(p, Node(a, x, b)));
      x in T && (p.Up? ==> p.id in T) && (a.Node? ==> a.id in T) && (b.Node? ==> b.id in T)
  {
    PlugNodes(p, Node(a, x, b));
    assert a.Node? ==> a.id in Nodes(a);
    assert b.Node? ==> b.id in Nodes(b);
  }

  /** __rb_rotate_left stores only into nodes of the tree. */
  lemma {:induction false} RotateLeftKept(L: seq<int>, R: seq<int>, P: seq<int>, C: seq<Color>, L2: seq<int>, R2: seq<int>, P2: seq<int>,
                                          p: Path, a: Tree, x: nat, b: Tree, y: nat, c: Tree)
    requires |C| == |L| && x < |L| && x < |R| && x < |P| && y < |L| && y < |R| && y < |P| && (b.Node? ==> b.id < |P|)
    requires p.Up? ==> p.id < |L| && p.id < |R|
    requires L2 == if p.Up? && p.holeLeft then L[y := x][p.id := y] else L[y := x]
    requires R2 == if p.Up? && !p.holeLeft then R[x := Root(b)][p.id := y] else R[x := Root(b)]
    requires P2 == (if b.Node? then P[b.id := x] else P)[y := HoleParent(p, NIL)][x := y]
    ensures Kept(L, R, P, C, L2, R2, P2, C, Nodes(Plug(p, Node(a, x, Node(b, y, c)))))
  {
    var t := Node(a, x, Node(b, y, c));
    PlugNodes(p, t);
    assert b.Node? ==> b.id in Nodes(b);
    assert x in Nodes(t) && y in Nodes(t) && (b.Node? ==> b.id in Nodes(t));
    assert p.Up? ==> p.id in PathNodes(p);
  }

  /** __rb_rotate_right stores only into nodes of the tree. */
  lemma {:induction false} RotateRightKept(L: seq<int>, R: seq<int>, P: seq<int>, C: seq<Color>, L2: seq<int>, R2: seq<int>, P2: seq<int>,
                                           p: Path, a: Tree, y: nat, b: Tree, x: nat, c: Tree)
    requires |C| == |L| && x < |L| && x < |R| && x < |P| && y < |L| && y < |R| && y < |P| && (b.Node? ==> b.id < |P|)
    requires p.Up? ==> p.id < |L| && p.id < |R|
    requires L2 == if p.Up? && p.holeLeft then L[x := Root(b)][p.id := y] else L[x := Root(b)]
    requires R2 == if p.Up? && !p.holeLeft then R[y := x][p.id := y] else R[y := x]
    requires P2 == (if b.Node? then P[b.id := x] else P)[y := HoleParent(p, NIL)][x := y]
    ensures Kept(L, R, P, C, L2, R2, P2, C, Nodes(Plug(p, Node(Node(a, y, b), x, c))))
  {
    var t := Node(Node(a, y, b), x, c);
    PlugNodes(p, t);
    assert b.Node? ==> b.id in Nodes(b);
    assert x in Nodes(t) && y in Nodes(t) && (b.Node? ==> b.id in Nodes(t));
    assert p.Up? ==> p.id in PathNodes(p);
  }

  /** The links UnlinkOne reads: x's parent and child, and the parent's link to x. */
  lemma {:induction false} UnlinkLinks(L: seq<int>, R: seq<int>, P: seq<int>, p: Path, t: Tree)
    requires Shaped(L, R, P, Plug(p, t), NIL) && t.Node?
    ensures t.id < |P| && P[t.id] == HoleParent(p, NIL)
    ensures p.Up? ==> p.id < |L| && p.id < |R| && (L[p.id] == t.id <==> p.holeLeft)
    ensures (t.l.Node? ==> t.l.id < |P|) && (t.r.Node? ==> t.r.id < |P|)
  {
    UpLink(L, R, P, p, t);
    if p.Up? {
      ParentSide(L, R, P, p, t);
    }
    TopLinks(L, R, P, p, t, NIL);
    if t.l.Node? {
      TopLinks(L, R, P, Up(true, t.id, t.r, p), t.l, NIL);
    }
    if t.r.Node? {
      TopLinks(L, R, P, Up(false, t.id, t.l, p), t.r, NIL);
    }
  }

  /** The links after UnlinkOne's stores describe the tree with x's only subtree c in its place. */
  lemma {:induction false} UnlinkDone(L: seq<int>, R: seq<int>, P: seq<int>, L2: seq<int>, R2: seq<int>, P2: seq<int>,
                                      p: Path, t: Tree)
    requires Shaped(L, R, P, Plug(p, t), NIL) && t.Node? && (t.l.Leaf? || t.r.Leaf?)
    requires t.id < |P| && (p.Up? ==> p.id < |L| && p.id < |R|)
    requires var c := if t.l.Leaf? then t.r else t.l;
      (c.Node? ==> c.id < |P|) &&
      P2 == (if c.Node? then P[c.id := P[t.id]] else P) &&
      L2 == (if p.Up? && p.holeLeft then L[p.id := Root(c)] else L) &&
      R2 == (if p.Up? && !p.holeLeft then R[p.id := Root(c)] else R)
    ensures var c := if t.l.Leaf? then t.r else t.l;
      Shaped(L2, R2, P2, Plug(p, c), NIL) && Root(Plug(p, c)) == (if p.Top? then Root(c) else Root(Plug(p, t)))
  {
    var c := if t.l.Leaf? then t.r else t.l;
    var q := Up(!t.l.Leaf?, t.id, Leaf, p);
    assert Plug(q, c) == Plug(p, t);
    UpLink(L, R, P, p, t);
    SpliceShaped(L, R, P, L2, R2, P2, q, c);
    if p.Up? {
      PlugTop(p, t, c);
    }
  }

  /** The links SpliceSuccessor reads: y's right child and parent, and that parent's link to y. */
  lemma {:induction false} SuccessorLinks(L: seq<int>, R: seq<int>, P: seq<int>, p: Path, a: Tree, x: nat, q: Path, u: Tree)
    requires Shaped(L, R, P, Plug(p, Node(a, x, Plug(q, u))), NIL) && u.Node? && u.l.Leaf?
    ensures u.id < |L| && u.id < |R| && u.id < |P| && R[u.id] == Root(u.r) && P[u.id] == (if q.Top? then x else q.id)
    ensures q.Up? ==> q.id != x && q.id < |L| && q.id < |R|
    ensures x < |R| && (u.r.Node? ==> u.r.id < |P|)
  {
    var r := Concat(q, Up(false, x, a, p));
    SuccessorPath(p, a, x, q, u);
    TopLinks(L, R, P, p, Node(a, x, Plug(q, u)), NIL);
    UpLink(L, R, P, r, u);
    TopLinks(L, R, P, r, u, NIL);
    HoleLinks(L, R, P, r, u, NIL);
    if u.r.Node? {
      assert Plug(Up(false, u.id, u.l, r), u.r) == Plug(r, u);
      TopLinks(L, R, P, Up(false, u.id, u.l, r), u.r, NIL);
    }
  }

  /** The links after SpliceSuccessor's stores describe the tree without y. */
  lemma {:induction false} SuccessorSpliced(L: seq<int>, R: seq<int>, P: seq<int>, L2: seq<int>, R2: seq<int>, P2: seq<int>,
                         p: Path, a: Tree, x: nat, q: Path, u: Tree)
    requires Shaped(L, R, P, Plug(p, Node(a, x, Plug(q, u))), NIL) && AllLeft(q) && u.Node? && u.l.Leaf?
    requires u.id < |P| && (q.Up? ==> q.id < |L| && q.id < |R|) && x < |L| && x < |R| && (u.r.Node? ==> u.r.id < |P|)
    requires P2 == (if u.r.Node? then P[u.r.id := P[u.id]] else P)
    requires L2 == (if q.Top? then L else L[q.id := Root(u.r)]) && R2 == (if q.Top? then R[x := Root(u.r)] else R)
    ensures Shaped(L2, R2, P2, Plug(p, Node(a, x, Plug(q, u.r))), NIL)
    ensures u.id !in Nodes(Plug(p, Node(a, x, Plug(q, u.r))))
    ensures Root(Plug(p, Node(a, x, Plug(q, u.r)))) == Root(Plug(p, Node(a, x, Plug(q, u))))
  {
    var r := Concat(q, Up(false, x, a, p));
    SuccessorPath(p, a, x, q, u);
    UpLink(L, R, P, r, u);
    assert r.Up? && r.id == (if q.Top? then x else q.id) && r.holeLeft == q.Up?;
    assert Plug(Up(false, u.id, Leaf, r), u.r) == Plug(r, u);
    SpliceShaped(L, R, P, L2, R2, P2, Up(false, u.id, Leaf, r), u.r);
    EraseOneInorder(r, u, u.r);
    if p.Up? {
      PlugTop(p, Node(a, x, Plug(q, u)), Node(a, x, Plug(q, u.r)));
    }
  }

  /** The links SubstituteSuccessor reads: x's parent and children, and the parent's link to x. */
  lemma {:induction false} SubstituteLinks(L: seq<int>, R: seq<int>, P: seq<int>, p: Path, a: Tree, x: nat, b: Tree, y: nat)
    requires Shaped(L, R, P, Plug(p, Node(a, x, b)), NIL) && y !in Nodes(Plug(p, Node(a, x, b)))
    ensures x < |L| && x < |R| && x < |P| && x != y && P[x] == HoleParent(p, NIL) && L[x] == Root(a) && R[x] == Root(b)
    ensures a.Node? ==> a.id < |P| && a.id != y && a.id != x
    ensures b.Node? ==> b.id < |P| && b.id != y && b.id != x && (a.Node? ==> b.id != a.id)
    ensures p.Up? ==> p.id < |L| && p.id < |R| && p.id != y && p.id != x && (L[p.id] == x <==> p.holeLeft)
  {
    TopLinks(L, R, P, p, Node(a, x, b), NIL);
    PlugNodes(p, Node(a, x, b));
    PlugDistinct(p, Node(a, x, b));
    InLinks(L, R, P, Plug(p, Node(a, x, b)), x);
    if a.Node? {
      assert a.id in Nodes(a);
      TopLinks(L, R, P, Up(true, x, b, p), a, NIL);
    }
    if b.Node? {
      assert b.id in Nodes(b);
      TopLinks(L, R, P, Up(false, x, a, p), b, NIL);
    }
    if p.Up? {
      ParentSide(L, R, P, p, Node(a, x, b));
      PlugRootIn(p, Node(a, x, b));
      assert p.id in PathNodes(p);
    }
  }

  /** The links after SubstituteSuccessor's stores describe the tree with y in x's place. */
  lemma {:induction false} SubstituteDone(L: seq<int>, R: seq<int>, P: seq<int>, C: seq<Color>, L2: seq<int>, R2: seq<int>, P2: seq<int>, C2: seq<Color>,
                       p: Path, a: Tree, x: nat, b: Tree, y: nat)
    requires Shaped(L, R, P, Plug(p, Node(a, x, b)), NIL) && a.Node? && y !in Nodes(Plug(p, Node(a, x, b)))
    requires |C| == |L| && x < |C| && y < |C| && C2 == C[y := C[x]]
    requires x < |L| && x < |R| && x < |P| && y < |L| && y < |R| && y < |P| && a.id < |P| && (b.Node? ==> b.id < |P|)
    requires p.Up? ==> p.id < |L| && p.id < |R|
    requires L2 == (if p.Up? && p.holeLeft then L[y := L[x]][p.id := y] else L[y := L[x]])
    requires R2 == (if p.Up? && !p.holeLeft then R[y := R[x]][p.id := y] else R[y := R[x]])
    requires P2 == (if b.Node? then P[y := P[x]][a.id := y][b.id := y] else P[y := P[x]][a.id := y])
    ensures Shaped(L2, R2, P2, Plug(p, Node(a, y, b)), NIL)
    ensures Root(Plug(p, Node(a, y, b))) == if p.Top? then y else Root(Plug(p, Node(a, x, b)))
    ensures Kept(L, R, P, C, L2, R2, P2, C2, Nodes(Plug(p, Node(a, x, b))) + {y})
  {
    SubstituteLinks(L, R, P, p, a, x, b, y);
    SubstituteShaped(L, R, P, L2, R2, P2, p, a, x, b, y);
    if p.Up? {
      PlugTop(p, Node(a, x, b), Node(a, y, b));
    }
    SubstituteKept(L, R, P, C, L2, R2, P2, C2, p, a, x, b, y);
  }

  /** rb_erase's stores that move the successor y into x's place write only y and nodes of the tree. */
  lemma {:induction false} SubstituteKept(L: seq<int>, R: seq<int>, P: seq<int>, C: seq<Color>, L2: seq<int>, R2: seq<int>, P2: seq<int>, C2: seq<Color>,
                                          p: Path, a: Tree, x: nat, b: Tree, y: nat)
    requires |C| == |L| && x < |C| && y < |C| && C2 == C[y := C[x]] && a.Node?
    requires x < |L| && x < |R| && x < |P| && y < |L| && y < |R| && y < |P| && a.id < |P| && (b.Node? ==> b.id < |P|)
    requires p.Up? ==> p.id < |L| && p.id < |R|
    requires L2 == (if p.Up? && p.holeLeft then L[y := L[x]][p.id := y] else L[y := L[x]])
    requires R2 == (if p.Up? && !p.holeLeft then R[y := R[x]][p.id := y] else R[y := R[x]])
    requires P2 == (if b.Node? then P[y := P[x]][a.id := y][b.id := y] else P[y := P[x]][a.id := y])
    ensures Kept(L, R, P, C, L2, R2, P2, C2, Nodes(Plug(p, Node(a, x, b))) + {y})
  {
    SubstituteNodes(p, a, x, b);
  }

  /** y in x's place keeps the tree red-black with x's colour, renames x to y in the order, and swaps the two in the nodes. */
  lemma {:induction false} ReplaceTree(C: seq<Color>, p: Path, a: Tree, x: nat, b: Tree, y: nat)
    requires RedBlack.RedBlack(C, Plug(p, Node(a, x, b))) && Distinct(Plug(p, Node(a, x, b)))
    requires y !in Nodes(Plug(p, Node(a, x, b))) && y < |C|
    ensures RedBlack.RedBlack(C[y := Col(C, x)], Plug(p, Node(a, y, b)))
    ensures Inorder(Plug(p, Node(a, y, b))) == Rename(Inorder(Plug(p, Node(a, x, b))), x, y)
    ensures Nodes(Plug(p, Node(a, y, b))) == Nodes(Plug(p, Node(a, x, b))) - {x} + {y}
  {
    SubstituteRedBlack(C, p, a, x, b, y);
    ReplaceInorder(p, a, x, b, y);
    PlugNodes(p, Node(a, x, b));
    PlugNodes(p, Node(a, y, b));
    PlugDistinct(p, Node(a, x, b));
  }

  /** The links after rb_replace_node's stores, in the order it makes them, describe the tree with y in x's place. */
  lemma {:induction false} ReplaceDone(L: seq<int>, R: seq<int>, P: seq<int>, C: seq<Color>, L2: seq<int>, R2: seq<int>, P2: seq<int>, C2: seq<Color>,
                                       p: Path, a: Tree, x: nat, b: Tree, y: nat)
    requires Shaped(L, R, P, Plug(p, Node(a, x, b)), NIL) && y !in Nodes(Plug(p, Node(a, x, b)))
    requires |C| == |L| && x < |C| && y < |C| && C2 == C[y := C[x]]
    requires x < |L| && x < |R| && x < |P| && y < |L| && y < |R| && y < |P|
    requires (a.Node? ==> a.id < |P|) && (b.Node? ==> b.id < |P|) && (p.Up? ==> p.id < |L| && p.id < |R|)
    requires L2 == (if p.Up? && p.holeLeft then L[p.id := y] else L)[y := L[x]]
    requires R2 == (if p.Up? && !p.holeLeft then R[p.id := y] else R)[y := R[x]]
    requires var P1 := if a.Node? then P[a.id := y] else P;
      P2 == (if b.Node? then P1[b.id := y] else P1)[y := P[x]]
    ensures Shaped(L2, R2, P2, Plug(p, Node(a, y, b)), NIL)
    ensures Root(Plug(p, Node(a, y, b))) == if p.Top? then y else Root(Plug(p, Node(a, x, b)))
    ensures Kept(L, R, P, C, L2, R2, P2, C2, Nodes(Plug(p, Node(a, x, b))) + {y})
  {
    SubstituteLinks(L, R, P, p, a, x, b, y);
    SubstituteShaped(L, R, P, L2, R2, P2, p, a, x, b, y);
    if p.Up? {
      PlugTop(p, Node(a, x, b), Node(a, y, b));
    }
    ReplaceKept(L, R, P, C, L2, R2, P2, C2, p, a, x, b, y);
  }

  /** rb_replace_node's stores write only y and nodes of the tree. */
  lemma {:induction false} ReplaceKept(L: seq<int>, R: seq<int>, P: seq<int>, C: seq<Color>, L2: seq<int>, R2: seq<int>, P2: seq<int>, C2: seq<Color>,
                                       p: Path, a: Tree, x: nat, b: Tree, y: nat)
    requires |C| == |L| && x < |C| && y < |C| && C2 == C[y := C[x]]
    requires x < |L| && x < |R| && x < |P| && y < |L| && y < |R| && y < |P|
    requires (a.Node? ==> a.id < |P|) && (b.Node? ==> b.id < |P|) && (p.Up? ==> p.id < |L| && p.id < |R|)
    requires L2 == (if p.Up? && p.holeLeft then L[p.id := y] else L)[y := L[x]]
    requires R2 == (if p.Up? && !p.holeLeft then R[p.id := y] else R)[y := R[x]]
    requires var P1 := if a.Node? then P[a.id := y] else P;
      P2 == (if b.Node? then P1[b.id := y] else P1)[y := P[x]]
    ensures Kept(L, R, P, C, L2, R2, P2, C2, Nodes(Plug(p, Node(a, x, b))) + {y})
  {
    SubstituteNodes(p, a, x, b);
  }

  /** The path to the successor u of x, through x's right subtree: it ends below x, or below a left link of q's node. */
  lemma {:induction false} SuccessorPath(p: Path, a: Tree, x: nat, q: Path, u: Tree)
    requires Distinct(Plug(p, Node(a, x, Plug(q, u)))) && u.Node?
    ensures Plug(Concat(q, Up(false, x, a, p)), u) == Plug(p, Node(a, x, Plug(q, u)))
    ensures Plug(Concat(q, Up(false, x, a, p)), u.r) == Plug(p, Node(a, x, Plug(q, u.r)))
    ensures q.Up? ==> q.id != x
  {
    PlugConcat(q, Up(false, x, a, p), u);
    PlugConcat(q, Up(false, x, a, p), u.r);
    PlugDistinct(p, Node(a, x, Plug(q, u)));
    if q.Up? {
      PlugNodes(q, u);
      assert q.id in PathNodes(q);
    }
  }

  /** rb_insert's descent to the left of t's top, whose key is below item's: the nodes passed come after item. */
  lemma {:induction false} DescendLeft(K: seq<int>, item: nat, p: Path, t: Tree)
    requires t.Node? && Descending(K, Inorder(t)) && item < |K| && t.id < |K| && K[t.id] < K[item]
    requires forall z :: z in After(p) ==> z < |K| && K[z] < K[item]
    ensures Descending(K, Inorder(t.l))
    ensures forall z :: z in [t.id] + Inorder(t.r) + After(p) ==> z < |K| && K[z] < K[item]
  {
    SubtreeKeys(K, t);
    InorderNodes(t.r);
    KeysBelow(K, K[item], [t.id], Inorder(t.r), After(p));
  }

  /** rb_insert's descent to the right of t's top, whose key is above item's: the nodes passed come before item. */
  lemma {:induction false} DescendRight(K: seq<int>, item: nat, p: Path, t: Tree)
    requires t.Node? && Descending(K, Inorder(t)) && item < |K| && t.id < |K| && K[t.id] > K[item]
    requires forall z :: z in Before(p) ==> z < |K| && K[z] > K[item]
    ensures Descending(K, Inorder(t.r))
    ensures forall z :: z in Before(p) + Inorder(t.l) + [t.id] ==> z < |K| && K[z] > K[item]
  {
    SubtreeKeys(K, t);
    InorderNodes(t.l);
    KeysAbove(K, K[item], Before(p), Inorder(t.l), [t.id]);
  }

  /** Where rb_insert's descent ends, item fits between the keys before and after, and the tree is red-black with item red. */
  lemma {:induction false} InsertPlace(K: seq<int>, C: seq<Color>, item: nat, p: Path)
    requires RedBlack.RedBlack(C, Plug(p, Leaf)) && item < |C| && item < |K| && item !in Nodes(Plug(p, Leaf))
    requires Descending(K, Inorder(Plug(p, Leaf))) && Inorder(Plug(p, Leaf)) == Before(p) + After(p)
    requires forall z :: z in Before(p) ==> z < |K| && K[z] > K[item]
    requires forall z :: z in After(p) ==> z < |K| && K[z] < K[item]
    ensures RedBlack.RedBlack(C[item := Red], Plug(p, Leaf))
    ensures Descending(K, Inorder(Plug(p, Node(Leaf, item, Leaf))))
    ensures forall z :: z in Nodes(Plug(p, Leaf)) ==> z < |K| && K[z] != K[item]
    ensures Nodes(Plug(p, Node(Leaf, item, Leaf))) == Nodes(Plug(p, Leaf)) + {item}
  {
    RecolorRedBlack(C, item, Red, Plug(p, Leaf));
    PlugInorder(p, Node(Leaf, item, Leaf));
    assert Inorder(Node(Leaf, item, Leaf)) == [item];
    DescendingInsert(K, Before(p), item, After(p));
    InorderNodes(Plug(p, Leaf));
    PlugNodes(p, Leaf);
    PlugNodes(p, Node(Leaf, item, Leaf));
  }

  /** A rotation keeps the nodes and their symmetric order. */
  lemma {:induction false} RotateSame(p: Path, a: Tree, x: nat, b: Tree, y: nat, c: Tree)
    ensures Inorder(Plug(p, Node(Node(a, x, b), y, c))) == Inorder(Plug(p, Node(a, x, Node(b, y, c))))
    ensures Nodes(Plug(p, Node(Node(a, x, b), y, c))) == Nodes(Plug(p, Node(a, x, Node(b, y, c))))
  {
    assert Inorder(Node(Node(a, x, b), y, c)) == Inorder(Node(a, x, Node(b, y, c)));
    PlugSame(p, Node(a, x, Node(b, y, c)), Node(Node(a, x, b), y, c));
  }

  /** The node after t's top in symmetric order: the first of its right subtree, else the first after the subtree. */
  lemma {:induction false} NextInTree(p: Path, t: Tree)
    requires Distinct(Plug(p, t)) && t.Node?
    ensures NextIn(Inorder(Plug(p, t)), t.id) == if t.r.Node? then Head(Inorder(t.r)) else Head(After(p))
  {
    PlugInorder(p, t);
    DistinctNoDup(Plug(p, t));
    NextAround(Before(p), Inorder(t.l), t.id, Inorder(t.r), After(p));
  }

  /** The node before t's top in symmetric order: the last of its left subtree, else the last before the subtree. */
  lemma {:induction false} PrevInTree(p: Path, t: Tree)
    requires Distinct(Plug(p, t)) && t.Node?
    ensures PrevIn(Inorder(Plug(p, t)), t.id) == if t.l.Node? then Order.Last(Inorder(t.l)) else Order.Last(Before(p))
  {
    PlugInorder(p, t);
    DistinctNoDup(Plug(p, t));
    PrevAround(Before(p), Inorder(t.l), t.id, Inorder(t.r), After(p));
  }

  /** The nodes of a tree are those its symmetric order lists: taking x out of the one takes it out of the other. */
  lemma {:induction false} WithoutNodes(t: Tree, t2: Tree, x: nat)
    requires Inorder(t2) == Without(Inorder(t), x)
    ensures Nodes(t2) == Nodes(t) - {x}
  {
    InorderNodes(t);
    InorderNodes(t2);
  }

  /** Unlinking a node with at most one child, the child taking its place, takes it out of the symmetric order. */
  lemma {:induction false} EraseOneInorder(p: Path, t: Tree, c: Tree)
    requires Distinct(Plug(p, t)) && t.Node? && ((t.l.Leaf? && c == t.r) || (t.r.Leaf? && c == t.l))
    ensures Inorder(Plug(p, c)) == Without(Inorder(Plug(p, t)), t.id)
    ensures Nodes(Plug(p, c)) == Nodes(Plug(p, t)) - {t.id}
  {
    PlugInorder(p, t);
    PlugInorder(p, c);
    DistinctNoDup(Plug(p, t));
    WithoutAround(Before(p), Inorder(t.l), t.id, Inorder(t.r), After(p));
    assert Inorder(c) == Inorder(t.l) + Inorder(t.r);
    WithoutNodes(Plug(p, t), Plug(p, c), t.id);
  }

  /**
   * Unlinking a node x with two children, its successor y (the leftmost
   * node u of its right subtree, reached by q) taking its place and y's right
   * subtree y's: x leaves the symmetric order, the others keep theirs.
   */
  lemma {:induction false} EraseTwoInorder(p: Path, a: Tree, x: nat, q: Path, u: Tree)
    requires Distinct(Plug(p, Node(a, x, Plug(q, u)))) && AllLeft(q) && u.Node? && u.l.Leaf?
    ensures Inorder(Plug(p, Node(a, u.id, Plug(q, u.r)))) == Without(Inorder(Plug(p, Node(a, x, Plug(q, u)))), x)
    ensures Nodes(Plug(p, Node(a, u.id, Plug(q, u.r)))) == Nodes(Plug(p, Node(a, x, Plug(q, u)))) - {x}
  {
    var t, t2 := Node(a, x, Plug(q, u)), Node(a, u.id, Plug(q, u.r));
    var w := Inorder(Plug(q, u.r));
    PlugInorder(p, t);
    PlugInorder(p, t2);
    LeftmostInorder(q, u);
    DistinctNoDup(Plug(p, t));
    WithoutAround(Before(p), Inorder(a), x, [u.id] + w, After(p));
    assert Inorder(a) + ([u.id] + w) == Inorder(a) + [u.id] + w;
    WithoutNodes(Plug(p, t), Plug(p, t2), x);
  }

  /** Below a path that only goes left, a node without a left child comes first. */
  lemma {:induction false} LeftmostInorder(q: Path, u: Tree)
    requires AllLeft(q) && u.Node? && u.l.Leaf?
    ensures Inorder(Plug(q, u)) == [u.id] + Inorder(Plug(q, u.r))
  {
    PlugInorder(q, u);
    PlugInorder(q, u.r);
    AllLeftBefore(q);
    assert Inorder(u) == [u.id] + Inorder(u.r);
  }

  /** Putting y in x's place renames x to y in the symmetric order. */
  lemma {:induction false} ReplaceInorder(p: Path, a: Tree, x: nat, b: Tree, y: nat)
    requires Distinct(Plug(p, Node(a, x, b)))
    ensures Inorder(Plug(p, Node(a, y, b))) == Rename(Inorder(Plug(p, Node(a, x, b))), x, y)
  {
    PlugInorder(p, Node(a, x, b));
    PlugInorder(p, Node(a, y, b));
    DistinctNoDup(Plug(p, Node(a, x, b)));
    RenameAround(Before(p), Inorder(a), x, Inorder(b), After(p), y);
  }
}
