/**
 * The colour rules of the red-black trees of lib/rbtree.c, on tree values.
 * A subtree is Balanced at black height h when no red node has a red child
 * and every way down to NULL meets h black nodes. A Context says the same of
 * everything around a subtree a path leads to, for a subtree of height h in
 * the hole: the fix-ups of rb_insert_color and __rb_erase_color keep a
 * Context while they repair the subtree below it, and each case of their
 * loops is a lemma here.
 */
module RedBlack {
  import opened Arena

  /** The colour bit of par_color: RB_RED is 0 and RB_BLACK is 1. */
  datatype Color = Red | Black

  /** The colour of node x; a node outside the arena counts as black, like NULL. */
  function Col(C: seq<Color>, x: nat): Color
  {
    if x < |C| then C[x] else Black
  }

  /** rb_is_red of the link to the top of t: a NULL link is black. */
  predicate IsRed(C: seq<Color>, t: Tree)
  {
    t.Node? && Col(C, t.id) == Red
  }

  function Weight(c: Color): int
  {
    if c == Black then 1 else 0
  }

  /** No red node of t has a red child, and every way down t meets h black nodes. */
  ghost predicate Balanced(C: seq<Color>, t: Tree, h: int)
  {
    if t.Leaf? then h == 0
    else
      (Col(C, t.id) == Red ==> !IsRed(C, t.l) && !IsRed(C, t.r)) &&
      Balanced(C, t.l, h - Weight(Col(C, t.id))) && Balanced(C, t.r, h - Weight(Col(C, t.id)))
  }

  /** The black nodes down the left side of t. */
  function BlackHeight(C: seq<Color>, t: Tree): int
  {
    if t.Leaf? then 0 else BlackHeight(C, t.l) + Weight(Col(C, t.id))
  }

  /** A red-black tree: balanced, with a black (or NULL) root. */
  ghost predicate RedBlack(C: seq<Color>, t: Tree)
  {
    Balanced(C, t, BlackHeight(C, t)) && !IsRed(C, t)
  }

  /** The height a subtree is balanced at is its black height, and never negative. */
  lemma {:induction false} BalancedHeight(C: seq<Color>, t: Tree, h: int)
    requires Balanced(C, t, h)
    ensures h == BlackHeight(C, t) && h >= 0
  {
    if t.Node? {
      BalancedHeight(C, t.l, h - Weight(Col(C, t.id)));
    }
  }

  /** A non-empty subtree has a black height of at least its top's weight. */
  lemma {:induction false} BalancedNode(C: seq<Color>, t: Tree, h: int)
    requires Balanced(C, t, h) && t.Node?
    ensures h >= Weight(Col(C, t.id))
  {
    BalancedHeight(C, t.l, h - Weight(Col(C, t.id)));
  }

  /** Colourings that agree on the nodes of S. */
  ghost predicate Agree(C: seq<Color>, C2: seq<Color>, S: set<nat>)
  {
    forall y :: y in S ==> Col(C2, y) == Col(C, y)
  }

  /** Balance looks only at the colours of the subtree's own nodes. */
  lemma {:induction false} BalancedFrame(C: seq<Color>, C2: seq<Color>, t: Tree, h: int)
    requires Balanced(C, t, h) && Agree(C, C2, Nodes(t))
    ensures Balanced(C2, t, h)
  {
    if t.Node? {
      BalancedFrame(C, C2, t.l, h - Weight(Col(C, t.id)));
      BalancedFrame(C, C2, t.r, h - Weight(Col(C, t.id)));
    }
  }

  /** Recolouring a node outside a subtree keeps its balance. */
  lemma {:induction false} Recolor1(C: seq<Color>, a: nat, ca: Color, t: Tree, h: int)
    requires Balanced(C, t, h) && a < |C| && a !in Nodes(t)
    ensures Balanced(C[a := ca], t, h) && IsRed(C[a := ca], t) == IsRed(C, t)
  {
    BalancedFrame(C, C[a := ca], t, h);
  }

  /** Recolouring two nodes outside a subtree keeps its balance. */
  lemma {:induction false} Recolor(C: seq<Color>, a: nat, ca: Color, b: nat, cb: Color, t: Tree, h: int)
    requires Balanced(C, t, h) && a < |C| && b < |C| && a !in Nodes(t) && b !in Nodes(t)
    ensures Balanced(C[a := ca][b := cb], t, h) && IsRed(C[a := ca][b := cb], t) == IsRed(C, t)
  {
    BalancedFrame(C, C[a := ca][b := cb], t, h);
  }

  /** The same for three nodes. */
  lemma {:induction false} Recolor3(C: seq<Color>, a: nat, ca: Color, b: nat, cb: Color, c: nat, cc: Color, t: Tree, h: int)
    requires Balanced(C, t, h) && a < |C| && b < |C| && c < |C| && a !in Nodes(t) && b !in Nodes(t) && c !in Nodes(t)
    ensures Balanced(C[a := ca][b := cb][c := cc], t, h) && IsRed(C[a := ca][b := cb][c := cc], t) == IsRed(C, t)
  {
    BalancedFrame(C, C[a := ca][b := cb][c := cc], t, h);
  }

  /**
   * Around the subtree p leads to, for a subtree balanced at h whose top is
   * red when holeRed: the subtrees beside the path are balanced at the
   * heights they meet the hole's, no red ancestor has a red child (save, when
   * relax, the nearest one with a red top in the hole), and the top of the
   * whole tree is black.
   */
  ghost predicate Context(C: seq<Color>, p: Path, h: int, holeRed: bool, relax: bool)
  {
    p.Up? ==>
      Balanced(C, p.other, h) &&
      (Col(C, p.id) == Red ==> !IsRed(C, p.other) && (relax || !holeRed)) &&
      (p.above.Top? ==> Col(C, p.id) == Black) &&
      Context(C, p.above, h + Weight(Col(C, p.id)), Col(C, p.id) == Red, false)
  }

  /** The black height of the whole tree, for a subtree of height h in the hole. */
  function Height(C: seq<Color>, p: Path, h: int): int
  {
    if p.Top? then h else Height(C, p.above, h + Weight(Col(C, p.id)))
  }

  /** A context asks the same of the path's nodes under colourings that agree on them. */
  lemma {:induction false} ContextFrame(C: seq<Color>, C2: seq<Color>, p: Path, h: int, holeRed: bool, relax: bool)
    requires Context(C, p, h, holeRed, relax) && Agree(C, C2, PathNodes(p))
    ensures Context(C2, p, h, holeRed, relax)
  {
    if p.Up? {
      BalancedFrame(C, C2, p.other, h);
      ContextFrame(C, C2, p.above, h + Weight(Col(C, p.id)), Col(C, p.id) == Red, false);
    }
  }

  /** Recolouring a node off a path keeps the context. */
  lemma {:induction false} RecolorContext1(C: seq<Color>, a: nat, ca: Color, p: Path, h: int, holeRed: bool, relax: bool)
    requires Context(C, p, h, holeRed, relax) && a < |C| && a !in PathNodes(p)
    ensures Context(C[a := ca], p, h, holeRed, relax)
  {
    ContextFrame(C, C[a := ca], p, h, holeRed, relax);
  }

  /** Recolouring two nodes off a path keeps the context. */
  lemma {:induction false} RecolorContext(C: seq<Color>, a: nat, ca: Color, b: nat, cb: Color, p: Path, h: int, holeRed: bool, relax: bool)
    requires Context(C, p, h, holeRed, relax) && a < |C| && b < |C| && a !in PathNodes(p) && b !in PathNodes(p)
    ensures Context(C[a := ca][b := cb], p, h, holeRed, relax)
  {
    ContextFrame(C, C[a := ca][b := cb], p, h, holeRed, relax);
  }

  /** The same for three nodes. */
  lemma {:induction false} RecolorContext3(C: seq<Color>, a: nat, ca: Color, b: nat, cb: Color, c: nat, cc: Color, p: Path, h: int, holeRed: bool, relax: bool)
    requires Context(C, p, h, holeRed, relax) && a < |C| && b < |C| && c < |C|
    requires a !in PathNodes(p) && b !in PathNodes(p) && c !in PathNodes(p)
    ensures Context(C[a := ca][b := cb][c := cc], p, h, holeRed, relax)
  {
    ContextFrame(C, C[a := ca][b := cb][c := cc], p, h, holeRed, relax);
  }

  /** A context for a red top in the hole, or with the rule relaxed, serves any hole a weaker rule allows. */
  lemma {:induction false} ContextWeaken(C: seq<Color>, p: Path, h: int, holeRed: bool, relax: bool, holeRed2: bool, relax2: bool)
    requires Context(C, p, h, holeRed, relax) && ((relax || !holeRed) ==> (relax2 || !holeRed2))
    ensures Context(C, p, h, holeRed2, relax2)
  {
  }

  /** A red node over two balanced subtrees with black tops. */
  lemma {:induction false} RedNode(C: seq<Color>, l: Tree, x: nat, r: Tree, h: int)
    requires Col(C, x) == Red && !IsRed(C, l) && !IsRed(C, r) && Balanced(C, l, h) && Balanced(C, r, h)
    ensures Balanced(C, Node(l, x, r), h)
  {
  }

  /** A black node over two balanced subtrees. */
  lemma {:induction false} BlackNode(C: seq<Color>, l: Tree, x: nat, r: Tree, h: int)
    requires Col(C, x) == Black && Balanced(C, l, h) && Balanced(C, r, h)
    ensures Balanced(C, Node(l, x, r), h + 1)
  {
  }

  /** The same, for children one black lower than h. */
  lemma {:induction false} BlackOver(C: seq<Color>, l: Tree, x: nat, r: Tree, h: int)
    requires Col(C, x) == Black && Balanced(C, l, h - 1) && Balanced(C, r, h - 1)
    ensures Balanced(C, Node(l, x, r), h)
  {
  }

  /** A context one black ancestor longer. */
  lemma {:induction false} BlackContext(C: seq<Color>, holeLeft: bool, x: nat, other: Tree, above: Path, h: int, holeRed: bool, relax: bool)
    requires Col(C, x) == Black && Balanced(C, other, h) && Context(C, above, h + 1, false, false)
    ensures Context(C, Up(holeLeft, x, other, above), h, holeRed, relax)
  {
  }

  /** A context one red ancestor longer. */
  lemma {:induction false} RedContext(C: seq<Color>, holeLeft: bool, x: nat, other: Tree, above: Path, h: int, holeRed: bool, relax: bool)
    requires Col(C, x) == Red && !IsRed(C, other) && (relax || !holeRed) && Balanced(C, other, h)
    requires above.Up? && Context(C, above, h, true, false)
    ensures Context(C, Up(holeLeft, x, other, above), h, holeRed, relax)
  {
  }

  /** A balanced subtree in a context makes a balanced tree with a black top. */
  lemma {:induction false} PlugBalanced(C: seq<Color>, p: Path, s: Tree, h: int)
    requires Context(C, p, h, IsRed(C, s), false) && Balanced(C, s, h)
    ensures Balanced(C, Plug(p, s), Height(C, p, h))
    ensures p.Up? ==> !IsRed(C, Plug(p, s))
  {
    if p.Up? {
      var w := Weight(Col(C, p.id));
      assert Balanced(C, Attach(p, s), h + w);
      PlugBalanced(C, p.above, Attach(p, s), h + w);
    }
  }

  /** The same, as a red-black tree. */
  lemma {:induction false} PlugRedBlack(C: seq<Color>, p: Path, s: Tree, h: int)
    requires Context(C, p, h, IsRed(C, s), false) && Balanced(C, s, h) && (p.Top? ==> !IsRed(C, s))
    ensures RedBlack(C, Plug(p, s))
  {
    PlugBalanced(C, p, s, h);
    BalancedHeight(C, Plug(p, s), Height(C, p, h));
  }

  /** Conversely, every subtree of a red-black tree is balanced, in a context. */
  lemma {:induction false} SplitBalanced(C: seq<Color>, p: Path, s: Tree, H: int)
    requires Balanced(C, Plug(p, s), H) && !IsRed(C, Plug(p, s))
    ensures Balanced(C, s, BlackHeight(C, s))
    ensures Context(C, p, BlackHeight(C, s), IsRed(C, s), false)
    ensures Height(C, p, BlackHeight(C, s)) == H
  {
    if p.Top? {
      BalancedHeight(C, s, H);
    } else {
      var a := Attach(p, s);
      SplitBalanced(C, p.above, a, H);
      var w := Weight(Col(C, p.id));
      BalancedHeight(C, s, BlackHeight(C, a) - w);
    }
  }

  /** The same for a red-black tree. */
  lemma {:induction false} SplitRedBlack(C: seq<Color>, p: Path, s: Tree)
    requires RedBlack(C, Plug(p, s))
    ensures Balanced(C, s, BlackHeight(C, s))
    ensures Context(C, p, BlackHeight(C, s), IsRed(C, s), false)
  {
    SplitBalanced(C, p, s, BlackHeight(C, Plug(p, s)));
  }

  /** Making the top of a balanced tree black gives a red-black tree. */
  lemma {:induction false} BlackenTop(C: seq<Color>, t: Tree, h: int)
    requires Balanced(C, t, h) && Distinct(t) && t.Node? && t.id < |C|
    ensures RedBlack(C[t.id := Black], t)
  {
    var C2 := C[t.id := Black];
    var h2 := h - Weight(Col(C, t.id));
    assert Balanced(C, t.l, h2) && Balanced(C, t.r, h2) && t.id !in Nodes(t.l) && t.id !in Nodes(t.r);
    Recolor1(C, t.id, Black, t.l, h2);
    Recolor1(C, t.id, Black, t.r, h2);
    BlackNode(C2, t.l, t.id, t.r, h2);
    BalancedHeight(C2, t, h2 + 1);
  }

  // ---------------------------------------------------------------------------
  // rb_insert_color: node is red, and the only rule that may fail is that its
  // parent is red too; the loop state is Context(C, p, h, true, true) with a
  // balanced subtree of height h and a red top in the hole.

  /**
   * The grandparent of a red parent exists and is black; the parent's
   * sibling subtree and the uncle's are balanced at the node's height.
   */
  lemma {:induction false} GrandContext(C: seq<Color>, p: Path, h: int)
    requires Context(C, p, h, true, true) && p.Up? && Col(C, p.id) == Red
    ensures p.above.Up? && Col(C, p.above.id) == Black && !IsRed(C, p.other)
    ensures Balanced(C, p.other, h) && Balanced(C, p.above.other, h)
    ensures Context(C, p.above.above, h + 1, false, false)
  {
    var h1 := h + Weight(Col(C, p.id));
    assert h1 == h;
    var h2 := h1 + Weight(Col(C, p.above.id));
    assert h2 == h + 1;
  }

  /**
   * Red uncle: the parent and the uncle turn black, the grandparent red, and
   * the fix-up goes on two levels up with the grandparent's subtree.
   */
  lemma {:induction false} InsRecolor(C: seq<Color>, p: Path, s: Tree, h: int)
    requires Context(C, p, h, true, true) && Balanced(C, s, h) && IsRed(C, s)
    requires p.Up? && p.above.Up? && Col(C, p.id) == Red && IsRed(C, p.above.other)
    requires Distinct(Plug(p, s)) && p.above.id < |C|
    ensures var C2 := C[p.above.other.id := Black][p.id := Black][p.above.id := Red];
            var s2 := Attach(p.above, Attach(p, s));
            Context(C2, p.above.above, h + 1, true, true) && Balanced(C2, s2, h + 1) && IsRed(C2, s2)
  {
    var q := p.above;
    var u := q.other;
    var C2 := C[u.id := Black][p.id := Black][q.id := Red];
    InsRecolorPrep(C, p, s, h);
    AttachBlack(C2, p, s, h);
    BlackNode(C2, u.l, u.id, u.r, h);
    AttachRed(C2, q, Attach(p, s), h + 1);
    ContextWeaken(C2, q.above, h + 1, false, false, true, true);
  }

  /** The colours of the red-uncle case, in terms of the path. */
  lemma {:induction false} InsRecolorPrep(C: seq<Color>, p: Path, s: Tree, h: int)
    requires Context(C, p, h, true, true) && Balanced(C, s, h) && IsRed(C, s)
    requires p.Up? && p.above.Up? && Col(C, p.id) == Red && IsRed(C, p.above.other)
    requires Distinct(Plug(p, s)) && p.above.id < |C|
    ensures var par, sib, g, u, above := p.id, p.other, p.above.id, p.above.other, p.above.above;
            var C2 := C[u.id := Black][par := Black][g := Red];
            Context(C2, above, h + 1, false, false) &&
            Balanced(C2, s, h) && Balanced(C2, sib, h) && Balanced(C2, u.l, h) && Balanced(C2, u.r, h) &&
            IsRed(C2, s) && !IsRed(C2, sib) && Col(C2, par) == Black && Col(C2, g) == Red && Col(C2, u.id) == Black
  {
    var q := p.above;
    var u := q.other;
    GrandContext(C, p, h);
    assert Balanced(C, u.l, h) && Balanced(C, u.r, h);
    GrandParts(p, s);
    UncleParts(p, s);
    InsRecolorColors(C, s, p.id, p.other, q.id, u, q.above, h);
  }

  /** A black node put over a subtree on either side. */
  lemma {:induction false} AttachBlack(C: seq<Color>, p: Path, t: Tree, h: int)
    requires p.Up? && Col(C, p.id) == Black && Balanced(C, t, h) && Balanced(C, p.other, h)
    ensures Balanced(C, Attach(p, t), h + 1) && !IsRed(C, Attach(p, t))
  {
  }

  /** A red node put over a subtree on either side; both have black tops. */
  lemma {:induction false} AttachRed(C: seq<Color>, p: Path, t: Tree, h: int)
    requires p.Up? && Col(C, p.id) == Red && Balanced(C, t, h) && Balanced(C, p.other, h)
    requires !IsRed(C, t) && !IsRed(C, p.other)
    ensures Balanced(C, Attach(p, t), h) && IsRed(C, Attach(p, t))
  {
  }

  /** The parent and the grandparent are apart from the subtrees around them and from the path above. */
  lemma {:induction false} GrandParts(p: Path, s: Tree)
    requires Distinct(Plug(p, s)) && p.Up? && p.above.Up?
    ensures var par, sib, g, u, above := p.id, p.other, p.above.id, p.above.other, p.above.above;
            par !in Nodes(s) && par !in Nodes(sib) && par !in Nodes(u) && par !in PathNodes(above) &&
            g !in Nodes(s) && g !in Nodes(sib) && g !in Nodes(u) && g !in PathNodes(above) && par != g &&
            Nodes(s) !! Nodes(u) && Nodes(sib) !! Nodes(u)
  {
    var q := p.above;
    PlugDistinct(p, s);
    assert PathDistinct(q);
    PathApart(Nodes(s), p);
    PathApart(Nodes(s), q);
    PathOut(p.id, q);
    assert Nodes(p.other) !! PathNodes(q);
    PathApart(Nodes(p.other), q);
  }

  /** The uncle's node and subtrees are apart from the parent, the grandparent and the path above. */
  lemma {:induction false} UncleParts(p: Path, s: Tree)
    requires Distinct(Plug(p, s)) && p.Up? && p.above.Up? && p.above.other.Node?
    ensures var par, g, u, above := p.id, p.above.id, p.above.other, p.above.above;
            u.id !in PathNodes(above) && u.id != par && u.id != g &&
            par !in Nodes(u.l) && par !in Nodes(u.r) && g !in Nodes(u.l) && g !in Nodes(u.r) &&
            u.id !in Nodes(u.l) && u.id !in Nodes(u.r) && Nodes(u.l) !! PathNodes(above) && Nodes(u.r) !! PathNodes(above)
  {
    var q := p.above;
    PlugDistinct(p, s);
    assert PathDistinct(q);
    PathOut(p.id, q);
    assert PathNodes(q.above) !! Nodes(q.other);
    NodeApart(PathNodes(q.above), q.other);
  }

  /** The colours of the red-uncle case, on either side. */
  lemma {:induction false} InsRecolorColors(C: seq<Color>, s: Tree, par: nat, sib: Tree, g: nat, u: Tree, above: Path, h: int)
    requires Context(C, above, h + 1, false, false) && Balanced(C, s, h) && Balanced(C, sib, h)
    requires u.Node? && Balanced(C, u.l, h) && Balanced(C, u.r, h) && u.id < |C| && par < |C| && g < |C|
    requires par !in Nodes(s) && par !in Nodes(sib) && par !in Nodes(u) && par !in PathNodes(above)
    requires g !in Nodes(s) && g !in Nodes(sib) && g !in Nodes(u) && g !in PathNodes(above) && par != g
    requires u.id !in PathNodes(above) && u.id != par && u.id != g
    requires par !in Nodes(u.l) && par !in Nodes(u.r) && g !in Nodes(u.l) && g !in Nodes(u.r)
    requires u.id !in Nodes(u.l) && u.id !in Nodes(u.r) && Nodes(u.l) !! PathNodes(above) && Nodes(u.r) !! PathNodes(above)
    requires Nodes(s) !! Nodes(u) && Nodes(sib) !! Nodes(u)
    ensures var C2 := C[u.id := Black][par := Black][g := Red];
            Context(C2, above, h + 1, false, false) &&
            Balanced(C2, s, h) && Balanced(C2, sib, h) && Balanced(C2, u.l, h) && Balanced(C2, u.r, h) &&
            IsRed(C2, s) == IsRed(C, s) && IsRed(C2, sib) == IsRed(C, sib) &&
            IsRed(C2, u.l) == IsRed(C, u.l) && IsRed(C2, u.r) == IsRed(C, u.r) &&
            Col(C2, par) == Black && Col(C2, g) == Red && Col(C2, u.id) == Black
  {
    assert u.id !in Nodes(s) && u.id !in Nodes(sib);
    Recolor3(C, u.id, Black, par, Black, g, Red, s, h);
    Recolor3(C, u.id, Black, par, Black, g, Red, sib, h);
    Recolor3(C, u.id, Black, par, Black, g, Red, u.l, h);
    Recolor3(C, u.id, Black, par, Black, g, Red, u.r, h);
    RecolorContext3(C, u.id, Black, par, Black, g, Red, above, h + 1, false, false);
  }

  /**
   * Parent a left child, node its right child: after the left rotation at the
   * parent, the old parent is the red node below a red one, on the outer side.
   */
  lemma {:induction false} InsPreLeft(C: seq<Color>, p: Path, s: Tree, h: int)
    requires Context(C, p, h, true, true) && Balanced(C, s, h) && IsRed(C, s)
    requires p.Up? && !p.holeLeft && p.above.Up? && p.above.holeLeft && Col(C, p.id) == Red
    ensures Context(C, Up(true, s.id, s.r, p.above), h, true, true)
    ensures Balanced(C, Node(p.other, p.id, s.l), h) && IsRed(C, Node(p.other, p.id, s.l))
  {
  }

  /** The mirror case: parent a right child, node its left child, rotated right at the parent. */
  lemma {:induction false} InsPreRight(C: seq<Color>, p: Path, s: Tree, h: int)
    requires Context(C, p, h, true, true) && Balanced(C, s, h) && IsRed(C, s)
    requires p.Up? && p.holeLeft && p.above.Up? && !p.above.holeLeft && Col(C, p.id) == Red
    ensures Context(C, Up(false, s.id, s.l, p.above), h, true, true)
    ensures Balanced(C, Node(s.r, p.id, p.other), h) && IsRed(C, Node(s.r, p.id, p.other))
  {
  }

  /**
   * Black uncle, node and parent both left children: the parent turns black,
   * the grandparent red, and the right rotation at the grandparent puts the
   * parent on top of it.
   */
  lemma {:induction false} InsStraightLeft(C: seq<Color>, s: Tree, par: nat, sib: Tree, g: nat, u: Tree, above: Path, h: int)
    requires Context(C, Up(true, par, sib, Up(true, g, u, above)), h, true, true) && Balanced(C, s, h) && IsRed(C, s)
    requires Col(C, par) == Red && !IsRed(C, u)
    requires Distinct(Plug(Up(true, par, sib, Up(true, g, u, above)), s)) && par < |C| && g < |C|
    ensures var C2 := C[par := Black][g := Red];
            Context(C2, Up(true, par, Node(sib, g, u), above), h, true, true) && Balanced(C2, s, h) && IsRed(C2, s)
  {
    GrandParts(Up(true, par, sib, Up(true, g, u, above)), s);
    GrandContext(C, Up(true, par, sib, Up(true, g, u, above)), h);
    InsStraight(C, s, par, sib, g, u, above, h);
    var C2 := C[par := Black][g := Red];
    RedNode(C2, sib, g, u, h);
    BlackContext(C2, true, par, Node(sib, g, u), above, h, true, true);
  }

  /** The mirror case: node and parent both right children, rotated left at the grandparent. */
  lemma {:induction false} InsStraightRight(C: seq<Color>, s: Tree, par: nat, sib: Tree, g: nat, u: Tree, above: Path, h: int)
    requires Context(C, Up(false, par, sib, Up(false, g, u, above)), h, true, true) && Balanced(C, s, h) && IsRed(C, s)
    requires Col(C, par) == Red && !IsRed(C, u)
    requires Distinct(Plug(Up(false, par, sib, Up(false, g, u, above)), s)) && par < |C| && g < |C|
    ensures var C2 := C[par := Black][g := Red];
            Context(C2, Up(false, par, Node(u, g, sib), above), h, true, true) && Balanced(C2, s, h) && IsRed(C2, s)
  {
    GrandParts(Up(false, par, sib, Up(false, g, u, above)), s);
    GrandContext(C, Up(false, par, sib, Up(false, g, u, above)), h);
    InsStraight(C, s, par, sib, g, u, above, h);
    var C2 := C[par := Black][g := Red];
    RedNode(C2, u, g, sib, h);
    BlackContext(C2, false, par, Node(u, g, sib), above, h, true, true);
  }

  /** The colours of the two straight cases, on either side. */
  lemma {:induction false} InsStraight(C: seq<Color>, s: Tree, par: nat, sib: Tree, g: nat, u: Tree, above: Path, h: int)
    requires Context(C, above, h + 1, false, false) && Balanced(C, s, h) && Balanced(C, sib, h) && Balanced(C, u, h)
    requires IsRed(C, s) && !IsRed(C, sib) && !IsRed(C, u) && par < |C| && g < |C|
    requires par !in Nodes(s) && par !in Nodes(sib) && par !in Nodes(u) && par !in PathNodes(above)
    requires g !in Nodes(s) && g !in Nodes(sib) && g !in Nodes(u) && g !in PathNodes(above) && par != g
    ensures var C2 := C[par := Black][g := Red];
            Context(C2, above, h + 1, false, false) &&
            Balanced(C2, s, h) && Balanced(C2, sib, h) && Balanced(C2, u, h) &&
            IsRed(C2, s) && !IsRed(C2, sib) && !IsRed(C2, u) && Col(C2, par) == Black && Col(C2, g) == Red
  {
    Recolor(C, par, Black, g, Red, s, h);
    Recolor(C, par, Black, g, Red, sib, h);
    Recolor(C, par, Black, g, Red, u, h);
    RecolorContext(C, par, Black, g, Red, above, h + 1, false, false);
  }

  /**
   * The loop stops at the top or below a black parent; with the top made
   * black the tree is red-black.
   */
  lemma {:induction false} InsDone(C: seq<Color>, p: Path, s: Tree, h: int)
    requires Context(C, p, h, true, true) && Balanced(C, s, h)
    requires p.Top? || Col(C, p.id) == Black
    requires Distinct(Plug(p, s)) && Plug(p, s).Node? && Plug(p, s).id < |C|
    ensures RedBlack(C[Plug(p, s).id := Black], Plug(p, s))
  {
    assert Context(C, p, h, IsRed(C, s), false);
    PlugBalanced(C, p, s, h);
    BlackenTop(C, Plug(p, s), Height(C, p, h));
  }

  // ---------------------------------------------------------------------------
  // __rb_erase_color: the subtree in the hole is one black short of the
  // height h its context asks for, unless its top is red, in which case only
  // its children are short and blackening the top repairs it.

  /** The subtree at node in __rb_erase_color: one black short of h, or a red top over children that are. */
  ghost predicate Deficit(C: seq<Color>, t: Tree, h: int)
  {
    if IsRed(C, t) then Balanced(C, t.l, h - 1) && Balanced(C, t.r, h - 1) else Balanced(C, t, h - 1)
  }

  /** What a context says about the nearest ancestor, whatever its colour. */
  lemma {:induction false} ContextUp(C: seq<Color>, p: Path, h: int, holeRed: bool, relax: bool, H: int, parRed: bool)
    requires Context(C, p, h, holeRed, relax) && p.Up?
    requires H == h + Weight(Col(C, p.id)) && parRed == (Col(C, p.id) == Red)
    ensures Balanced(C, p.other, h) && (parRed ==> !IsRed(C, p.other)) && (p.above.Top? ==> !parRed)
    ensures Context(C, p.above, H, parRed, false)
  {
  }

  /** The children of a black node are one black lower. */
  lemma {:induction false} BlackChildren(C: seq<Color>, t: Tree, h: int)
    requires Balanced(C, t, h) && t.Node? && !IsRed(C, t)
    ensures Balanced(C, t.l, h - 1) && Balanced(C, t.r, h - 1)
  {
  }

  /** The children of a red node are at its height, with black tops. */
  lemma {:induction false} RedChildren(C: seq<Color>, t: Tree, h: int)
    requires Balanced(C, t, h) && IsRed(C, t)
    ensures Balanced(C, t.l, h) && Balanced(C, t.r, h) && !IsRed(C, t.l) && !IsRed(C, t.r)
  {
  }

  /** What a context says about a black nearest ancestor. */
  lemma {:induction false} BlackParent(C: seq<Color>, p: Path, h: int, holeRed: bool, relax: bool)
    requires Context(C, p, h, holeRed, relax) && p.Up? && Col(C, p.id) == Black
    ensures Balanced(C, p.other, h) && Context(C, p.above, h + 1, false, false)
  {
    assert h + Weight(Col(C, p.id)) == h + 1;
  }

  /** What a context says about a red nearest ancestor. */
  lemma {:induction false} RedParent(C: seq<Color>, p: Path, h: int, holeRed: bool, relax: bool)
    requires Context(C, p, h, holeRed, relax) && p.Up? && Col(C, p.id) == Red
    ensures Balanced(C, p.other, h) && !IsRed(C, p.other) && (relax || !holeRed)
    ensures p.above.Up? && Context(C, p.above, h, true, false)
  {
    assert h + Weight(Col(C, p.id)) == h;
  }

  /** The sibling and the parent are apart from each other, from the hole and from the path above. */
  lemma {:induction false} SibParts(p: Path, s: Tree)
    requires Distinct(Plug(p, s)) && p.Up? && p.other.Node?
    ensures var par, o, above := p.id, p.other, p.above;
            o.id != par && o.id !in Nodes(s) && par !in Nodes(s) &&
            o.id !in PathNodes(above) && par !in PathNodes(above) &&
            o.id !in Nodes(o.l) && o.id !in Nodes(o.r) && par !in Nodes(o.l) && par !in Nodes(o.r) &&
            Nodes(o.l) !! PathNodes(above) && Nodes(o.r) !! PathNodes(above) &&
            Nodes(s) !! Nodes(o.l) && Nodes(s) !! Nodes(o.r) && Nodes(o.l) !! Nodes(o.r) &&
            Distinct(o.l) && Distinct(o.r) && Distinct(s)
  {
    PlugDistinct(p, s);
    PathApart(Nodes(s), p);
    assert PathDistinct(p);
    NodeApart(Nodes(s), p.other);
    assert PathNodes(p.above) !! Nodes(p.other);
    NodeApart(PathNodes(p.above), p.other);
  }

  /** A nephew n, a child of the sibling, is apart from everything around it. */
  lemma {:induction false} NephewParts(s: Tree, par: nat, o: nat, n: Tree, m: Tree, above: Path)
    requires n.Node? && Distinct(n) && par !in Nodes(n) && o !in Nodes(n)
    requires Nodes(n) !! PathNodes(above) && Nodes(s) !! Nodes(n) && Nodes(n) !! Nodes(m)
    ensures n.id != par && n.id != o && n.id !in PathNodes(above) && n.id !in Nodes(s) && n.id !in Nodes(m)
    ensures n.id !in Nodes(n.l) && n.id !in Nodes(n.r) && par !in Nodes(n.l) && par !in Nodes(n.r) && o !in Nodes(n.l) && o !in Nodes(n.r)
  {
  }

  /** The colours of case 1, a red sibling, on either side. */
  lemma {:induction false} DelRedSibling(C: seq<Color>, s: Tree, par: nat, o: Tree, above: Path, h: int)
    requires Context(C, above, h + 1, false, false) && Balanced(C, s, h - 1) && !IsRed(C, s)
    requires o.Node? && Balanced(C, o.l, h) && Balanced(C, o.r, h) && !IsRed(C, o.l) && !IsRed(C, o.r)
    requires par < |C| && o.id < |C| && o.id != par && o.id !in Nodes(s) && par !in Nodes(s)
    requires o.id !in PathNodes(above) && par !in PathNodes(above)
    requires o.id !in Nodes(o.l) && o.id !in Nodes(o.r) && par !in Nodes(o.l) && par !in Nodes(o.r)
    ensures var C2 := C[o.id := Black][par := Red];
            Context(C2, above, h + 1, false, false) && Balanced(C2, s, h - 1) && !IsRed(C2, s) &&
            Balanced(C2, o.l, h) && Balanced(C2, o.r, h) && !IsRed(C2, o.l) && !IsRed(C2, o.r) &&
            Col(C2, par) == Red && Col(C2, o.id) == Black
  {
    Recolor(C, o.id, Black, par, Red, s, h - 1);
    Recolor(C, o.id, Black, par, Red, o.l, h);
    Recolor(C, o.id, Black, par, Red, o.r, h);
    RecolorContext(C, o.id, Black, par, Red, above, h + 1, false, false);
  }

  /**
   * Case 1, node a left child: a red sibling turns black, the parent red, and
   * after the left rotation at the parent the sibling's left child, black
   * and not NULL, is the new sibling.
   */
  lemma {:induction false} DelCase1Left(C: seq<Color>, s: Tree, par: nat, o: Tree, above: Path, h: int)
    requires Context(C, Up(true, par, o, above), h, false, false) && Balanced(C, s, h - 1) && !IsRed(C, s)
    requires IsRed(C, o) && Distinct(Plug(Up(true, par, o, above), s)) && par < |C| && o.id < |C|
    ensures var C2 := C[o.id := Black][par := Red];
            Context(C2, Up(true, par, o.l, Up(true, o.id, o.r, above)), h, false, false) &&
            Balanced(C2, s, h - 1) && !IsRed(C2, s) && o.l.Node? && !IsRed(C2, o.l)
  {
    SibParts(Up(true, par, o, above), s);
    BlackParent(C, Up(true, par, o, above), h, false, false);
    BalancedHeight(C, s, h - 1);
    DelRedSibling(C, s, par, o, above, h);
    var C2 := C[o.id := Black][par := Red];
    BlackContext(C2, true, o.id, o.r, above, h, true, false);
    RedContext(C2, true, par, o.l, Up(true, o.id, o.r, above), h, false, false);
  }

  /** The mirror case: node a right child, rotated right at the parent. */
  lemma {:induction false} DelCase1Right(C: seq<Color>, s: Tree, par: nat, o: Tree, above: Path, h: int)
    requires Context(C, Up(false, par, o, above), h, false, false) && Balanced(C, s, h - 1) && !IsRed(C, s)
    requires IsRed(C, o) && Distinct(Plug(Up(false, par, o, above), s)) && par < |C| && o.id < |C|
    ensures var C2 := C[o.id := Black][par := Red];
            Context(C2, Up(false, par, o.r, Up(false, o.id, o.l, above)), h, false, false) &&
            Balanced(C2, s, h - 1) && !IsRed(C2, s) && o.r.Node? && !IsRed(C2, o.r)
  {
    SibParts(Up(false, par, o, above), s);
    BlackParent(C, Up(false, par, o, above), h, false, false);
    BalancedHeight(C, s, h - 1);
    DelRedSibling(C, s, par, o, above, h);
    var C2 := C[o.id := Black][par := Red];
    BlackContext(C2, false, o.id, o.l, above, h, true, false);
    RedContext(C2, false, par, o.r, Up(false, o.id, o.l, above), h, false, false);
  }

  /**
   * Case 2, a black sibling with no red child: the sibling turns red and the
   * parent's subtree, one black short or with a red top, is the new node.
   */
  lemma {:induction false} DelCase2(C: seq<Color>, p: Path, s: Tree, h: int)
    requires Context(C, p, h, false, false) && Balanced(C, s, h - 1) && !IsRed(C, s)
    requires p.Up? && p.other.Node? && !IsRed(C, p.other) && !IsRed(C, p.other.l) && !IsRed(C, p.other.r)
    requires Distinct(Plug(p, s)) && p.other.id < |C|
    ensures var C2 := C[p.other.id := Red];
            var H := h + Weight(Col(C, p.id));
            Context(C2, p.above, H, false, false) && Deficit(C2, Attach(p, s), H) &&
            (IsRed(C2, Attach(p, s)) <==> Col(C, p.id) == Red)
  {
    var o := p.other;
    var C2 := C[o.id := Red];
    SibParts(p, s);
    var H := h + Weight(Col(C, p.id));
    assert Balanced(C, o.l, h - 1) && Balanced(C, o.r, h - 1);
    Recolor1(C, o.id, Red, s, h - 1);
    Recolor1(C, o.id, Red, o.l, h - 1);
    Recolor1(C, o.id, Red, o.r, h - 1);
    RecolorContext1(C, o.id, Red, p.above, H, Col(C, p.id) == Red, false);
    ContextWeaken(C2, p.above, H, Col(C, p.id) == Red, false, false, false);
    RedNode(C2, o.l, o.id, o.r, h - 1);
    assert Balanced(C2, o, h - 1) && Col(C2, p.id) == Col(C, p.id);
    if Col(C, p.id) == Red {
      assert H == h;
      DeficitRed(C2, p, s, h);
    } else {
      assert H == h + 1;
      DeficitBlack(C2, p, s, h + 1);
    }
  }

  /** A red node over two subtrees one black short. */
  lemma {:induction false} DeficitRed(C: seq<Color>, q: Path, t: Tree, h: int)
    requires q.Up? && Col(C, q.id) == Red && Balanced(C, t, h - 1) && Balanced(C, q.other, h - 1)
    ensures Deficit(C, Attach(q, t), h) && IsRed(C, Attach(q, t))
  {
  }

  /** A black node over two subtrees two blacks short is one black short. */
  lemma {:induction false} DeficitBlack(C: seq<Color>, q: Path, t: Tree, h: int)
    requires q.Up? && Col(C, q.id) == Black && Balanced(C, t, h - 2) && Balanced(C, q.other, h - 2)
    ensures Deficit(C, Attach(q, t), h) && !IsRed(C, Attach(q, t))
  {
    assert Balanced(C, Attach(q, t), h - 1);
  }

  /** A context whose subtree beside the nearest ancestor is replaced by another balanced one. */
  lemma {:induction false} ContextOther(C: seq<Color>, C2: seq<Color>, holeLeft: bool, par: nat, o: Tree, o2: Tree, above: Path, h: int, holeRed: bool, relax: bool, H: int, parRed: bool)
    requires Context(C, Up(holeLeft, par, o, above), h, holeRed, relax) && Balanced(C2, o2, h)
    requires H == h + Weight(Col(C, par)) && parRed == (Col(C, par) == Red)
    requires Col(C2, par) == Col(C, par) && (parRed ==> !IsRed(C2, o2))
    requires Context(C2, above, H, parRed, false)
    ensures Context(C2, Up(holeLeft, par, o2, above), h, holeRed, relax)
  {
  }

  /**
   * Case 3, node a left child: the sibling is black with a black (or NULL)
   * right child and a red left one; the left child turns black, the sibling
   * red, and after the right rotation at the sibling the new sibling has a
   * red right child.
   */
  lemma {:induction false} DelCase3Left(C: seq<Color>, s: Tree, par: nat, o: Tree, above: Path, h: int)
    requires Context(C, Up(true, par, o, above), h, false, false) && Balanced(C, s, h - 1) && !IsRed(C, s)
    requires o.Node? && !IsRed(C, o) && IsRed(C, o.l) && !IsRed(C, o.r)
    requires Distinct(Plug(Up(true, par, o, above), s)) && par < |C| && o.id < |C| && o.l.id < |C|
    ensures var C2 := C[o.l.id := Black][o.id := Red];
            var o2 := Node(o.l.l, o.l.id, Node(o.l.r, o.id, o.r));
            Context(C2, Up(true, par, o2, above), h, false, false) &&
            Balanced(C2, s, h - 1) && !IsRed(C2, s) && !IsRed(C2, o2) && IsRed(C2, o2.r)
  {
    var p := Up(true, par, o, above);
    var pr := Col(C, par) == Red;
    var H := h + Weight(Col(C, par));
    var C2 := C[o.l.id := Black][o.id := Red];
    DelCase3LeftColors(C, s, par, o, above, h, H, pr);
    RedNode(C2, o.l.r, o.id, o.r, h - 1);
    BlackOver(C2, o.l.l, o.l.id, Node(o.l.r, o.id, o.r), h);
    ContextOther(C, C2, true, par, o, Node(o.l.l, o.l.id, Node(o.l.r, o.id, o.r)), above, h, false, false, H, pr);
  }

  /** The colours of DelCase3Left. */
  lemma {:induction false} DelCase3LeftColors(C: seq<Color>, s: Tree, par: nat, o: Tree, above: Path, h: int, H: int, pr: bool)
    requires Context(C, Up(true, par, o, above), h, false, false) && Balanced(C, s, h - 1) && !IsRed(C, s)
    requires o.Node? && !IsRed(C, o) && IsRed(C, o.l) && !IsRed(C, o.r)
    requires Distinct(Plug(Up(true, par, o, above), s)) && par < |C| && o.id < |C| && o.l.id < |C|
    requires H == h + Weight(Col(C, par)) && pr == (Col(C, par) == Red)
    ensures var C2 := C[o.l.id := Black][o.id := Red];
            Context(C2, above, H, pr, false) && Col(C2, par) == Col(C, par) &&
            Balanced(C2, o.l.l, h - 1) && Balanced(C2, o.l.r, h - 1) && Balanced(C2, o.r, h - 1) &&
            !IsRed(C2, o.l.l) && !IsRed(C2, o.l.r) && !IsRed(C2, o.r) && Col(C2, o.l.id) == Black && Col(C2, o.id) == Red &&
            Balanced(C2, s, h - 1) && !IsRed(C2, s)
  {
    var p := Up(true, par, o, above);
    SibParts(p, s);
    NephewParts(s, par, o.id, o.l, o.r, above);
    ContextUp(C, p, h, false, false, H, pr);
    BlackChildren(C, o, h);
    RedChildren(C, o.l, h - 1);
    DelNearRed(C, s, par, o.id, o.l, o.r, above, h, H, pr);
  }

  /** The mirror case: node a right child, the sibling's left child black, rotated left at the sibling. */
  lemma {:induction false} DelCase3Right(C: seq<Color>, s: Tree, par: nat, o: Tree, above: Path, h: int)
    requires Context(C, Up(false, par, o, above), h, false, false) && Balanced(C, s, h - 1) && !IsRed(C, s)
    requires o.Node? && !IsRed(C, o) && IsRed(C, o.r) && !IsRed(C, o.l)
    requires Distinct(Plug(Up(false, par, o, above), s)) && par < |C| && o.id < |C| && o.r.id < |C|
    ensures var C2 := C[o.r.id := Black][o.id := Red];
            var o2 := Node(Node(o.l, o.id, o.r.l), o.r.id, o.r.r);
            Context(C2, Up(false, par, o2, above), h, false, false) &&
            Balanced(C2, s, h - 1) && !IsRed(C2, s) && !IsRed(C2, o2) && IsRed(C2, o2.l)
  {
    var p := Up(false, par, o, above);
    var pr := Col(C, par) == Red;
    var H := h + Weight(Col(C, par));
    var C2 := C[o.r.id := Black][o.id := Red];
    DelCase3RightColors(C, s, par, o, above, h, H, pr);
    RedNode(C2, o.l, o.id, o.r.l, h - 1);
    BlackOver(C2, Node(o.l, o.id, o.r.l), o.r.id, o.r.r, h);
    ContextOther(C, C2, false, par, o, Node(Node(o.l, o.id, o.r.l), o.r.id, o.r.r), above, h, false, false, H, pr);
  }

  /** The colours of DelCase3Right. */
  lemma {:induction false} DelCase3RightColors(C: seq<Color>, s: Tree, par: nat, o: Tree, above: Path, h: int, H: int, pr: bool)
    requires Context(C, Up(false, par, o, above), h, false, false) && Balanced(C, s, h - 1) && !IsRed(C, s)
    requires o.Node? && !IsRed(C, o) && IsRed(C, o.r) && !IsRed(C, o.l)
    requires Distinct(Plug(Up(false, par, o, above), s)) && par < |C| && o.id < |C| && o.r.id < |C|
    requires H == h + Weight(Col(C, par)) && pr == (Col(C, par) == Red)
    ensures var C2 := C[o.r.id := Black][o.id := Red];
            Context(C2, above, H, pr, false) && Col(C2, par) == Col(C, par) &&
            Balanced(C2, o.r.l, h - 1) && Balanced(C2, o.r.r, h - 1) && Balanced(C2, o.l, h - 1) &&
            !IsRed(C2, o.r.l) && !IsRed(C2, o.r.r) && !IsRed(C2, o.l) && Col(C2, o.r.id) == Black && Col(C2, o.id) == Red &&
            Balanced(C2, s, h - 1) && !IsRed(C2, s)
  {
    var p := Up(false, par, o, above);
    SibParts(p, s);
    NephewParts(s, par, o.id, o.r, o.l, above);
    ContextUp(C, p, h, false, false, H, pr);
    BlackChildren(C, o, h);
    RedChildren(C, o.r, h - 1);
    DelNearRed(C, s, par, o.id, o.r, o.l, above, h, H, pr);
  }

  /** The colours of case 3, on either side: n is the sibling's red near child, m its far one. */
  lemma {:induction false} DelNearRed(C: seq<Color>, s: Tree, par: nat, o: nat, n: Tree, m: Tree, above: Path, h: int, H: int, parRed: bool)
    requires Context(C, above, H, parRed, false) && Balanced(C, s, h - 1) && !IsRed(C, s)
    requires IsRed(C, n) && Balanced(C, n.l, h - 1) && Balanced(C, n.r, h - 1) && !IsRed(C, n.l) && !IsRed(C, n.r)
    requires Balanced(C, m, h - 1) && !IsRed(C, m) && o < |C| && n.id < |C|
    requires o != par && o !in Nodes(s) && o !in PathNodes(above) && o !in Nodes(n.l) && o !in Nodes(n.r) && o !in Nodes(m)
    requires n.id != par && n.id != o && n.id !in PathNodes(above) && n.id !in Nodes(s) && n.id !in Nodes(m)
    requires n.id !in Nodes(n.l) && n.id !in Nodes(n.r)
    ensures var C2 := C[n.id := Black][o := Red];
            Context(C2, above, H, parRed, false) && Col(C2, par) == Col(C, par) &&
            Balanced(C2, s, h - 1) && !IsRed(C2, s) &&
            Balanced(C2, n.l, h - 1) && Balanced(C2, n.r, h - 1) && Balanced(C2, m, h - 1) &&
            !IsRed(C2, n.l) && !IsRed(C2, n.r) && !IsRed(C2, m) && Col(C2, n.id) == Black && Col(C2, o) == Red
  {
    Recolor(C, n.id, Black, o, Red, s, h - 1);
    Recolor(C, n.id, Black, o, Red, n.l, h - 1);
    Recolor(C, n.id, Black, o, Red, n.r, h - 1);
    Recolor(C, n.id, Black, o, Red, m, h - 1);
    RecolorContext(C, n.id, Black, o, Red, above, H, parRed, false);
  }

  /** The colours of case 4, on either side: n is the sibling's red far child, m its near one. */
  lemma {:induction false} DelFarRed(C: seq<Color>, s: Tree, par: nat, o: nat, n: Tree, m: Tree, above: Path, h: int, H: int, parRed: bool)
    requires Context(C, above, H, parRed, false) && Balanced(C, s, h - 1)
    requires IsRed(C, n) && Balanced(C, n.l, h - 1) && Balanced(C, n.r, h - 1) && Balanced(C, m, h - 1)
    requires par < |C| && o < |C| && n.id < |C|
    requires o != par && o !in Nodes(s) && o !in PathNodes(above) && o !in Nodes(n.l) && o !in Nodes(n.r) && o !in Nodes(m)
    requires par !in Nodes(s) && par !in PathNodes(above) && par !in Nodes(n.l) && par !in Nodes(n.r) && par !in Nodes(m)
    requires n.id != par && n.id != o && n.id !in PathNodes(above) && n.id !in Nodes(s) && n.id !in Nodes(m)
    requires n.id !in Nodes(n.l) && n.id !in Nodes(n.r)
    ensures var C2 := C[o := Col(C, par)][par := Black][n.id := Black];
            Context(C2, above, H, parRed, false) &&
            Balanced(C2, s, h - 1) && Balanced(C2, n.l, h - 1) && Balanced(C2, n.r, h - 1) && Balanced(C2, m, h - 1) &&
            Col(C2, n.id) == Black && Col(C2, par) == Black && Col(C2, o) == Col(C, par)
  {
    var c := Col(C, par);
    Recolor3(C, o, c, par, Black, n.id, Black, s, h - 1);
    Recolor3(C, o, c, par, Black, n.id, Black, n.l, h - 1);
    Recolor3(C, o, c, par, Black, n.id, Black, n.r, h - 1);
    Recolor3(C, o, c, par, Black, n.id, Black, m, h - 1);
    RecolorContext3(C, o, c, par, Black, n.id, Black, above, H, parRed, false);
  }

  /** The sibling's new subtree in case 4 has the parent's colour and its height, and the tree is red-black. */
  lemma {:induction false} DelFarTop(C2: seq<Color>, above: Path, a: Tree, o: nat, b: Tree, h: int, H: int, parRed: bool)
    requires Context(C2, above, H, parRed, false) && (above.Top? ==> !parRed)
    requires Balanced(C2, a, h) && Balanced(C2, b, h) && !IsRed(C2, a) && !IsRed(C2, b)
    requires parRed == (Col(C2, o) == Red) && H == h + Weight(Col(C2, o))
    ensures RedBlack(C2, Plug(above, Node(a, o, b)))
  {
    if parRed {
      RedNode(C2, a, o, b, h);
    } else {
      BlackNode(C2, a, o, b, h);
    }
    PlugRedBlack(C2, above, Node(a, o, b), H);
  }

  /**
   * Case 4, node a left child: the sibling is black with a red right child;
   * the sibling takes the parent's colour, the parent and that child turn
   * black, and after the left rotation at the parent the tree is red-black.
   */
  lemma {:induction false} DelCase4Left(C: seq<Color>, s: Tree, par: nat, o: Tree, above: Path, h: int)
    requires Context(C, Up(true, par, o, above), h, false, false) && Balanced(C, s, h - 1)
    requires o.Node? && !IsRed(C, o) && IsRed(C, o.r)
    requires Distinct(Plug(Up(true, par, o, above), s)) && par < |C| && o.id < |C| && o.r.id < |C|
    ensures var C2 := C[o.id := Col(C, par)][par := Black][o.r.id := Black];
            RedBlack(C2, Plug(above, Node(Node(s, par, o.l), o.id, o.r)))
  {
    var p := Up(true, par, o, above);
    var pr := Col(C, par) == Red;
    var H := h + Weight(Col(C, par));
    var C2 := C[o.id := Col(C, par)][par := Black][o.r.id := Black];
    DelCase4LeftColors(C, s, par, o, above, h, H, pr);
    BlackOver(C2, s, par, o.l, h);
    BlackOver(C2, o.r.l, o.r.id, o.r.r, h);
    DelFarTop(C2, above, Node(s, par, o.l), o.id, o.r, h, H, pr);
  }

  /** The colours of DelCase4Left. */
  lemma {:induction false} DelCase4LeftColors(C: seq<Color>, s: Tree, par: nat, o: Tree, above: Path, h: int, H: int, pr: bool)
    requires Context(C, Up(true, par, o, above), h, false, false) && Balanced(C, s, h - 1)
    requires o.Node? && !IsRed(C, o) && IsRed(C, o.r)
    requires Distinct(Plug(Up(true, par, o, above), s)) && par < |C| && o.id < |C| && o.r.id < |C|
    requires H == h + Weight(Col(C, par)) && pr == (Col(C, par) == Red)
    ensures var C2 := C[o.id := Col(C, par)][par := Black][o.r.id := Black];
            Context(C2, above, H, pr, false) && (above.Top? ==> !pr) &&
            Balanced(C2, s, h - 1) && Balanced(C2, o.r.l, h - 1) && Balanced(C2, o.r.r, h - 1) && Balanced(C2, o.l, h - 1) &&
            Col(C2, o.r.id) == Black && Col(C2, par) == Black && Col(C2, o.id) == Col(C, par)
  {
    var p := Up(true, par, o, above);
    SibParts(p, s);
    assert Nodes(o.r) !! Nodes(o.l);
    NephewParts(s, par, o.id, o.r, o.l, above);
    ContextUp(C, p, h, false, false, H, pr);
    BlackChildren(C, o, h);
    RedChildren(C, o.r, h - 1);
    DelFarRed(C, s, par, o.id, o.r, o.l, above, h, H, pr);
  }

  /** The mirror case: node a right child, the sibling's left child red, rotated right at the parent. */
  lemma {:induction false} DelCase4Right(C: seq<Color>, s: Tree, par: nat, o: Tree, above: Path, h: int)
    requires Context(C, Up(false, par, o, above), h, false, false) && Balanced(C, s, h - 1)
    requires o.Node? && !IsRed(C, o) && IsRed(C, o.l)
    requires Distinct(Plug(Up(false, par, o, above), s)) && par < |C| && o.id < |C| && o.l.id < |C|
    ensures var C2 := C[o.id := Col(C, par)][par := Black][o.l.id := Black];
            RedBlack(C2, Plug(above, Node(o.l, o.id, Node(o.r, par, s))))
  {
    var p := Up(false, par, o, above);
    var pr := Col(C, par) == Red;
    var H := h + Weight(Col(C, par));
    var C2 := C[o.id := Col(C, par)][par := Black][o.l.id := Black];
    DelCase4RightColors(C, s, par, o, above, h, H, pr);
    BlackOver(C2, o.r, par, s, h);
    BlackOver(C2, o.l.l, o.l.id, o.l.r, h);
    DelFarTop(C2, above, o.l, o.id, Node(o.r, par, s), h, H, pr);
  }

  /** The colours of DelCase4Right. */
  lemma {:induction false} DelCase4RightColors(C: seq<Color>, s: Tree, par: nat, o: Tree, above: Path, h: int, H: int, pr: bool)
    requires Context(C, Up(false, par, o, above), h, false, false) && Balanced(C, s, h - 1)
    requires o.Node? && !IsRed(C, o) && IsRed(C, o.l)
    requires Distinct(Plug(Up(false, par, o, above), s)) && par < |C| && o.id < |C| && o.l.id < |C|
    requires H == h + Weight(Col(C, par)) && pr == (Col(C, par) == Red)
    ensures var C2 := C[o.id := Col(C, par)][par := Black][o.l.id := Black];
            Context(C2, above, H, pr, false) && (above.Top? ==> !pr) &&
            Balanced(C2, s, h - 1) && Balanced(C2, o.l.l, h - 1) && Balanced(C2, o.l.r, h - 1) && Balanced(C2, o.r, h - 1) &&
            Col(C2, o.l.id) == Black && Col(C2, par) == Black && Col(C2, o.id) == Col(C, par)
  {
    var p := Up(false, par, o, above);
    SibParts(p, s);
    NephewParts(s, par, o.id, o.l, o.r, above);
    ContextUp(C, p, h, false, false, H, pr);
    BlackChildren(C, o, h);
    RedChildren(C, o.l, h - 1);
    DelFarRed(C, s, par, o.id, o.l, o.r, above, h, H, pr);
  }

  /**
   * The loop of __rb_erase_color stops at a red node or at the root; with
   * that node made black the tree is red-black.
   */
  lemma {:induction false} DelDone(C: seq<Color>, p: Path, s: Tree, h: int)
    requires Context(C, p, h, false, false) && Deficit(C, s, h) && (p.Top? || IsRed(C, s))
    requires Distinct(Plug(p, s)) && (s.Node? ==> s.id < |C|)
    ensures RedBlack(if s.Node? then C[s.id := Black] else C, Plug(p, s))
  {
    if IsRed(C, s) {
      DelDoneRed(C, p, s, h);
    } else if s.Node? {
      assert Balanced(C, s, h - 1);
      BlackenTop(C, s, h - 1);
    }
  }

  /** A red node over children one black short, made black, repairs the tree. */
  lemma {:induction false} DelDoneRed(C: seq<Color>, p: Path, s: Tree, h: int)
    requires Context(C, p, h, false, false) && IsRed(C, s) && Balanced(C, s.l, h - 1) && Balanced(C, s.r, h - 1)
    requires Distinct(Plug(p, s)) && s.id < |C|
    ensures RedBlack(C[s.id := Black], Plug(p, s))
  {
    var C2 := C[s.id := Black];
    PlugDistinct(p, s);
    assert s.id !in PathNodes(p) && s.id !in Nodes(s.l) && s.id !in Nodes(s.r);
    Recolor1(C, s.id, Black, s.l, h - 1);
    Recolor1(C, s.id, Black, s.r, h - 1);
    RecolorContext1(C, s.id, Black, p, h, false, false);
    BlackOver(C2, s.l, s.id, s.r, h);
    PlugRedBlack(C2, p, s, h);
  }

  // ---------------------------------------------------------------------------
  // rb_erase: the node unlinked has at most one child.

  /**
   * Unlinking a node with no left child (or no right one) and putting its
   * child c in its place: a red node leaves a red-black tree behind; a black
   * one leaves c one black short of the height its context asks for, which
   * is where __rb_erase_color starts.
   */
  lemma {:induction false} EraseOne(C: seq<Color>, r: Path, t: Tree, c: Tree, h: int)
    requires Context(C, r, h, IsRed(C, t), false) && Balanced(C, t, h)
    requires t.Node? && ((t.l.Leaf? && c == t.r) || (t.r.Leaf? && c == t.l))
    ensures Col(C, t.id) == Red ==> RedBlack(C, Plug(r, c))
    ensures Col(C, t.id) == Black ==> Context(C, r, h, false, false) && Deficit(C, c, h) && h == 1
  {
    if Col(C, t.id) == Red {
      assert h == 0 && Balanced(C, c, 0) && !IsRed(C, c);
      ContextWeaken(C, r, 0, true, false, false, false);
      PlugRedBlack(C, r, c, 0);
    } else {
      assert h == 1 && Balanced(C, c, 0);
    }
  }

  /** Colourings that agree on a path's nodes agree on each of its parts. */
  lemma {:induction false} AgreePath(C: seq<Color>, C2: seq<Color>, q: Path)
    requires q.Up? && Agree(C, C2, PathNodes(q))
    ensures Col(C2, q.id) == Col(C, q.id) && Agree(C, C2, Nodes(q.other)) && Agree(C, C2, PathNodes(q.above))
  {
  }

  /**
   * A node y taking the place of x on a path, with x's colour: for colourings
   * that agree elsewhere on the path, the context is the same.
   */
  lemma {:induction false} ContextSwap(C: seq<Color>, C2: seq<Color>, q: Path, holeLeft: bool, x: nat, y: nat, a: Tree, p: Path,
                                       h: int, holeRed: bool, relax: bool)
    requires Context(C, Concat(q, Up(holeLeft, x, a, p)), h, holeRed, relax)
    requires Col(C2, y) == Col(C, x) && Agree(C, C2, PathNodes(q)) && Agree(C, C2, Nodes(a)) && Agree(C, C2, PathNodes(p))
    ensures Context(C2, Concat(q, Up(holeLeft, y, a, p)), h, holeRed, relax)
  {
    if q.Top? {
      BalancedFrame(C, C2, a, h);
      assert a.Node? ==> a.id in Nodes(a);
      ContextFrame(C, C2, p, h + Weight(Col(C, x)), Col(C, x) == Red, false);
    } else {
      AgreePath(C, C2, q);
      BalancedFrame(C, C2, q.other, h);
      assert q.other.Node? ==> q.other.id in Nodes(q.other);
      ContextSwap(C, C2, q.above, holeLeft, x, y, a, p, h + Weight(Col(C, q.id)), Col(C, q.id) == Red, false);
    }
  }

  /** Recolouring a node outside a subtree keeps what Deficit says of it. */
  lemma {:induction false} DeficitFrame(C: seq<Color>, a: nat, ca: Color, t: Tree, h: int)
    requires Deficit(C, t, h) && a < |C| && a !in Nodes(t)
    ensures Deficit(C[a := ca], t, h) && IsRed(C[a := ca], t) == IsRed(C, t)
  {
    if IsRed(C, t) {
      Recolor1(C, a, ca, t.l, h - 1);
      Recolor1(C, a, ca, t.r, h - 1);
    } else {
      Recolor1(C, a, ca, t, h - 1);
    }
  }

  /** Colourings that differ only at a node outside S agree on S. */
  lemma {:induction false} AgreeUpdate(C: seq<Color>, y: nat, c: Color, S: set<nat>)
    requires y < |C| && y !in S
    ensures Agree(C, C[y := c], S)
  {
  }

  /**
   * rb_erase of a node x with two children: its successor y, the leftmost
   * node t of its right subtree, is unlinked there and takes x's place and
   * colour, giving the colouring C2. What is left at y's old place, on the
   * path r2 with y in place of x, is as EraseOne says for y's old colour.
   */
  lemma {:induction false} EraseTwo(C: seq<Color>, C2: seq<Color>, p: Path, a: Tree, x: nat, q: Path, t: Tree, r2: Path)
    requires RedBlack(C, Plug(p, Node(a, x, Plug(q, t)))) && Distinct(Plug(p, Node(a, x, Plug(q, t))))
    requires t.Node? && t.l.Leaf? && t.id < |C| && C2 == C[t.id := Col(C, x)] && r2 == Concat(q, Up(false, t.id, a, p))
    ensures Plug(r2, t.r) == Plug(p, Node(a, t.id, Plug(q, t.r)))
    ensures Col(C, t.id) == Red ==> RedBlack(C2, Plug(r2, t.r))
    ensures Col(C, t.id) == Black ==> Context(C2, r2, 1, false, false) && Deficit(C2, t.r, 1)
  {
    var y, c := t.id, t.r;
    var r := Concat(q, Up(false, x, a, p));
    EraseTwoPlugs(p, a, x, q, t);
    EraseTwoParts(p, a, x, q, t);
    EraseTwoAgree(C, C2, p, a, x, q, y);
    assert RedBlack(C, Plug(r, t));
    EraseSuccessor(C, r, t);
    if Col(C, y) == Red {
      EraseTwoRed(C, C2, q, x, y, a, p, c);
    } else {
      EraseTwoBlack(C, C2, q, x, y, a, p, c);
    }
  }

  /** Unlinking the successor t, which has no left child, at the end of the path r. */
  lemma {:induction false} EraseSuccessor(C: seq<Color>, r: Path, t: Tree)
    requires RedBlack(C, Plug(r, t)) && t.Node? && t.l.Leaf?
    ensures Col(C, t.id) == Red ==> RedBlack(C, Plug(r, t.r))
    ensures Col(C, t.id) == Black ==> Context(C, r, 1, false, false) && Deficit(C, t.r, 1)
  {
    SplitRedBlack(C, r, t);
    EraseOne(C, r, t, t.r, BlackHeight(C, t));
  }

  /** The colouring with y recoloured agrees with the old one on the parts around y's new place. */
  lemma {:induction false} EraseTwoAgree(C: seq<Color>, C2: seq<Color>, p: Path, a: Tree, x: nat, q: Path, y: nat)
    requires y < |C| && C2 == C[y := Col(C, x)]
    requires y !in PathNodes(q) && y !in Nodes(a) && y !in PathNodes(p)
    ensures Agree(C, C2, PathNodes(q)) && Agree(C, C2, Nodes(a)) && Agree(C, C2, PathNodes(p))
  {
    AgreeUpdate(C, y, Col(C, x), PathNodes(q));
    AgreeUpdate(C, y, Col(C, x), Nodes(a));
    AgreeUpdate(C, y, Col(C, x), PathNodes(p));
  }

  /** The successor is on none of the parts around it. */
  lemma {:induction false} EraseTwoParts(p: Path, a: Tree, x: nat, q: Path, t: Tree)
    requires Distinct(Plug(p, Node(a, x, Plug(q, t)))) && t.Node?
    ensures t.id !in PathNodes(q) && t.id !in Nodes(a) && t.id !in PathNodes(p) && t.id !in Nodes(t.r)
  {
    SuccessorOff(p, a, x, q, t);
    PathOut(t.id, Up(false, x, a, p));
  }

  /** The successor is off both parts of the joined path that leads to it. */
  lemma {:induction false} SuccessorOff(p: Path, a: Tree, x: nat, q: Path, t: Tree)
    requires Distinct(Plug(p, Node(a, x, Plug(q, t)))) && t.Node?
    ensures t.id !in PathNodes(q) && t.id !in PathNodes(Up(false, x, a, p)) && t.id !in Nodes(t.r)
  {
    var r0 := Up(false, x, a, p);
    var r := Concat(q, r0);
    PlugConcat(q, r0, t);
    assert Plug(r0, Plug(q, t)) == Plug(p, Node(a, x, Plug(q, t)));
    SuccessorApart(r, t);
    ConcatNodes(q, r0);
  }

  /** The tree before and after the successor moves, as plugs of the paths to its old place. */
  lemma {:induction false} EraseTwoPlugs(p: Path, a: Tree, x: nat, q: Path, t: Tree)
    requires t.Node?
    ensures Plug(Concat(q, Up(false, x, a, p)), t) == Plug(p, Node(a, x, Plug(q, t)))
    ensures Plug(Concat(q, Up(false, t.id, a, p)), t.r) == Plug(p, Node(a, t.id, Plug(q, t.r)))
  {
    PlugConcat(q, Up(false, x, a, p), t);
    PlugConcat(q, Up(false, t.id, a, p), t.r);
  }

  /** The top of the subtree a path leads to is not on the path, nor in its own subtrees. */
  lemma {:induction false} SuccessorApart(r: Path, t: Tree)
    requires Distinct(Plug(r, t)) && t.Node?
    ensures t.id !in PathNodes(r) && t.id !in Nodes(t.l) && t.id !in Nodes(t.r)
  {
    PlugDistinct(r, t);
    assert t.id in Nodes(t);
  }

  /** The red successor case of EraseTwo: the tree with y's old place spliced out is red-black. */
  lemma {:induction false} EraseTwoRed(C: seq<Color>, C2: seq<Color>, q: Path, x: nat, y: nat, a: Tree, p: Path, c: Tree)
    requires RedBlack(C, Plug(Concat(q, Up(false, x, a, p)), c)) && y < |C| && C2 == C[y := Col(C, x)]
    requires Agree(C, C2, PathNodes(q)) && Agree(C, C2, Nodes(a)) && Agree(C, C2, PathNodes(p)) && y !in Nodes(c)
    ensures RedBlack(C2, Plug(Concat(q, Up(false, y, a, p)), c))
  {
    SplitRedBlack(C, Concat(q, Up(false, x, a, p)), c);
    var hc := BlackHeight(C, c);
    ContextSwap(C, C2, q, false, x, y, a, p, hc, IsRed(C, c), false);
    Recolor1(C, y, Col(C, x), c, hc);
    PlugRedBlack(C2, Concat(q, Up(false, y, a, p)), c, hc);
  }

  /** The black successor case of EraseTwo: its old place is one black short. */
  lemma {:induction false} EraseTwoBlack(C: seq<Color>, C2: seq<Color>, q: Path, x: nat, y: nat, a: Tree, p: Path, c: Tree)
    requires Context(C, Concat(q, Up(false, x, a, p)), 1, false, false) && Deficit(C, c, 1)
    requires y < |C| && C2 == C[y := Col(C, x)]
    requires Agree(C, C2, PathNodes(q)) && Agree(C, C2, Nodes(a)) && Agree(C, C2, PathNodes(p)) && y !in Nodes(c)
    ensures Context(C2, Concat(q, Up(false, y, a, p)), 1, false, false) && Deficit(C2, c, 1)
  {
    ContextSwap(C, C2, q, false, x, y, a, p, 1, false, false);
    DeficitFrame(C, y, Col(C, x), c, 1);
  }

  /**
   * rb_replace_node: a node y from outside the tree takes x's place and
   * colour, and the tree is red-black as before.
   */
  lemma {:induction false} SubstituteRedBlack(C: seq<Color>, p: Path, a: Tree, x: nat, b: Tree, y: nat)
    requires RedBlack(C, Plug(p, Node(a, x, b))) && Distinct(Plug(p, Node(a, x, b)))
    requires y !in Nodes(Plug(p, Node(a, x, b))) && y < |C|
    ensures RedBlack(C[y := Col(C, x)], Plug(p, Node(a, y, b)))
  {
    var C2 := C[y := Col(C, x)];
    var r := Up(false, x, a, p);
    assert Plug(r, b) == Plug(p, Node(a, x, b));
    SplitRedBlack(C, r, b);
    var h := BlackHeight(C, b);
    PlugNodes(r, b);
    assert y !in Nodes(a) && y !in PathNodes(p) && y !in Nodes(b);
    ContextSwap(C, C2, Top, false, x, y, a, p, h, IsRed(C, b), false);
    Recolor1(C, y, Col(C, x), b, h);
    assert Plug(Up(false, y, a, p), b) == Plug(p, Node(a, y, b));
    PlugRedBlack(C2, Up(false, y, a, p), b, h);
  }

  /** Recolouring a node outside a red-black tree leaves it red-black. */
  lemma {:induction false} RecolorRedBlack(C: seq<Color>, a: nat, ca: Color, t: Tree)
    requires RedBlack(C, t) && a < |C| && a !in Nodes(t)
    ensures RedBlack(C[a := ca], t)
  {
    Recolor1(C, a, ca, t, BlackHeight(C, t));
    BalancedHeight(C[a := ca], t, BlackHeight(C, t));
    assert t.Node? ==> t.id in Nodes(t);
  }

  /** rb_insert_color starts from a red node without children where a red-black tree had a NULL link. */
  lemma {:induction false} InsertStart(C: seq<Color>, p: Path, x: nat)
    requires RedBlack(C, Plug(p, Leaf)) && Col(C, x) == Red
    ensures Balanced(C, Node(Leaf, x, Leaf), 0) && IsRed(C, Node(Leaf, x, Leaf)) && Context(C, p, 0, true, true)
  {
    SplitRedBlack(C, p, Leaf);
    ContextWeaken(C, p, 0, false, false, true, true);
  }
}
