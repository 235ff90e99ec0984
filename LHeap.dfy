/**
 * The leftist heap of include/lheap.h. Nodes carry parent, left and right
 * links and the null path length npl (the length of the right spine, 0 for
 * a node without right child). The heap is a tree whose root key is not
 * below any other key: lh_merge puts on top whichever root does not compare
 * below the other. Keys are integers, cmp(a, b) < 0 meaning a < b; with a
 * reversed comparison the root is the least key, as lh_min's name says.
 */
module LHeap {
  import opened Arena

  /** No key in t is above k. */
  ghost predicate KeyAtMost(K: seq<int>, t: Tree, k: int)
  {
    t.Node? ==> t.id < |K| && K[t.id] <= k
  }

  /** Heap order: no child's key is above its parent's. */
  ghost predicate Ordered(K: seq<int>, t: Tree)
  {
    t.Node? ==>
      t.id < |K| && Ordered(K, t.l) && Ordered(K, t.r) &&
      KeyAtMost(K, t.l, K[t.id]) && KeyAtMost(K, t.r, K[t.id])
  }

  /** The null path length of a subtree: -1 for an empty one. */
  function NplOf(N: seq<int>, t: Tree): int
    requires t.Node? ==> t.id < |N|
  {
    if t.Leaf? then -1 else N[t.id]
  }

  /**
   * The leftist rule: the left child's npl is at least the right child's,
   * and a node's npl is one more than its right child's.
   */
  ghost predicate Leftist(N: seq<int>, t: Tree)
  {
    t.Node? ==>
      t.id < |N| && Leftist(N, t.l) && Leftist(N, t.r) &&
      NplOf(N, t.l) >= NplOf(N, t.r) && N[t.id] == NplOf(N, t.r) + 1
  }

  lemma {:induction false} NplLeftist(N: seq<int>, t: Tree)
    requires Leftist(N, t)
    ensures NplOf(N, t) >= -1 && (t.Node? ==> NplOf(N, t) >= 0)
  {
    if t.Node? {
      NplLeftist(N, t.r);
    }
  }

  /** The root key is the largest: its key is not below any node's. */
  lemma {:induction false} RootIsMax(K: seq<int>, t: Tree, y: nat)
    requires Ordered(K, t) && t.Node? && y in Nodes(t)
    ensures y < |K| && K[y] <= K[t.id]
  {
    if y != t.id {
      if y in Nodes(t.l) {
        RootIsMax(K, t.l, y);
      } else {
        RootIsMax(K, t.r, y);
      }
    }
  }

  lemma {:induction false} LeftistBelow(N: seq<int>, t: Tree, y: nat)
    requires Leftist(N, t) && y in Nodes(t)
    ensures y < |N|
  {
    if y != t.id {
      if y in Nodes(t.l) {
        LeftistBelow(N, t.l, y);
      } else {
        LeftistBelow(N, t.r, y);
      }
    }
  }

  /** A change of npl at a node outside t leaves t leftist. */
  lemma LeftistUpdate(N: seq<int>, t: Tree, x: nat, v: int)
    requires Leftist(N, t) && x !in Nodes(t) && x < |N|
    ensures Leftist(N[x := v], t)
  {
    forall y | y in Nodes(t)
      ensures y < |N|
    {
      LeftistBelow(N, t, y);
    }
    SameUpdate(N, x, v, Nodes(t));
    LeftistFrame(N, N[x := v], t);
  }

  lemma {:induction false} LeftistFrame(N: seq<int>, N2: seq<int>, t: Tree)
    requires Leftist(N, t) && Same(N, N2, Nodes(t))
    ensures Leftist(N2, t)
  {
    if t.Node? {
      LeftistFrame(N, N2, t.l);
      LeftistFrame(N, N2, t.r);
    }
  }

  lemma {:induction false} PlugOrderedPart(K: seq<int>, p: Path, t: Tree)
    requires Ordered(K, Plug(p, t))
    ensures Ordered(K, t)
  {
    if p.Up? {
      PlugOrderedPart(K, p.above, Attach(p, t));
    }
  }

  /** A subtree replaced by an ordered one with the same top keeps the whole tree ordered. */
  lemma {:induction false} PlugOrderedReplace(K: seq<int>, p: Path, t: Tree, t2: Tree)
    requires Ordered(K, Plug(p, t)) && Ordered(K, t2) && Root(t2) == Root(t)
    ensures Ordered(K, Plug(p, t2))
  {
    if p.Up? {
      PlugOrderedPart(K, p.above, Attach(p, t));
      PlugOrderedReplace(K, p.above, Attach(p, t), Attach(p, t2));
    }
  }

  /** The subtrees beside the path are leftist. */
  ghost predicate BesideLeftist(N: seq<int>, p: Path)
  {
    p.Up? ==> Leftist(N, p.other) && BesideLeftist(N, p.above)
  }

  // ---------------------------------------------------------------------------
  // Steps of lh_merge

  /**
   * One step down the right spine of lh_merge, where mergee e becomes the
   * right child of merged cur: the tree on the path is shaped with e in
   * place of cur's right subtree, which is the new mergee.
   */
  lemma SpineSwap(L: seq<int>, R: seq<int>, P: seq<int>, spine: Path, cur: Tree, e: Tree, q: int)
    requires Shaped(L, R, P, Plug(spine, cur), q) && Distinct(e) && Links(L, R, P, e)
    requires Nodes(Plug(spine, cur)) !! Nodes(e) && cur.Node? && e.Node?
    requires cur.id < |R| && e.id < |P|
    ensures Shaped(L, R[cur.id := e.id], P[e.id := cur.id], Plug(spine, Node(cur.l, cur.id, e)), q)
    ensures Distinct(cur.r) && Links(L, R[cur.id := e.id], P[e.id := cur.id], cur.r)
  {
    var X, E := cur.id, e.id;
    var R2, P2 := R[X := E], P[E := X];
    var t2 := Node(cur.l, X, e);
    PlugShapedPart(L, R, P, spine, cur, q);
    PlugDistinct(spine, cur);
    PlugNodes(spine, cur);
    NodesBelow(L, R, P, Plug(spine, cur));
    NodesBelow(L, R, P, e);
    SameUpdate(R, X, E, Nodes(cur.l));
    SameUpdate(R, X, E, Nodes(cur.r));
    SameUpdate(R, X, E, Nodes(e));
    SameUpdate(R, X, E, PathNodes(spine));
    SameUpdate(P, E, X, Nodes(cur.l) + Nodes(cur.r));
    SameUpdate(P, E, X, Below(e));
    SameUpdate(P, E, X, PathNodes(spine));
    LinksFrame(L, R, P, L, R2, P2, cur.l);
    LinksFrame(L, R, P, L, R2, P2, cur.r);
    LinksFrame(L, R, P, L, R2, P2, e);
    assert Shaped(L, R2, P2, t2, HoleParent(spine, q));
    PlugReplace(L, R, P, L, R2, P2, spine, cur, t2, q);
  }

  /** The same step keeps the heap order, since mergee's key is not above merged's. */
  lemma SpineSwapOrder(K: seq<int>, spine: Path, cur: Tree, e: Tree)
    requires Ordered(K, Plug(spine, cur)) && Ordered(K, e) && cur.Node? && e.Node?
    requires e.id < |K| && cur.id < |K| && K[e.id] <= K[cur.id]
    ensures Ordered(K, Plug(spine, Node(cur.l, cur.id, e))) && Ordered(K, cur.r)
  {
    PlugOrderedPart(K, spine, cur);
    PlugOrderedReplace(K, spine, cur, Node(cur.l, cur.id, e));
  }

  /** The same step keeps the nodes: the tree and mergee together hold U, without overlap. */
  lemma SpineSwapNodes(spine: Path, cur: Tree, e: Tree, U: set<nat>)
    requires Nodes(Plug(spine, cur)) !! Nodes(e) && Nodes(Plug(spine, cur)) + Nodes(e) == U && cur.Node?
    requires Distinct(Plug(spine, cur))
    ensures Nodes(Plug(spine, Node(cur.l, cur.id, e))) !! Nodes(cur.r)
    ensures Nodes(Plug(spine, Node(cur.l, cur.id, e))) + Nodes(cur.r) == U
  {
    PlugDistinct(spine, cur);
    PlugNodes(spine, cur);
    PlugNodes(spine, Node(cur.l, cur.id, e));
  }

  /** Swapping the child links of the top of a linked tree describes the mirrored top. */
  lemma SwapShaped(L: seq<int>, R: seq<int>, P: seq<int>, cur: Tree, par: int, S: set<nat>)
    requires Shaped(L, R, P, cur, par) && cur.Node? && cur.id !in S
    requires forall y :: y in S ==> y < |L| && y < |R|
    ensures Shaped(L[cur.id := R[cur.id]], R[cur.id := L[cur.id]], P, Node(cur.r, cur.id, cur.l), par)
    ensures Same(L, L[cur.id := R[cur.id]], S) && Same(R, R[cur.id := L[cur.id]], S)
  {
    var X := cur.id;
    var L2, R2 := L[X := R[X]], R[X := L[X]];
    NodesBelow(L, R, P, cur);
    assert Nodes(cur) == Nodes(cur.l) + {X} + Nodes(cur.r);
    SameUpdate(L, X, R[X], Nodes(cur.l));
    SameUpdate(R, X, L[X], Nodes(cur.l));
    SameUpdate(L, X, R[X], Nodes(cur.r));
    SameUpdate(R, X, L[X], Nodes(cur.r));
    SameUpdate(P, X, P[X], Below(cur.l));
    SameUpdate(P, X, P[X], Below(cur.r));
    LinksFrame(L, R, P, L2, R2, P, cur.l);
    LinksFrame(L, R, P, L2, R2, P, cur.r);
    SameUpdate(L, X, R[X], S);
    SameUpdate(R, X, L[X], S);
  }

  /** lh_swap(merged->left, merged->right) on the way up keeps the shape and the order. */
  lemma ChildSwap(L: seq<int>, R: seq<int>, P: seq<int>, K: seq<int>, spine: Path, cur: Tree, q: int)
    requires Shaped(L, R, P, Plug(spine, cur), q) && Ordered(K, Plug(spine, cur)) && cur.Node?
    requires cur.id < |L| && cur.id < |R|
    ensures Shaped(L[cur.id := R[cur.id]], R[cur.id := L[cur.id]], P, Plug(spine, Node(cur.r, cur.id, cur.l)), q)
    ensures Ordered(K, Plug(spine, Node(cur.r, cur.id, cur.l)))
    ensures Nodes(Plug(spine, Node(cur.r, cur.id, cur.l))) == Nodes(Plug(spine, cur))
  {
    var t2 := Node(cur.r, cur.id, cur.l);
    PlugShapedPart(L, R, P, spine, cur, q);
    PlugDistinct(spine, cur);
    PlugNodes(spine, cur);
    PlugNodes(spine, t2);
    NodesBelow(L, R, P, Plug(spine, cur));
    SwapShaped(L, R, P, cur, HoleParent(spine, q), PathNodes(spine));
    PlugReplace(L, R, P, L[cur.id := R[cur.id]], R[cur.id := L[cur.id]], P, spine, cur, t2, q);
    PlugOrderedPart(K, spine, cur);
    PlugOrderedReplace(K, spine, cur, t2);
  }

  /**
   * Setting npl of a node whose children are leftist, the left one with the
   * larger npl, to one more than its right child's makes it leftist.
   */
  lemma NplFix(N: seq<int>, t: Tree)
    requires t.Node? && Distinct(t) && t.id < |N| && Leftist(N, t.l) && Leftist(N, t.r)
    requires NplOf(N, t.l) >= NplOf(N, t.r)
    ensures Leftist(N[t.id := NplOf(N, t.r) + 1], t)
  {
    LeftistUpdate(N, t.l, t.id, NplOf(N, t.r) + 1);
    LeftistUpdate(N, t.r, t.id, NplOf(N, t.r) + 1);
  }

  /** Subtrees beside a path keep the leftist rule when a node off the path changes its npl. */
  lemma {:induction false} BesideLeftistFrame(N: seq<int>, p: Path, x: nat, v: int)
    requires BesideLeftist(N, p) && x !in PathNodes(p) && x < |N|
    ensures BesideLeftist(N[x := v], p)
  {
    if p.Up? {
      LeftistUpdate(N, p.other, x, v);
      BesideLeftistFrame(N, p.above, x, v);
    }
  }

  /** A link value: NIL or a node of an arena of n nodes. */
  predicate IsLink(v: int, n: nat)
  {
    v == NIL || 0 <= v < n
  }

  /** The five per-node fields cover the same nodes. */
  ghost predicate ArenaOk(L: seq<int>, R: seq<int>, P: seq<int>, N: seq<int>, K: seq<int>)
  {
    |P| == |L| && |R| == |L| && |N| == |L| && |K| == |L|
  }

  /** The child links of a node of a linked tree are links to its nodes. */
  lemma ChildLinks(L: seq<int>, R: seq<int>, P: seq<int>, t: Tree)
    requires Links(L, R, P, t) && t.Node?
    ensures t.id < |L| && t.id < |R| && IsLink(L[t.id], |L|) && IsLink(R[t.id], |L|)
  {
  }

  /** t is a leftist heap hanging below par. */
  ghost predicate HeapShape(L: seq<int>, R: seq<int>, P: seq<int>, N: seq<int>, K: seq<int>, t: Tree, par: int)
  {
    Shaped(L, R, P, t, par) && Ordered(K, t) && Leftist(N, t)
  }

  /**
   * Whether the way up of lh_merge swaps the children of x: it has no left
   * child, or both children and the left one has the smaller npl.
   */
  ghost predicate SwapsUp(L: seq<int>, R: seq<int>, N: seq<int>, x: nat)
    requires x < |L| && x < |R| && IsLink(L[x], |N|) && IsLink(R[x], |N|)
  {
    L[x] == NIL || (R[x] != NIL && N[L[x]] < N[R[x]])
  }

  /** The left links after the children of x are put in order. */
  ghost function FixLeft(L: seq<int>, R: seq<int>, N: seq<int>, x: nat): seq<int>
    requires x < |L| && x < |R| && IsLink(L[x], |N|) && IsLink(R[x], |N|)
  {
    if SwapsUp(L, R, N, x) then L[x := R[x]] else L
  }

  ghost function FixRight(L: seq<int>, R: seq<int>, N: seq<int>, x: nat): seq<int>
    requires x < |L| && x < |R| && IsLink(L[x], |N|) && IsLink(R[x], |N|)
  {
    if SwapsUp(L, R, N, x) then R[x := L[x]] else R
  }

  /** npl of x set from its (new) right child: one more than its npl, or 0 without one. */
  ghost function FixNpl(L: seq<int>, R: seq<int>, N: seq<int>, x: nat): seq<int>
    requires x < |L| && x < |R| && x < |N| && IsLink(L[x], |N|) && IsLink(R[x], |N|)
  {
    var r := FixRight(L, R, N, x)[x];
    N[x := if r != NIL then N[r] + 1 else 0]
  }

  /**
   * One node on the way up of lh_merge: with its children leftist and the
   * tree shaped and ordered, putting the children in order and setting npl
   * makes the node's subtree leftist and keeps shape, order and the subtrees
   * beside the path.
   */
  lemma UpStep(L: seq<int>, R: seq<int>, P: seq<int>, N: seq<int>, K: seq<int>, spine: Path, cur: Tree, q: int)
    requires ArenaOk(L, R, P, N, K) && cur.Node?
    requires cur.id < |L| && IsLink(L[cur.id], |L|) && IsLink(R[cur.id], |L|)
    requires Shaped(L, R, P, Plug(spine, cur), q) && Ordered(K, Plug(spine, cur))
    requires Leftist(N, cur.l) && Leftist(N, cur.r) && BesideLeftist(N, spine)
    ensures cur.id < |L| && P[cur.id] == HoleParent(spine, q)
    ensures var c2 := if SwapsUp(L, R, N, cur.id) then Node(cur.r, cur.id, cur.l) else cur;
      var L2, R2, N2 := FixLeft(L, R, N, cur.id), FixRight(L, R, N, cur.id), FixNpl(L, R, N, cur.id);
      Shaped(L2, R2, P, Plug(spine, c2), q) && Ordered(K, Plug(spine, c2)) &&
      Nodes(Plug(spine, c2)) == Nodes(Plug(spine, cur)) && Root(Plug(spine, c2)) == Root(Plug(spine, cur)) &&
      c2.Node? && c2.id == cur.id && Leftist(N2, c2) &&
      BesideLeftist(N2, spine)
  {
    var X := cur.id;
    PlugShapedPart(L, R, P, spine, cur, q);
    PlugDistinct(spine, cur);
    PlugNodes(spine, cur);
    NplLeftist(N, cur.l);
    NplLeftist(N, cur.r);
    var c2 := cur;
    if SwapsUp(L, R, N, X) {
      ChildSwap(L, R, P, K, spine, cur, q);
      c2 := Node(cur.r, X, cur.l);
      PlugRoot(spine, cur, c2);
    }
    var n := NplOf(N, c2.r) + 1;
    assert Root(c2.r) == FixRight(L, R, N, X)[X];
    assert FixNpl(L, R, N, X) == N[X := n];
    NplFix(N, c2);
    BesideLeftistFrame(N, spine, X, n);
  }

  /** Fixing up a node outside a heap hanging below it leaves that heap as it is. */
  lemma FixOutside(L: seq<int>, R: seq<int>, P: seq<int>, N: seq<int>, K: seq<int>, t: Tree, q: nat)
    requires ArenaOk(L, R, P, N, K) && q < |L| && q !in Nodes(t) && HeapShape(L, R, P, N, K, t, q)
    requires IsLink(L[q], |L|) && IsLink(R[q], |L|)
    ensures HeapShape(FixLeft(L, R, N, q), FixRight(L, R, N, q), P, FixNpl(L, R, N, q), K, t, q)
  {
    NodesBelow(L, R, P, t);
    SameUpdate(L, q, R[q], Nodes(t));
    SameUpdate(R, q, L[q], Nodes(t));
    ShapedFrame(L, R, P, FixLeft(L, R, N, q), FixRight(L, R, N, q), P, t, q, Nodes(t));
    LeftistUpdate(N, t, q, FixNpl(L, R, N, q)[q]);
  }

  /** Agreement outside S holds outside any larger set. */
  lemma KeptMore(L0: seq<int>, R0: seq<int>, P0: seq<int>, N0: seq<int>,
                 L: seq<int>, R: seq<int>, P: seq<int>, N: seq<int>, S: set<nat>, T: set<nat>)
    requires Kept(L0, R0, P0, N0, L, R, P, N, S)
    ensures Kept(L0, R0, P0, N0, L, R, P, N, S + T)
  {
  }

  /** Fixing up a node of S keeps agreement outside S. */
  lemma KeptFix(L0: seq<int>, R0: seq<int>, P0: seq<int>, N0: seq<int>,
                L: seq<int>, R: seq<int>, P: seq<int>, N: seq<int>, S: set<nat>, x: nat)
    requires Kept(L0, R0, P0, N0, L, R, P, N, S) && x in S
    requires x < |L| && x < |R| && x < |N| && IsLink(L[x], |N|) && IsLink(R[x], |N|)
    ensures Kept(L0, R0, P0, N0, FixLeft(L, R, N, x), FixRight(L, R, N, x), P, FixNpl(L, R, N, x), S)
  {
    OffUpdate(L0, L, S, x, R[x]);
    OffUpdate(R0, R, S, x, L[x]);
    OffUpdate(N0, N, S, x, FixNpl(L, R, N, x)[x]);
  }

  // ---------------------------------------------------------------------------
  // The state of lh_merge between steps

  /**
   * The first loop's state: the tree Plug(spine, c) with top at the root
   * with the larger key, and mergee e still to be merged in below c; c's
   * children, e and the subtrees beside the spine are leftist.
   */
  ghost predicate DownState(L: seq<int>, R: seq<int>, P: seq<int>, N: seq<int>, K: seq<int>,
                            spine: Path, c: Tree, e: Tree, q: int, U: set<nat>, top: int)
  {
    ArenaOk(L, R, P, N, K) && c.Node? && e.Node? &&
    Shaped(L, R, P, Plug(spine, c), q) && Distinct(e) && Links(L, R, P, e) &&
    Nodes(Plug(spine, c)) !! Nodes(e) && Nodes(Plug(spine, c)) + Nodes(e) == U &&
    c.id < |K| && e.id < |K| && K[e.id] <= K[c.id] && Ordered(K, Plug(spine, c)) && Ordered(K, e) &&
    Leftist(N, c.l) && Leftist(N, c.r) && Leftist(N, e) && BesideLeftist(N, spine) &&
    Root(Plug(spine, c)) == top
  }

  /**
   * The second loop's state: the tree holds U with top at the root; below
   * c (the node about to be fixed) and beside the path it is leftist.
   */
  ghost predicate UpState(L: seq<int>, R: seq<int>, P: seq<int>, N: seq<int>, K: seq<int>,
                          spine: Path, c: Tree, q: int, U: set<nat>, top: int)
  {
    ArenaOk(L, R, P, N, K) && c.Node? &&
    Shaped(L, R, P, Plug(spine, c), q) && Ordered(K, Plug(spine, c)) && Nodes(Plug(spine, c)) == U &&
    Leftist(N, c.l) && Leftist(N, c.r) && BesideLeftist(N, spine) && Root(Plug(spine, c)) == top
  }

  /** Two disjoint heaps below q, the first with the larger key at its root, start the first loop. */
  lemma DownStart(L: seq<int>, R: seq<int>, P: seq<int>, N: seq<int>, K: seq<int>, t1: Tree, t2: Tree, q: int, U: set<nat>)
    requires ArenaOk(L, R, P, N, K) && HeapShape(L, R, P, N, K, t1, q) && HeapShape(L, R, P, N, K, t2, q)
    requires Nodes(t1) !! Nodes(t2) && U == Nodes(t1) + Nodes(t2) && t1.Node? && t2.Node?
    requires t1.id < |K| && t2.id < |K| && K[t2.id] <= K[t1.id]
    ensures DownState(L, R, P, N, K, Top, t1, t2, q, U, t1.id)
  {
  }

  /** What the first loop reads: merged's right link, its key, and that both nodes are in U. */
  lemma DownLinks(L: seq<int>, R: seq<int>, P: seq<int>, N: seq<int>, K: seq<int>,
                  spine: Path, c: Tree, e: Tree, q: int, U: set<nat>, top: int)
    requires DownState(L, R, P, N, K, spine, c, e, q, U, top)
    ensures c.id < |L| && R[c.id] == Root(c.r) && (c.r.Node? ==> c.r.id < |K|)
    ensures e.id < |L| && c.id in U && e.id in U
  {
    PlugShapedPart(L, R, P, spine, c, q);
    PlugNodes(spine, c);
  }

  /** No swap: merged's right child has the key not below mergee's, and the walk goes down to it. */
  lemma DownKeep(L: seq<int>, R: seq<int>, P: seq<int>, N: seq<int>, K: seq<int>,
                 spine: Path, c: Tree, e: Tree, q: int, U: set<nat>, top: int)
    requires DownState(L, R, P, N, K, spine, c, e, q, U, top)
    requires c.r.Node? && c.r.id < |K| && K[e.id] <= K[c.r.id]
    ensures DownState(L, R, P, N, K, Up(false, c.id, c.l, spine), c.r, e, q, U, top)
  {
    assert Plug(Up(false, c.id, c.l, spine), c.r) == Plug(spine, c);
  }

  /**
   * Swap: mergee becomes merged's right child, with merged as its parent,
   * and the old right subtree is the new mergee; without one, the first
   * loop is over.
   */
  lemma DownSwap(L: seq<int>, R: seq<int>, P: seq<int>, N: seq<int>, K: seq<int>,
                 spine: Path, c: Tree, e: Tree, q: int, U: set<nat>, top: int)
    requires DownState(L, R, P, N, K, spine, c, e, q, U, top)
    requires c.r.Leaf? || (c.r.id < |K| && K[c.r.id] < K[e.id])
    ensures c.id < |R| && e.id < |P|
    ensures c.r.Node? ==>
      DownState(L, R[c.id := e.id], P[e.id := c.id], N, K, Up(false, c.id, c.l, spine), e, c.r, q, U, top)
    ensures c.r.Leaf? ==>
      UpState(L, R[c.id := e.id], P[e.id := c.id], N, K, spine, Node(c.l, c.id, e), q, U, top)
  {
    PlugShapedPart(L, R, P, spine, c, q);
    SpineSwap(L, R, P, spine, c, e, q);
    SpineSwapOrder(K, spine, c, e);
    SpineSwapNodes(spine, c, e, U);
    PlugRoot(spine, c, Node(c.l, c.id, e));
    assert Plug(Up(false, c.id, c.l, spine), e) == Plug(spine, Node(c.l, c.id, e));
  }

  /** What the second loop reads: the node's links, its parent, and that it is in U. */
  lemma UpLinks(L: seq<int>, R: seq<int>, P: seq<int>, N: seq<int>, K: seq<int>,
                spine: Path, c: Tree, q: int, U: set<nat>, top: int)
    requires UpState(L, R, P, N, K, spine, c, q, U, top)
    ensures c.id < |L| && IsLink(L[c.id], |L|) && IsLink(R[c.id], |L|)
    ensures P[c.id] == HoleParent(spine, q) && c.id in U
    ensures L[c.id] == Root(c.l) && R[c.id] == Root(c.r)
  {
    PlugShapedPart(L, R, P, spine, c, q);
    PlugNodes(spine, c);
    ChildLinks(L, R, P, c);
  }

  /** The second loop's state once c is fixed up: now c itself is leftist. */
  ghost predicate FixedState(L: seq<int>, R: seq<int>, P: seq<int>, N: seq<int>, K: seq<int>,
                             spine: Path, c: Tree, q: int, U: set<nat>, top: int)
  {
    ArenaOk(L, R, P, N, K) && c.Node? &&
    Shaped(L, R, P, Plug(spine, c), q) && Ordered(K, Plug(spine, c)) && Nodes(Plug(spine, c)) == U &&
    Leftist(N, c) && BesideLeftist(N, spine) && Root(Plug(spine, c)) == top
  }

  /** Fixing up c: its children put in order and its npl set. */
  lemma UpFix(L: seq<int>, R: seq<int>, P: seq<int>, N: seq<int>, K: seq<int>,
              spine: Path, c: Tree, q: int, U: set<nat>, top: int)
    requires UpState(L, R, P, N, K, spine, c, q, U, top)
    requires c.id < |L| && IsLink(L[c.id], |L|) && IsLink(R[c.id], |L|)
    ensures FixedState(FixLeft(L, R, N, c.id), FixRight(L, R, N, c.id), P, FixNpl(L, R, N, c.id), K, spine,
                       if SwapsUp(L, R, N, c.id) then Node(c.r, c.id, c.l) else c, q, U, top)
  {
    UpStep(L, R, P, N, K, spine, c, q);
  }

  /** After c is fixed, the walk goes on at its parent, whose children are now both leftist. */
  lemma FixedUp(L: seq<int>, R: seq<int>, P: seq<int>, N: seq<int>, K: seq<int>,
                spine: Path, c: Tree, q: int, U: set<nat>, top: int)
    requires FixedState(L, R, P, N, K, spine, c, q, U, top) && spine.Up?
    ensures UpState(L, R, P, N, K, spine.above, Attach(spine, c), q, U, top)
  {
  }

  /** The parent link of a fixed node, and at the top of the path the whole heap. */
  lemma FixedLinks(L: seq<int>, R: seq<int>, P: seq<int>, N: seq<int>, K: seq<int>,
                   spine: Path, c: Tree, q: int, U: set<nat>, top: int)
    requires FixedState(L, R, P, N, K, spine, c, q, U, top)
    ensures c.id < |P| && P[c.id] == HoleParent(spine, q)
    ensures spine.Top? ==> HeapShape(L, R, P, N, K, c, q) && Nodes(c) == U && Root(c) == top
  {
    PlugShapedPart(L, R, P, spine, c, q);
  }

  /** The node q as a set: empty for NIL. */
  function QSet(q: int): set<nat>
  {
    if q < 0 then {} else {q as nat}
  }

  /** B agrees with A outside S. */
  ghost predicate Off(A: seq<int>, B: seq<int>, S: set<nat>)
  {
    |A| == |B| && forall y :: 0 <= y < |A| && y !in S ==> B[y] == A[y]
  }

  lemma OffTrans(A: seq<int>, B: seq<int>, C: seq<int>, S: set<nat>, S2: set<nat>)
    requires Off(A, B, S) && Off(B, C, S2)
    ensures Off(A, C, S + S2)
  {
  }

  lemma KeptTrans(L0: seq<int>, R0: seq<int>, P0: seq<int>, N0: seq<int>,
                  L1: seq<int>, R1: seq<int>, P1: seq<int>, N1: seq<int>,
                  L: seq<int>, R: seq<int>, P: seq<int>, N: seq<int>, S: set<nat>, S2: set<nat>)
    requires Kept(L0, R0, P0, N0, L1, R1, P1, N1, S) && Kept(L1, R1, P1, N1, L, R, P, N, S2)
    ensures Kept(L0, R0, P0, N0, L, R, P, N, S + S2)
  {
    OffTrans(L0, L1, L, S, S2);
    OffTrans(R0, R1, R, S, S2);
    OffTrans(P0, P1, P, S, S2);
    OffTrans(N0, N1, N, S, S2);
  }

  /** A change at a node of S keeps agreement outside S. */
  lemma OffUpdate(A: seq<int>, B: seq<int>, S: set<nat>, x: nat, v: int)
    requires Off(A, B, S) && x in S && x < |B|
    ensures Off(A, B[x := v], S)
  {
  }

  /** The links and npl of the nodes outside S are as they were. */
  ghost predicate Kept(L0: seq<int>, R0: seq<int>, P0: seq<int>, N0: seq<int>,
                       L: seq<int>, R: seq<int>, P: seq<int>, N: seq<int>, S: set<nat>)
  {
    Off(L0, L, S) && Off(R0, R, S) && Off(P0, P, S) && Off(N0, N, S)
  }

  // ---------------------------------------------------------------------------
  // Frames for the operations built on lh_merge

  /** A node with no links and npl 0, as lh_node_init leaves it. */
  ghost predicate Cleared(L: seq<int>, R: seq<int>, P: seq<int>, N: seq<int>, x: nat)
  {
    x < |L| && x < |R| && x < |P| && x < |N| && L[x] == NIL && R[x] == NIL && P[x] == NIL && N[x] == 0
  }

  /** A cleared node on its own is a heap. */
  lemma Single(L: seq<int>, R: seq<int>, P: seq<int>, N: seq<int>, K: seq<int>, x: nat)
    requires ArenaOk(L, R, P, N, K) && Cleared(L, R, P, N, x)
    ensures HeapShape(L, R, P, N, K, Node(Leaf, x, Leaf), NIL)
  {
    assert Leftist(N, Leaf);
    assert Leftist(N, Node(Leaf, x, Leaf));
    assert Ordered(K, Node(Leaf, x, Leaf));
    assert Nodes(Leaf) == {} && Distinct(Leaf);
    assert Distinct(Node(Leaf, x, Leaf));
    assert Links(L, R, P, Node(Leaf, x, Leaf));
    assert Shaped(L, R, P, Node(Leaf, x, Leaf), NIL);
  }

  /** Changing the links of a node outside a heap leaves the heap as it is. */
  lemma HeapOff(L: seq<int>, R: seq<int>, P: seq<int>, N: seq<int>, K: seq<int>, t: Tree, par: int,
                x: nat, l: int, r: int, p: int, n: int)
    requires ArenaOk(L, R, P, N, K) && HeapShape(L, R, P, N, K, t, par) && x < |L| && x !in Nodes(t)
    ensures HeapShape(L[x := l], R[x := r], P[x := p], N[x := n], K, t, par)
  {
    NodesBelow(L, R, P, t);
    SameUpdate(L, x, l, Nodes(t));
    SameUpdate(R, x, r, Nodes(t));
    SameUpdate(P, x, p, Nodes(t));
    ShapedFrame(L, R, P, L[x := l], R[x := r], P[x := p], t, par, Nodes(t));
    LeftistUpdate(N, t, x, n);
  }

  /** Changing the child links of a node outside a heap leaves the heap as it is. */
  lemma HeapOffChildren(L: seq<int>, R: seq<int>, P: seq<int>, N: seq<int>, K: seq<int>, t: Tree, par: int,
                        x: nat, l: int, r: int)
    requires ArenaOk(L, R, P, N, K) && HeapShape(L, R, P, N, K, t, par) && x < |L| && x !in Nodes(t)
    ensures HeapShape(L[x := l], R[x := r], P, N, K, t, par)
  {
    NodesBelow(L, R, P, t);
    SameUpdate(L, x, l, Nodes(t));
    SameUpdate(R, x, r, Nodes(t));
    SameUpdate(P, x, P[x], Nodes(t));
    ShapedFrame(L, R, P, L[x := l], R[x := r], P, t, par, Nodes(t));
  }

  /** Changing the parent link of a node outside a heap leaves the heap as it is. */
  lemma HeapOffParent(L: seq<int>, R: seq<int>, P: seq<int>, N: seq<int>, K: seq<int>, t: Tree, par: int,
                      x: nat, v: int)
    requires ArenaOk(L, R, P, N, K) && HeapShape(L, R, P, N, K, t, par) && x < |L| && x !in Nodes(t)
    ensures HeapShape(L, R, P[x := v], N, K, t, par)
  {
    NodesBelow(L, R, P, t);
    SameUpdate(L, x, L[x], Nodes(t));
    SameUpdate(R, x, R[x], Nodes(t));
    SameUpdate(P, x, v, Nodes(t));
    ShapedFrame(L, R, P, L, R, P[x := v], t, par, Nodes(t));
  }

  /** A node outside S keeps its links and npl. */
  lemma KeptAt(L0: seq<int>, R0: seq<int>, P0: seq<int>, N0: seq<int>,
               L: seq<int>, R: seq<int>, P: seq<int>, N: seq<int>, S: set<nat>, x: nat)
    requires Kept(L0, R0, P0, N0, L, R, P, N, S) && x !in S && x < |L0| && x < |R0| && x < |P0| && x < |N0|
    ensures L[x] == L0[x] && R[x] == R0[x] && P[x] == P0[x] && N[x] == N0[x]
  {
  }

  /**
   * Clearing the parent link of the top of a heap, or of a node outside it:
   * the heap then hangs below NULL, or below what it hung below.
   */
  lemma Unhang(L: seq<int>, R: seq<int>, P: seq<int>, N: seq<int>, K: seq<int>, t: Tree, par: int, x: nat)
    requires ArenaOk(L, R, P, N, K) && HeapShape(L, R, P, N, K, t, par) && x < |P|
    requires x == Root(t) || x !in Nodes(t)
    ensures HeapShape(L, R, P[x := NIL], N, K, t, if x == Root(t) then NIL else par)
  {
    NodesBelow(L, R, P, t);
    if t.Node? {
      assert Below(t) <= Nodes(t);
      assert x !in Below(t);
      SameUpdate(P, x, NIL, Below(t));
      assert Same(L, L, Nodes(t)) && Same(R, R, Nodes(t));
      LinksFrame(L, R, P, L, R, P[x := NIL], t);
    }
  }

  /** The two subtrees of a heap's top are heaps below it, with what the code reads of the top. */
  lemma Children(L: seq<int>, R: seq<int>, P: seq<int>, N: seq<int>, K: seq<int>, t: Tree, par: int)
    requires ArenaOk(L, R, P, N, K) && HeapShape(L, R, P, N, K, t, par) && t.Node?
    ensures t.id < |L| && L[t.id] == Root(t.l) && R[t.id] == Root(t.r) && P[t.id] == par
    ensures IsLink(L[t.id], |L|) && IsLink(R[t.id], |L|)
    ensures HeapShape(L, R, P, N, K, t.l, t.id) && HeapShape(L, R, P, N, K, t.r, t.id)
    ensures Nodes(t.l) !! Nodes(t.r) && t.id !in Nodes(t.l) + Nodes(t.r)
    ensures Nodes(t) - {t.id} == Nodes(t.l) + Nodes(t.r)
  {
    ChildLinks(L, R, P, t);
  }

  /** Links kept off S are the same on a set T outside S. */
  lemma OffSame(A: seq<int>, B: seq<int>, S: set<nat>, T: set<nat>)
    requires Off(A, B, S) && S !! T && forall y :: y in T ==> y < |A|
    ensures Same(A, B, T)
  {
  }

  /** A heap whose nodes lie outside S is still a heap when everything off S is kept. */
  lemma HeapKept(L: seq<int>, R: seq<int>, P: seq<int>, N: seq<int>, K: seq<int>,
                 L2: seq<int>, R2: seq<int>, P2: seq<int>, N2: seq<int>, t: Tree, par: int, S: set<nat>)
    requires ArenaOk(L, R, P, N, K) && HeapShape(L, R, P, N, K, t, par)
    requires Kept(L, R, P, N, L2, R2, P2, N2, S) && Nodes(t) !! S
    ensures HeapShape(L2, R2, P2, N2, K, t, par)
  {
    NodesBelow(L, R, P, t);
    OffSame(L, L2, S, Nodes(t));
    OffSame(R, R2, S, Nodes(t));
    OffSame(P, P2, S, Nodes(t));
    OffSame(N, N2, S, Nodes(t));
    ShapedFrame(L, R, P, L2, R2, P2, t, par, Nodes(t));
    LeftistFrame(N, N2, t);
  }

  // ---------------------------------------------------------------------------
  // Steps of lh_del

  /**
   * Wherever the path goes down to the right, the left subtree beside it is
   * not empty: the leftist rule puts the larger npl on the left.
   */
  ghost predicate LeftFull(p: Path)
  {
    p.Up? ==> (p.holeLeft || p.other.Node?) && LeftFull(p.above)
  }

  /** Above a non-empty subtree of a leftist tree, the subtrees beside the path are leftist and LeftFull holds. */
  lemma {:induction false} PlugLeftistPart(N: seq<int>, p: Path, t: Tree)
    requires Leftist(N, Plug(p, t)) && t.Node?
    ensures Leftist(N, t) && BesideLeftist(N, p) && LeftFull(p)
  {
    if p.Up? {
      PlugLeftistPart(N, p.above, Attach(p, t));
      NplLeftist(N, t);
    }
  }

  lemma KeptWithin(L0: seq<int>, R0: seq<int>, P0: seq<int>, N0: seq<int>,
                   L: seq<int>, R: seq<int>, P: seq<int>, N: seq<int>, S: set<nat>, T: set<nat>)
    requires Kept(L0, R0, P0, N0, L, R, P, N, S) && S <= T
    ensures Kept(L0, R0, P0, N0, L, R, P, N, T)
  {
  }

  /** What lh_del needs of the heap around the subtree s headed by the item. */
  lemma DelStart(L: seq<int>, R: seq<int>, P: seq<int>, N: seq<int>, K: seq<int>, p: Path, s: Tree)
    requires ArenaOk(L, R, P, N, K) && HeapShape(L, R, P, N, K, Plug(p, s), NIL) && s.Node?
    ensures HeapShape(L, R, P, N, K, s, HoleParent(p, NIL)) && BesideLeftist(N, p) && LeftFull(p)
    ensures PathNodes(p) !! Nodes(s) && Nodes(Plug(p, s)) == PathNodes(p) + Nodes(s)
  {
    PlugShapedPart(L, R, P, p, s, NIL);
    PlugOrderedPart(K, p, s);
    PlugLeftistPart(N, p, s);
    PlugDistinct(p, s);
    PlugNodes(p, s);
  }

  /**
   * The heap once the item's children are gone: the item is a leaf on the
   * path, everything else as it was.
   */
  ghost predicate DelReady(L: seq<int>, R: seq<int>, P: seq<int>, N: seq<int>, K: seq<int>, p: Path, x: nat, top: int)
  {
    ArenaOk(L, R, P, N, K) &&
    Shaped(L, R, P, Plug(p, Node(Leaf, x, Leaf)), NIL) && Ordered(K, Plug(p, Node(Leaf, x, Leaf))) &&
    BesideLeftist(N, p) && LeftFull(p) && Root(Plug(p, Node(Leaf, x, Leaf))) == top
  }

  /** Clearing the item's child links, with the path's links kept, leaves DelReady. */
  lemma DelReadyHolds(L: seq<int>, R: seq<int>, P: seq<int>, N: seq<int>, K: seq<int>,
                      L2: seq<int>, R2: seq<int>, P2: seq<int>, N2: seq<int>, p: Path, s: Tree)
    requires ArenaOk(L, R, P, N, K) && HeapShape(L, R, P, N, K, Plug(p, s), NIL) && s.Node?
    requires ArenaOk(L2, R2, P2, N2, K) && Kept(L, R, P, N, L2, R2, P2, N2, Nodes(s))
    requires s.id < |L2| && L2[s.id] == NIL && R2[s.id] == NIL && P2[s.id] == P[s.id]
    ensures DelReady(L2, R2, P2, N2, K, p, s.id, Root(Plug(p, s)))
  {
    var x := Node(Leaf, s.id, Leaf);
    DelStart(L, R, P, N, K, p, s);
    PlugShapedPart(L, R, P, p, s, NIL);
    PlugNodes(p, x);
    NodesBelow(L, R, P, Plug(p, s));
    OffSame(L, L2, Nodes(s), PathNodes(p));
    OffSame(R, R2, Nodes(s), PathNodes(p));
    OffSame(P, P2, Nodes(s), PathNodes(p));
    OffSame(N, N2, Nodes(s), PathNodes(p));
    PlugReplace(L, R, P, L2, R2, P2, p, s, x, NIL);
    PlugOrderedReplace(K, p, s, x);
    PlugRoot(p, s, x);
    BesideLeftistPath(N, N2, p);
  }

  /** Subtrees beside a path stay leftist when npl agrees on the path's nodes. */
  lemma {:induction false} BesideLeftistPath(N: seq<int>, N2: seq<int>, p: Path)
    requires BesideLeftist(N, p) && Same(N, N2, PathNodes(p))
    ensures BesideLeftist(N2, p)
  {
    if p.Up? {
      LeftistFrame(N, N2, p.other);
      BesideLeftistPath(N, N2, p.above);
    }
  }

  /** The parent a of a leaf x, with x unhooked: a keeps its other child, on the left. */
  lemma DelCutLocal(L: seq<int>, R: seq<int>, P: seq<int>, a: Tree, x: nat, par: int)
    requires Shaped(L, R, P, a, par) && a.Node? && (a.l == Node(Leaf, x, Leaf) || a.r == Node(Leaf, x, Leaf))
    ensures a.id < |L| && a.id < |R| && x < |P| && P[x] == a.id && (R[a.id] == x <==> a.r == Node(Leaf, x, Leaf))
    ensures var o := if a.r == Node(Leaf, x, Leaf) then a.l else a.r;
      Shaped(if R[a.id] != x then L[a.id := R[a.id]] else L, R[a.id := NIL], P[x := NIL], Node(o, a.id, Leaf), par)
  {
    var o := if a.r == Node(Leaf, x, Leaf) then a.l else a.r;
    NodesBelow(L, R, P, a);
    assert Nodes(a) == Nodes(a.l) + {a.id} + Nodes(a.r);
    assert x in Nodes(a.l) + Nodes(a.r) && x !in Nodes(o) && a.id !in Nodes(o);
    var L2, R2, P2 := if R[a.id] != x then L[a.id := R[a.id]] else L, R[a.id := NIL], P[x := NIL];
    SameUpdate(L, a.id, R[a.id], Nodes(o));
    SameUpdate(R, a.id, NIL, Nodes(o));
    SameUpdate(P, x, NIL, Nodes(o) + {a.id});
    LinksFrame(L, R, P, L2, R2, P2, o);
  }

  /**
   * Unhooking the item x from its parent: the parent keeps the other child,
   * on the left, and gets no right child; x's parent link is cleared.
   */
  lemma DelCutShape(L: seq<int>, R: seq<int>, P: seq<int>, p: Path, x: nat)
    requires Shaped(L, R, P, Plug(p, Node(Leaf, x, Leaf)), NIL) && p.Up?
    ensures p.id < |L| && p.id < |R| && x < |P| && P[x] == p.id && (R[p.id] == x <==> !p.holeLeft)
    ensures var c := Node(p.other, p.id, Leaf);
      Shaped(if R[p.id] != x then L[p.id := R[p.id]] else L, R[p.id := NIL], P[x := NIL], Plug(p.above, c), NIL) &&
      Nodes(Plug(p.above, c)) == PathNodes(p) && Root(Plug(p.above, c)) == Root(Plug(p, Node(Leaf, x, Leaf))) &&
      p.id !in Nodes(p.other) + PathNodes(p.above) && x !in PathNodes(p)
  {
    var a := Attach(p, Node(Leaf, x, Leaf));
    var c := Node(p.other, p.id, Leaf);
    PlugDistinct(p, Node(Leaf, x, Leaf));
    PlugShapedPart(L, R, P, p.above, a, NIL);
    PlugDistinct(p.above, a);
    PlugNodes(p.above, c);
    PlugNodes(p.above, a);
    NodesBelow(L, R, P, Plug(p.above, a));
    DelCutLocal(L, R, P, a, x, HoleParent(p.above, NIL));
    var L2, R2, P2 := if R[p.id] != x then L[p.id := R[p.id]] else L, R[p.id := NIL], P[x := NIL];
    SameUpdate(L, p.id, R[p.id], PathNodes(p.above));
    SameUpdate(R, p.id, NIL, PathNodes(p.above));
    SameUpdate(P, x, NIL, PathNodes(p.above));
    PlugReplace(L, R, P, L2, R2, P2, p.above, a, c, NIL);
    PlugRoot(p.above, a, c);
  }

  /** Cutting the item off keeps the heap order. */
  lemma DelCutOrder(K: seq<int>, p: Path, x: nat)
    requires Ordered(K, Plug(p, Node(Leaf, x, Leaf))) && p.Up?
    ensures Ordered(K, Plug(p.above, Node(p.other, p.id, Leaf)))
  {
    var a := Attach(p, Node(Leaf, x, Leaf));
    PlugOrderedPart(K, p.above, a);
    PlugOrderedReplace(K, p.above, a, Node(p.other, p.id, Leaf));
  }

  /** The parent, with npl 0 and only a left child, is leftist; so are the subtrees beside the path above. */
  lemma DelCutNpl(N: seq<int>, p: Path)
    requires BesideLeftist(N, p) && LeftFull(p) && p.Up? && p.id < |N| && p.id !in Nodes(p.other) + PathNodes(p.above)
    ensures Leftist(N[p.id := 0], Node(p.other, p.id, Leaf)) && BesideLeftist(N[p.id := 0], p.above) && LeftFull(p.above)
  {
    LeftistUpdate(N, p.other, p.id, 0);
    NplLeftist(N[p.id := 0], p.other);
    BesideLeftistFrame(N, p.above, p.id, 0);
  }

  /** Lines 152-159 of lh_del leave the parent fixed, ready for the climb. */
  lemma DelCutHolds(L: seq<int>, R: seq<int>, P: seq<int>, N: seq<int>, K: seq<int>, p: Path, x: nat, top: int)
    requires DelReady(L, R, P, N, K, p, x, top) && p.Up?
    ensures p.id < |L| && x < |P| && P[x] == p.id && (R[p.id] == x <==> !p.holeLeft) && x !in PathNodes(p)
    ensures var L2 := if R[p.id] != x then L[p.id := R[p.id]] else L;
      FixedState(L2, R[p.id := NIL], P[x := NIL], N[p.id := 0], K, p.above, Node(p.other, p.id, Leaf), NIL, PathNodes(p), top) &&
      LeftFull(p.above)
  {
    DelCutShape(L, R, P, p, x);
    DelCutOrder(K, p, x);
    DelCutNpl(N, p);
  }

  /** Two stretches that keep everything off S keep everything off S. */
  lemma KeptChain(L0: seq<int>, R0: seq<int>, P0: seq<int>, N0: seq<int>,
                  L1: seq<int>, R1: seq<int>, P1: seq<int>, N1: seq<int>,
                  L: seq<int>, R: seq<int>, P: seq<int>, N: seq<int>, S: set<nat>)
    requires Kept(L0, R0, P0, N0, L1, R1, P1, N1, S) && Kept(L1, R1, P1, N1, L, R, P, N, S)
    ensures Kept(L0, R0, P0, N0, L, R, P, N, S)
  {
    KeptTrans(L0, R0, P0, N0, L1, R1, P1, N1, L, R, P, N, S, S);
  }

  class Heap {
    var parent: seq<int>
    var left: seq<int>
    var right: seq<int>
    var npl: seq<int>
    var key: seq<int>
    /** lh_heap's node: the root, NIL when the heap is empty. */
    var node: int
    /** The shape of the heap. */
    ghost var tree: Tree

    ghost predicate Arena()
      reads this
    {
      ArenaOk(left, right, parent, npl, key)
    }

    /** t is a leftist heap hanging below par. */
    ghost predicate IsHeap(t: Tree, par: int)
      reads this
    {
      HeapShape(left, right, parent, npl, key, t, par)
    }

    ghost predicate Valid()
      reads this
    {
      Arena() && IsHeap(tree, NIL) && node == Root(tree)
    }

    /** The body of lh_merge's second loop at node x: children in order, then npl. */
    method FixNode(x: int)
      requires Arena() && 0 <= x < |left| && IsLink(left[x], |left|) && IsLink(right[x], |left|)
      modifies this
      ensures Arena() && key == old(key) && parent == old(parent) && node == old(node) && tree == old(tree)
      ensures left == FixLeft(old(left), old(right), old(npl), x)
      ensures right == FixRight(old(left), old(right), old(npl), x)
      ensures npl == FixNpl(old(left), old(right), old(npl), x)
    {
      var l, r := left[x], right[x];
      if l == NIL || (r != NIL && npl[l] < npl[r]) {
        left := left[x := r];
        right := right[x := l];
      }
      npl := npl[x := if right[x] != NIL then npl[right[x]] + 1 else 0];
    }

    /**
     * lh_merge(h1, h2): the heaps with roots h1 and h2, both hanging below q,
     * become one heap holding exactly their nodes. A NULL operand gives the
     * other one back untouched. Otherwise the root whose key is not below the
     * other's is the top, the right spines are merged in key order, and the
     * way back up puts children in order and recomputes npl. The climb stops
     * at a node whose parent link is NULL, so when q is a node (an ancestor
     * the caller detached without clearing its children's parent links), q
     * is fixed up as well and comes back as the result.
     */
    method Merge(h1: int, h2: int, ghost t1: Tree, ghost t2: Tree, ghost q: int) returns (m: int, ghost t: Tree)
      requires Arena() && IsHeap(t1, q) && IsHeap(t2, q) && Nodes(t1) !! Nodes(t2)
      requires h1 == Root(t1) && h2 == Root(t2)
      requires q == NIL || (0 <= q < |left| && q !in Nodes(t1) + Nodes(t2) && parent[q] == NIL && IsLink(left[q], |left|) && IsLink(right[q], |left|))
      modifies this
      ensures Arena() && key == old(key) && node == old(node) && tree == old(tree)
      ensures IsHeap(t, q) && Nodes(t) == Nodes(t1) + Nodes(t2)
      ensures h1 == NIL ==> m == h2 && t == t2 && left == old(left) && right == old(right) && parent == old(parent) && npl == old(npl)
      ensures h2 == NIL ==> m == h1 && t == t1 && left == old(left) && right == old(right) && parent == old(parent) && npl == old(npl)
      ensures h1 != NIL && h2 != NIL ==> Root(t) == if old(key[h1] < key[h2]) then h2 else h1
      ensures m == if q == NIL || h1 == NIL || h2 == NIL then Root(t) else q
      ensures Kept(old(left), old(right), old(parent), old(npl), left, right, parent, npl, Nodes(t1) + Nodes(t2) + QSet(q))
    {
      if h1 == NIL {
        return h2, t2;
      }
      if h2 == NIL {
        return h1, t1;
      }
      m, t := MergeBoth(h1, h2, t1, t2, q);
    }

    /** lh_merge on two non-empty heaps. */
    method MergeBoth(h1: int, h2: int, ghost t1: Tree, ghost t2: Tree, ghost q: int) returns (m: int, ghost t: Tree)
      requires Arena() && IsHeap(t1, q) && IsHeap(t2, q) && Nodes(t1) !! Nodes(t2)
      requires h1 == Root(t1) && h2 == Root(t2) && h1 != NIL && h2 != NIL
      requires q == NIL || (0 <= q < |left| && q !in Nodes(t1) + Nodes(t2) && parent[q] == NIL && IsLink(left[q], |left|) && IsLink(right[q], |left|))
      modifies this
      ensures Arena() && key == old(key) && node == old(node) && tree == old(tree)
      ensures IsHeap(t, q) && Nodes(t) == Nodes(t1) + Nodes(t2)
      ensures Root(t) == if old(key[h1] < key[h2]) then h2 else h1
      ensures m == if q == NIL then Root(t) else q
      ensures Kept(old(left), old(right), old(parent), old(npl), left, right, parent, npl, Nodes(t1) + Nodes(t2) + QSet(q))
    {
      var swap := key[h1] < key[h2];
      var merged, mergee := if swap then h2 else h1, if swap then h1 else h2;
      ghost var ta, tb := if swap then t2 else t1, if swap then t1 else t2;
      ghost var U := Nodes(t1) + Nodes(t2);
      assert U == Nodes(ta) + Nodes(tb);
      ghost var L0, R0, P0, N0 := left, right, parent, npl;
      var x, spine, c := RightSpine(merged, mergee, ta, tb, q, U);
      ghost var L1, R1, P1, N1 := left, right, parent, npl;
      m, t := Climb(x, spine, c, q, U);
      KeptTrans(L0, R0, P0, N0, L1, R1, P1, N1, left, right, parent, npl, U, U + QSet(q));
    }

    /**
     * The first loop of lh_merge, from merged, the root with the larger key,
     * and mergee: down the right spine, the larger of merged's right child
     * and mergee becomes the right child, until mergee runs out. It ends at
     * x, the last node it linked, with the merged tree Plug(spine, c).
     */
    method RightSpine(merged0: int, mergee0: int, ghost t1: Tree, ghost t2: Tree, ghost q: int, ghost U: set<nat>)
      returns (x: int, ghost spine: Path, ghost c: Tree)
      requires Arena() && IsHeap(t1, q) && IsHeap(t2, q) && Nodes(t1) !! Nodes(t2)
      requires t1.Node? && t2.Node? && merged0 == t1.id && mergee0 == t2.id && key[mergee0] <= key[merged0]
      requires U == Nodes(t1) + Nodes(t2)
      modifies this
      ensures Arena() && key == old(key) && node == old(node) && tree == old(tree) && npl == old(npl)
      ensures x == Root(c) && UpState(left, right, parent, npl, key, spine, c, q, U, merged0)
      ensures Kept(old(left), old(right), old(parent), old(npl), left, right, parent, npl, U)
    {
      ghost var L0, R0, P0, N0 := left, right, parent, npl;
      var merged, mergee := merged0, mergee0;
      c, spine := t1, Top;
      ghost var e := t2;
      DownStart(left, right, parent, npl, key, t1, t2, q, U);
      while true
        invariant Arena() && key == old(key) && node == old(node) && tree == old(tree) && npl == old(npl)
        invariant merged == Root(c) && mergee == Root(e)
        invariant DownState(left, right, parent, npl, key, spine, c, e, q, U, merged0)
        invariant Kept(L0, R0, P0, N0, left, right, parent, npl, U)
        decreases Size(c) + Size(e)
      {
        DownLinks(left, right, parent, npl, key, spine, c, e, q, U, merged0);
        var r := right[merged];
        if r == NIL || key[r] < key[mergee] {
          DownSwap(left, right, parent, npl, key, spine, c, e, q, U, merged0);
          OffUpdate(R0, right, U, merged, mergee);
          OffUpdate(P0, parent, U, mergee, merged);
          right := right[merged := mergee];
          parent := parent[mergee := merged];
          mergee := r;
          if mergee == NIL {
            x, c := merged, Node(c.l, c.id, e);
            return;
          }
          spine, c, e := Up(false, merged, c.l, spine), e, c.r;
        } else {
          DownKeep(left, right, parent, npl, key, spine, c, e, q, U, merged0);
          spine, c := Up(false, merged, c.l, spine), c.r;
        }
        merged := right[merged];
      }
    }

    /**
     * The state of lh_merge's second loop at merged, which has just been
     * fixed up. Climbing the path, cur is the subtree below merged's link and
     * everything off U is as it was; once the climb has passed the top of the
     * path to q (done), t is the fixed-up heap below q, and q itself is fixed.
     */
    ghost predicate Climbing(merged: int, done: bool, path: Path, cur: Tree, t: Tree, q: int, U: set<nat>, top: int,
                             L0: seq<int>, R0: seq<int>, P0: seq<int>, N0: seq<int>)
      reads this
    {
      Arena() && 0 <= merged < |left| &&
      (q != NIL ==> 0 <= q < |left| && |L0| == |left| && |R0| == |left| && q !in U && parent[q] == NIL && IsLink(L0[q], |left|) && IsLink(R0[q], |left|)) &&
      (!done ==> merged == Root(cur) && FixedState(left, right, parent, npl, key, path, cur, q, U, top) &&
                 Kept(L0, R0, P0, N0, left, right, parent, npl, U)) &&
      (done ==> q != NIL && merged == q && IsHeap(t, q) && Nodes(t) == U && Root(t) == top &&
                Kept(L0, R0, P0, N0, left, right, parent, npl, U + QSet(q)))
    }

    /** One turn of the second loop: up to the parent, which is then fixed up. */
    method ClimbStep(merged0: int, ghost done0: bool, ghost path0: Path, ghost cur0: Tree, ghost t0: Tree,
                     ghost q: int, ghost U: set<nat>, ghost top: int,
                     ghost L0: seq<int>, ghost R0: seq<int>, ghost P0: seq<int>, ghost N0: seq<int>)
      returns (merged: int, ghost done: bool, ghost path: Path, ghost cur: Tree, ghost t: Tree)
      requires Climbing(merged0, done0, path0, cur0, t0, q, U, top, L0, R0, P0, N0) && parent[merged0] != NIL
      modifies this
      ensures key == old(key) && node == old(node) && tree == old(tree) && parent == old(parent)
      ensures Climbing(merged, done, path, cur, t, q, U, top, L0, R0, P0, N0)
      ensures !done0 && (done || (path0.Up? && path == path0.above))
    {
      FixedLinks(left, right, parent, npl, key, path0, cur0, q, U, top);
      merged := parent[merged0];
      if path0.Up? {
        FixedUp(left, right, parent, npl, key, path0, cur0, q, U, top);
        ghost var a := Attach(path0, cur0);
        UpLinks(left, right, parent, npl, key, path0.above, a, q, U, top);
        UpFix(left, right, parent, npl, key, path0.above, a, q, U, top);
        KeptFix(L0, R0, P0, N0, left, right, parent, npl, U, merged);
        done, path, t := false, path0.above, t0;
        cur := if SwapsUp(left, right, npl, merged) then Node(a.r, a.id, a.l) else a;
      } else {
        assert left[q] == L0[q] && right[q] == R0[q];
        FixOutside(left, right, parent, npl, key, cur0, q);
        KeptMore(L0, R0, P0, N0, left, right, parent, npl, U, QSet(q));
        KeptFix(L0, R0, P0, N0, left, right, parent, npl, U + QSet(q), merged);
        done, path, cur, t := true, path0, cur0, cur0;
      }
      FixNode(merged);
    }

    /** The first turn of the second loop: x, the last node the first loop linked, is fixed up. */
    method ClimbStart(x: int, ghost spine: Path, ghost c: Tree, ghost q: int, ghost U: set<nat>)
      returns (ghost cur: Tree)
      requires Arena() && x == Root(c) && UpState(left, right, parent, npl, key, spine, c, q, U, Root(Plug(spine, c)))
      requires q == NIL || (0 <= q < |left| && q !in U && parent[q] == NIL && IsLink(left[q], |left|) && IsLink(right[q], |left|))
      modifies this
      ensures key == old(key) && node == old(node) && tree == old(tree) && parent == old(parent)
      ensures Climbing(x, false, spine, cur, c, q, U, Root(Plug(spine, c)), old(left), old(right), old(parent), old(npl))
    {
      UpLinks(left, right, parent, npl, key, spine, c, q, U, Root(Plug(spine, c)));
      UpFix(left, right, parent, npl, key, spine, c, q, U, Root(Plug(spine, c)));
      KeptFix(left, right, parent, npl, left, right, parent, npl, U, x);
      cur := if SwapsUp(left, right, npl, x) then Node(c.r, c.id, c.l) else c;
      FixNode(x);
    }

    /** When the loop stops at a node without a parent link, the heap below q is done. */
    lemma ClimbEnd(merged: int, done: bool, path: Path, cur: Tree, t: Tree, q: int, U: set<nat>, top: int,
                   L0: seq<int>, R0: seq<int>, P0: seq<int>, N0: seq<int>)
      requires Climbing(merged, done, path, cur, t, q, U, top, L0, R0, P0, N0) && parent[merged] == NIL
      ensures var t2 := if done then t else cur;
        IsHeap(t2, q) && Nodes(t2) == U && Root(t2) == top && merged == (if q == NIL then Root(t2) else q) &&
        Kept(L0, R0, P0, N0, left, right, parent, npl, U + QSet(q))
    {
      if !done {
        FixedLinks(left, right, parent, npl, key, path, cur, q, U, top);
        KeptMore(L0, R0, P0, N0, left, right, parent, npl, U, QSet(q));
      }
    }

    /**
     * The second loop of lh_merge: from x up through the parent links, each
     * node gets its children in order and its npl set, until a node whose
     * parent link is NULL, which is the result.
     */
    method Climb(x: int, ghost spine: Path, ghost c: Tree, ghost q: int, ghost U: set<nat>) returns (m: int, ghost t: Tree)
      requires Arena() && x == Root(c) && UpState(left, right, parent, npl, key, spine, c, q, U, Root(Plug(spine, c)))
      requires q == NIL || (0 <= q < |left| && q !in U && parent[q] == NIL && IsLink(left[q], |left|) && IsLink(right[q], |left|))
      modifies this
      ensures Arena() && key == old(key) && node == old(node) && tree == old(tree) && parent == old(parent)
      ensures IsHeap(t, q) && Nodes(t) == U && Root(t) == Root(Plug(spine, c))
      ensures m == if q == NIL then Root(t) else q
      ensures Kept(old(left), old(right), old(parent), old(npl), left, right, parent, npl, U + QSet(q))
    {
      ghost var L0, R0, P0, N0 := left, right, parent, npl;
      ghost var top := Root(Plug(spine, c));
      ghost var path, done := spine, false;
      t := c;
      var merged := x;
      ghost var cur := ClimbStart(x, spine, c, q, U);
      while parent[merged] != NIL
        invariant key == old(key) && node == old(node) && tree == old(tree) && parent == old(parent)
        invariant Climbing(merged, done, path, cur, t, q, U, top, L0, R0, P0, N0)
        decreases !done, path
      {
        merged, done, path, cur, t := ClimbStep(merged, done, path, cur, t, q, U, top, L0, R0, P0, N0);
      }
      ClimbEnd(merged, done, path, cur, t, q, U, top, L0, R0, P0, N0);
      t := if done then t else cur;
      m := merged;
    }

    /** lh_heap(name): an empty heap over nodes with the given keys, every node cleared. */
    constructor (keys: seq<int>)
      ensures Valid() && tree == Leaf && key == keys
      ensures forall x :: 0 <= x < |keys| ==> Cleared(left, right, parent, npl, x)
    {
      parent := seq(|keys|, _ => NIL);
      left := seq(|keys|, _ => NIL);
      right := seq(|keys|, _ => NIL);
      npl := seq(|keys|, _ => 0);
      key := keys;
      node := NIL;
      tree := Leaf;
    }

    /** lh_heap_init: the heap is empty; the nodes are not touched. */
    method HeapInit()
      modifies this
      ensures node == NIL && tree == Leaf
      ensures left == old(left) && right == old(right) && parent == old(parent) && npl == old(npl) && key == old(key)
      ensures Arena() ==> Valid()
    {
      node := NIL;
      tree := Leaf;
    }

    /** lh_heap_empty: the root link is NULL exactly when the heap holds no node. */
    function Empty(): (r: bool)
      reads this
      requires Valid()
      ensures r <==> tree == Leaf
      ensures r <==> Nodes(tree) == {}
    {
      node == NIL
    }

    /**
     * lh_node_init(x): x's links become NULL and its npl 0; a node outside
     * the heap can be cleared without disturbing it.
     */
    method NodeInit(x: int)
      requires Arena() && 0 <= x < |left|
      modifies this
      ensures parent == old(parent)[x := NIL] && left == old(left)[x := NIL] && right == old(right)[x := NIL]
      ensures npl == old(npl)[x := 0]
      ensures key == old(key) && node == old(node) && tree == old(tree)
      ensures Cleared(left, right, parent, npl, x)
      ensures old(Valid()) && x !in Nodes(tree) ==> Valid()
    {
      if Valid() && x !in Nodes(tree) {
        HeapOff(left, right, parent, npl, key, tree, NIL, x, NIL, NIL, NIL, 0);
      }
      parent := parent[x := NIL];
      left := left[x := NIL];
      right := right[x := NIL];
      npl := npl[x := 0];
    }

    /** lh_min: the root, whose key is not below any key in the heap. */
    function Min(): (r: int)
      reads this
      requires Valid()
      ensures r == Root(tree)
      ensures forall y :: y in Nodes(tree) ==> 0 <= r < |key| && y < |key| && key[y] <= key[r]
    {
      MinIsMax();
      node
    }

    lemma MinIsMax()
      requires Valid()
      ensures forall y :: y in Nodes(tree) ==> 0 <= node < |key| && y < |key| && key[y] <= key[node]
    {
      forall y | y in Nodes(tree)
        ensures 0 <= node < |key| && y < |key| && key[y] <= key[node]
      {
        RootIsMax(key, tree, y);
      }
    }

    /**
     * lh_insert(heap, item): the heap becomes lh_merge(heap, item). The new
     * root is the old one unless item's key is above it.
     */
    method Insert(item: int)
      requires Valid() && 0 <= item < |left| && item !in Nodes(tree) && Cleared(left, right, parent, npl, item)
      modifies this
      ensures Valid() && key == old(key)
      ensures Nodes(tree) == old(Nodes(tree)) + {item}
      ensures node == if old(node) != NIL && key[item] <= key[old(node)] then old(node) else item
      ensures Kept(old(left), old(right), old(parent), old(npl), left, right, parent, npl, old(Nodes(tree)) + {item})
    {
      Single(left, right, parent, npl, key, item);
      var m, t := Merge(node, item, tree, Node(Leaf, item, Leaf), NIL);
      node, tree := m, t;
    }

    /**
     * lh_del_min as intended: the parent links of the root's children are
     * cleared, as lh_del does, and the heap becomes the merge of the two
     * children, which holds every node but the old root.
     */
    method DelMin()
      requires Valid() && node != NIL
      modifies this
      ensures Valid() && key == old(key)
      ensures Nodes(tree) == old(Nodes(tree)) - {old(node)}
      ensures node == if old(tree.l).Leaf? || (old(tree.r).Node? && key[old(tree.l.id)] < key[old(tree.r.id)])
                      then old(Root(tree.r)) else old(Root(tree.l))
      ensures Kept(old(left), old(right), old(parent), old(npl), left, right, parent, npl, old(Nodes(tree)))
    {
      Children(left, right, parent, npl, key, tree, NIL);
      var l, r := left[node], right[node];
      ghost var tl, tr := tree.l, tree.r;
      if l != NIL {
        Unhang(left, right, parent, npl, key, tl, node, l);
        Unhang(left, right, parent, npl, key, tr, node, l);
        parent := parent[l := NIL];
      }
      if r != NIL {
        Unhang(left, right, parent, npl, key, tl, if l != NIL then NIL else node, r);
        Unhang(left, right, parent, npl, key, tr, node, r);
        parent := parent[r := NIL];
      }
      var m, t := Merge(l, r, tl, tr, NIL);
      node, tree := m, t;
    }

    /**
     * lh_del_min as written: the children still link to the root, so the
     * climb of lh_merge goes on through them to the root and returns it.
     * With two children the root stays the root; with one, that child
     * becomes the root with its parent link still to the removed node.
     */
    method DelMinAsWritten()
      requires Valid() && node != NIL
      modifies this
      ensures old(tree.l).Node? && old(tree.r).Node? ==> node == old(node)
      ensures old(tree.l).Node? != old(tree.r).Node? ==> 0 <= node < |parent| && node != old(node) && parent[node] == old(node)
    {
      Children(left, right, parent, npl, key, tree, NIL);
      ghost var tl, tr := tree.l, tree.r;
      var m, t := Merge(left[node], right[node], tl, tr, node);
      node := m;
    }

    /**
     * The body of lh_del's climb at x: the children swapped when the right
     * one has the larger npl, then npl from the right child. It reads the
     * left child's npl whenever there is a right child.
     */
    method DelFixNode(x: int)
      requires Arena() && 0 <= x < |left| && IsLink(left[x], |left|) && IsLink(right[x], |left|)
      requires left[x] != NIL || right[x] == NIL
      modifies this
      ensures Arena() && key == old(key) && parent == old(parent) && node == old(node) && tree == old(tree)
      ensures left == FixLeft(old(left), old(right), old(npl), x)
      ensures right == FixRight(old(left), old(right), old(npl), x)
      ensures npl == FixNpl(old(left), old(right), old(npl), x)
    {
      if right[x] != NIL && npl[right[x]] > npl[left[x]] {
        var l := left[x];
        left := left[x := right[x]];
        right := right[x := l];
      }
      npl := npl[x := if right[x] != NIL then npl[right[x]] + 1 else 0];
    }

    /**
     * Lines 148-151 of lh_del(item): the children's parent links are
     * cleared, the children are merged into the heap tn, and item's child
     * links are cleared.
     */
    method DelChildren(item: int, ghost s: Tree, ghost par: int) returns (n: int, ghost tn: Tree)
      requires Arena() && IsHeap(s, par) && s.Node? && s.id == item
      modifies this
      ensures Arena() && key == old(key) && node == old(node) && tree == old(tree)
      ensures IsHeap(tn, NIL) && Nodes(tn) == Nodes(s) - {item} && n == Root(tn)
      ensures item < |left| && left[item] == NIL && right[item] == NIL && parent[item] == old(parent[item])
      ensures Kept(old(left), old(right), old(parent), old(npl), left, right, parent, npl, Nodes(s))
    {
      ghost var L0, R0, P0, N0 := left, right, parent, npl;
      Children(left, right, parent, npl, key, s, par);
      var l, r := left[item], right[item];
      ClearParents(l, r, s.l, s.r, item);
      ghost var L1, R1, P1, N1 := left, right, parent, npl;
      n, tn := Merge(l, r, s.l, s.r, NIL);
      ghost var U := Nodes(s.l) + Nodes(s.r);
      KeptTrans(L0, R0, P0, N0, L1, R1, P1, N1, left, right, parent, npl, U, U + QSet(NIL));
      KeptWithin(L0, R0, P0, N0, left, right, parent, npl, U + (U + QSet(NIL)), Nodes(s));
      OffUpdate(L0, left, Nodes(s), item, NIL);
      OffUpdate(R0, right, Nodes(s), item, NIL);
      HeapOffChildren(left, right, parent, npl, key, tn, NIL, item, NIL, NIL);
      left := left[item := NIL];
      right := right[item := NIL];
    }

    /** Lines 148-149 of lh_del: the parent links of the item's children l and r become NULL. */
    method ClearParents(l: int, r: int, ghost tl: Tree, ghost tr: Tree, ghost x: nat)
      requires Arena() && IsHeap(tl, x) && IsHeap(tr, x) && Nodes(tl) !! Nodes(tr)
      requires l == Root(tl) && r == Root(tr)
      modifies this
      ensures Arena() && key == old(key) && node == old(node) && tree == old(tree)
      ensures left == old(left) && right == old(right) && npl == old(npl)
      ensures IsHeap(tl, NIL) && IsHeap(tr, NIL)
      ensures Kept(old(left), old(right), old(parent), old(npl), left, right, parent, npl, Nodes(tl) + Nodes(tr))
    {
      ghost var P0 := parent;
      if l != NIL {
        Unhang(left, right, parent, npl, key, tl, x, l);
        Unhang(left, right, parent, npl, key, tr, x, l);
        OffUpdate(P0, parent, Nodes(tl) + Nodes(tr), l, NIL);
        parent := parent[l := NIL];
      }
      if r != NIL {
        Unhang(left, right, parent, npl, key, tl, if l != NIL then NIL else x, r);
        Unhang(left, right, parent, npl, key, tr, x, r);
        OffUpdate(P0, parent, Nodes(tl) + Nodes(tr), r, NIL);
        parent := parent[r := NIL];
      }
    }

    /**
     * The middle of lh_del(item), with par the item's parent: the item's
     * parent link is cleared, par gets npl 0, keeps its other child on the
     * left and has no right child.
     */
    method DelCut(item: int, par: int, ghost p: Path, ghost top: int) returns (ghost c: Tree)
      requires Arena() && 0 <= item < |left| && DelReady(left, right, parent, npl, key, p, item, top)
      requires par == parent[item] && par != NIL
      modifies this
      ensures Arena() && key == old(key) && node == old(node) && tree == old(tree)
      ensures p.Up? && c == Node(p.other, p.id, Leaf) && par == c.id
      ensures FixedState(left, right, parent, npl, key, p.above, c, NIL, PathNodes(p), top) && LeftFull(p.above)
      ensures parent[item] == NIL && left[item] == old(left[item]) && right[item] == old(right[item])
      ensures item !in PathNodes(p)
      ensures Kept(old(left), old(right), old(parent), old(npl), left, right, parent, npl, PathNodes(p) + {item})
    {
      PlugShapedPart(left, right, parent, p, Node(Leaf, item, Leaf), NIL);
      DelCutHolds(left, right, parent, npl, key, p, item, top);
      c := Node(p.other, p.id, Leaf);
      parent := parent[item := NIL];
      npl := npl[par := 0];
      if right[par] != item {
        left := left[par := right[par]];
      }
      right := right[par := NIL];
    }

    /** The state of lh_del's climb at x, which has just been fixed. */
    ghost predicate DelClimbing(x: int, path: Path, cur: Tree, U: set<nat>, top: int,
                                L0: seq<int>, R0: seq<int>, P0: seq<int>, N0: seq<int>)
      reads this
    {
      Arena() && 0 <= x < |left| && x == Root(cur) &&
      FixedState(left, right, parent, npl, key, path, cur, NIL, U, top) && LeftFull(path) &&
      Kept(L0, R0, P0, N0, left, right, parent, npl, U)
    }

    /** One turn of lh_del's climb: up to the parent, which is then fixed. */
    method DelClimbStep(x0: int, ghost path0: Path, ghost cur0: Tree, ghost U: set<nat>, ghost top: int,
                        ghost L0: seq<int>, ghost R0: seq<int>, ghost P0: seq<int>, ghost N0: seq<int>)
      returns (x: int, ghost path: Path, ghost cur: Tree)
      requires DelClimbing(x0, path0, cur0, U, top, L0, R0, P0, N0) && parent[x0] != NIL
      modifies this
      ensures key == old(key) && node == old(node) && tree == old(tree) && parent == old(parent)
      ensures DelClimbing(x, path, cur, U, top, L0, R0, P0, N0)
      ensures path0.Up? && path == path0.above
    {
      FixedLinks(left, right, parent, npl, key, path0, cur0, NIL, U, top);
      x := parent[x0];
      FixedUp(left, right, parent, npl, key, path0, cur0, NIL, U, top);
      ghost var a := Attach(path0, cur0);
      UpLinks(left, right, parent, npl, key, path0.above, a, NIL, U, top);
      UpFix(left, right, parent, npl, key, path0.above, a, NIL, U, top);
      KeptFix(L0, R0, P0, N0, left, right, parent, npl, U, x);
      path := path0.above;
      cur := if SwapsUp(left, right, npl, x) then Node(a.r, a.id, a.l) else a;
      DelFixNode(x);
    }

    /** lh_del's climb from the fixed node x up to the root, whose parent link is NULL. */
    method DelClimb(x0: int, ghost path0: Path, ghost cur0: Tree, ghost U: set<nat>, ghost top: int) returns (ghost t: Tree)
      requires Arena() && 0 <= x0 < |left| && x0 == Root(cur0)
      requires FixedState(left, right, parent, npl, key, path0, cur0, NIL, U, top) && LeftFull(path0)
      modifies this
      ensures Arena() && key == old(key) && node == old(node) && tree == old(tree) && parent == old(parent)
      ensures IsHeap(t, NIL) && Nodes(t) == U && Root(t) == top
      ensures Kept(old(left), old(right), old(parent), old(npl), left, right, parent, npl, U)
    {
      ghost var L0, R0, P0, N0 := left, right, parent, npl;
      var x := x0;
      ghost var path, cur := path0, cur0;
      while parent[x] != NIL
        invariant key == old(key) && node == old(node) && tree == old(tree) && parent == old(parent)
        invariant DelClimbing(x, path, cur, U, top, L0, R0, P0, N0)
        decreases path
      {
        x, path, cur := DelClimbStep(x, path, cur, U, top, L0, R0, P0, N0);
      }
      FixedLinks(left, right, parent, npl, key, path, cur, NIL, U, top);
      t := cur;
    }

    /**
     * Lines 152-166 of lh_del(item) for an item with a parent: the item is
     * cut off and the ancestors are fixed up to the root, leaving the heap t
     * of the path's nodes; tn, outside it, is left as it was.
     */
    method DelCutClimb(item: int, ghost p: Path, ghost tn: Tree) returns (ghost t: Tree)
      requires Arena() && 0 <= item < |left| && DelReady(left, right, parent, npl, key, p, item, node)
      requires IsHeap(tn, NIL) && Nodes(tn) !! PathNodes(p) + {item} && parent[item] != NIL
      modifies this
      ensures Arena() && key == old(key) && node == old(node) && tree == old(tree)
      ensures IsHeap(t, NIL) && Nodes(t) == PathNodes(p) && Root(t) == node && IsHeap(tn, NIL)
      ensures parent[item] == NIL && left[item] == old(left[item]) && right[item] == old(right[item])
      ensures item !in Nodes(t)
      ensures Kept(old(left), old(right), old(parent), old(npl), left, right, parent, npl, PathNodes(p) + {item})
    {
      ghost var L1, R1, P1, N1 := left, right, parent, npl;
      var par := parent[item];
      ghost var c := DelCut(item, par, p, node);
      ghost var L2, R2, P2, N2 := left, right, parent, npl;
      t := DelClimb(par, p.above, c, PathNodes(p), node);
      KeptTrans(L1, R1, P1, N1, L2, R2, P2, N2, left, right, parent, npl, PathNodes(p) + {item}, PathNodes(p));
      KeptWithin(L1, R1, P1, N1, left, right, parent, npl, PathNodes(p) + {item} + PathNodes(p), PathNodes(p) + {item});
      HeapKept(L1, R1, P1, N1, key, left, right, parent, npl, tn, NIL, PathNodes(p) + {item});
    }

    /** Lines 152-167 of lh_del(item) for an item with a parent: then tn is merged back in. */
    method DelUpper(item: int, n: int, ghost p: Path, ghost tn: Tree)
      requires Arena() && 0 <= item < |left| && DelReady(left, right, parent, npl, key, p, item, node)
      requires IsHeap(tn, NIL) && n == Root(tn) && Nodes(tn) !! PathNodes(p) + {item} && parent[item] != NIL
      modifies this
      ensures Valid() && key == old(key)
      ensures Nodes(tree) == PathNodes(p) + Nodes(tn)
      ensures parent[item] == NIL && left[item] == old(left[item]) && right[item] == old(right[item])
      ensures Kept(old(left), old(right), old(parent), old(npl), left, right, parent, npl, PathNodes(p) + {item} + Nodes(tn))
    {
      ghost var L1, R1, P1, N1 := left, right, parent, npl;
      ghost var S := PathNodes(p) + {item} + Nodes(tn);
      ghost var t := DelCutClimb(item, p, tn);
      ghost var L3, R3, P3, N3 := left, right, parent, npl;
      var m, t2 := Merge(node, n, t, tn, NIL);
      node, tree := m, t2;
      assert QSet(NIL) == {};
      KeptAt(L3, R3, P3, N3, left, right, parent, npl, Nodes(t) + Nodes(tn) + QSet(NIL), item);
      KeptWithin(L1, R1, P1, N1, L3, R3, P3, N3, PathNodes(p) + {item}, S);
      KeptWithin(L3, R3, P3, N3, left, right, parent, npl, Nodes(t) + Nodes(tn) + QSet(NIL), S);
      KeptChain(L1, R1, P1, N1, L3, R3, P3, N3, left, right, parent, npl, S);
    }

    /**
     * lh_del(heap, item): item leaves the heap with its three links NULL;
     * every other node stays in the heap, which is a leftist heap again.
     */
    method Del(item: int)
      requires Valid() && 0 <= item < |left| && item in Nodes(tree)
      modifies this
      ensures Valid() && key == old(key)
      ensures Nodes(tree) == old(Nodes(tree)) - {item}
      ensures left[item] == NIL && right[item] == NIL && parent[item] == NIL
      ensures Kept(old(left), old(right), old(parent), old(npl), left, right, parent, npl, old(Nodes(tree)))
    {
      ghost var L0, R0, P0, N0 := left, right, parent, npl;
      ghost var T := tree;
      ghost var p, s := Find(tree, item).0, Find(tree, item).1;
      DelStart(left, right, parent, npl, key, p, s);
      var n, tn := DelChildren(item, s, HoleParent(p, NIL));
      DelReadyHolds(L0, R0, P0, N0, key, left, right, parent, npl, p, s);
      ghost var L1, R1, P1, N1 := left, right, parent, npl;
      KeptWithin(L0, R0, P0, N0, L1, R1, P1, N1, Nodes(s), Nodes(T));
      if parent[item] != NIL {
        DelUpper(item, n, p, tn);
        KeptWithin(L1, R1, P1, N1, left, right, parent, npl, PathNodes(p) + {item} + Nodes(tn), Nodes(T));
      } else {
        PlugShapedPart(L1, R1, P1, p, Node(Leaf, item, Leaf), NIL);
        HeapOffParent(left, right, parent, npl, key, tn, NIL, item, NIL);
        parent := parent[item := NIL];
        node, tree := n, tn;
        KeptWithin(L1, R1, P1, N1, left, right, parent, npl, {item}, Nodes(T));
      }
      KeptChain(L0, R0, P0, N0, L1, R1, P1, N1, left, right, parent, npl, Nodes(T));
    }
  }
}
