/**
 * Linked binary trees as the C code keeps them: every node has a left, a
 * right and a parent link, stored here as three sequences indexed by node
 * (NIL stands for NULL). A Tree value says which shape the links describe;
 * Shaped ties the links to it. A Path is the list of ancestors above a
 * subtree, each with the subtree on its other side, so that the links can be
 * changed below a node while everything above it stays as it was.
 */
module Arena {
  const NIL: int := -1

  datatype Tree = Leaf | Node(l: Tree, id: nat, r: Tree)

  /** The link to the top of t. */
  function Root(t: Tree): int
  {
    if t.Leaf? then NIL else t.id
  }

  function Nodes(t: Tree): set<nat>
  {
    if t.Leaf? then {} else Nodes(t.l) + {t.id} + Nodes(t.r)
  }

  function Size(t: Tree): nat
  {
    if t.Leaf? then 0 else Size(t.l) + 1 + Size(t.r)
  }

  /** The nodes of t in symmetric order. */
  function Inorder(t: Tree): seq<nat>
  {
    if t.Leaf? then [] else Inorder(t.l) + [t.id] + Inorder(t.r)
  }

  /** No node appears twice. */
  ghost predicate Distinct(t: Tree)
  {
    t.Node? ==>
      Distinct(t.l) && Distinct(t.r) && Nodes(t.l) !! Nodes(t.r) &&
      t.id !in Nodes(t.l) && t.id !in Nodes(t.r)
  }

  /** The parent link of the top of t is par. */
  ghost predicate ParentIs(P: seq<int>, t: Tree, par: int)
  {
    t.Node? ==> t.id < |P| && P[t.id] == par
  }

  /** Below its top, the links of t's nodes describe t. */
  ghost predicate Links(L: seq<int>, R: seq<int>, P: seq<int>, t: Tree)
  {
    t.Node? ==>
      t.id < |L| && t.id < |R| && t.id < |P| &&
      L[t.id] == Root(t.l) && R[t.id] == Root(t.r) &&
      ParentIs(P, t.l, t.id) && ParentIs(P, t.r, t.id) &&
      Links(L, R, P, t.l) && Links(L, R, P, t.r)
  }

  /** The links describe t, and t hangs below par. */
  ghost predicate Shaped(L: seq<int>, R: seq<int>, P: seq<int>, t: Tree, par: int)
  {
    Distinct(t) && Links(L, R, P, t) && ParentIs(P, t, par)
  }

  lemma {:induction false} InLinks(L: seq<int>, R: seq<int>, P: seq<int>, t: Tree, x: nat)
    requires Links(L, R, P, t) && x in Nodes(t)
    ensures x < |L| && x < |R| && x < |P|
  {
    if x != t.id {
      if x in Nodes(t.l) {
        InLinks(L, R, P, t.l, x);
      } else {
        InLinks(L, R, P, t.r, x);
      }
    }
  }

  /** The links A and B agree on the nodes of S. */
  ghost predicate Same(A: seq<int>, B: seq<int>, S: set<nat>)
  {
    forall x :: x in S ==> x < |A| && x < |B| && B[x] == A[x]
  }

  /** A sequence updated at x agrees with the old one off x. */
  lemma {:induction false} SameUpdate(A: seq<int>, x: nat, v: int, S: set<nat>)
    requires x < |A| && x !in S && forall y :: y in S ==> y < |A|
    ensures Same(A, A[x := v], S)
  {
  }

  /** Every node of a linked tree has its three links. */
  lemma {:induction false} NodesBelow(L: seq<int>, R: seq<int>, P: seq<int>, t: Tree)
    requires Links(L, R, P, t)
    ensures forall y :: y in Nodes(t) ==> y < |L| && y < |R| && y < |P|
  {
    forall y | y in Nodes(t)
      ensures y < |L| && y < |R| && y < |P|
    {
      InLinks(L, R, P, t, y);
    }
  }

  /** The nodes strictly below the top of t. */
  function Below(t: Tree): set<nat>
  {
    if t.Leaf? then {} else Nodes(t.l) + Nodes(t.r)
  }

  /**
   * Links of t look only at t's nodes: links that agree there (the parent
   * link of the top aside) describe t as well.
   */
  lemma {:induction false} LinksFrame(L: seq<int>, R: seq<int>, P: seq<int>, L2: seq<int>, R2: seq<int>, P2: seq<int>, t: Tree)
    requires Links(L, R, P, t) && Distinct(t)
    requires Same(L, L2, Nodes(t)) && Same(R, R2, Nodes(t)) && Same(P, P2, Below(t)) && |P2| == |P|
    ensures Links(L2, R2, P2, t)
  {
    if t.Node? {
      LinksFrame(L, R, P, L2, R2, P2, t.l);
      LinksFrame(L, R, P, L2, R2, P2, t.r);
    }
  }

  /** The same with the links agreeing on a set of nodes that holds t's. */
  lemma {:induction false} ShapedFrame(L: seq<int>, R: seq<int>, P: seq<int>, L2: seq<int>, R2: seq<int>, P2: seq<int>, t: Tree, par: int, S: set<nat>)
    requires Shaped(L, R, P, t, par) && Nodes(t) <= S
    requires Same(L, L2, S) && Same(R, R2, S) && Same(P, P2, S) && |P2| == |P|
    ensures Shaped(L2, R2, P2, t, par)
  {
    LinksFrame(L, R, P, L2, R2, P2, t);
  }

  // ---------------------------------------------------------------------------
  // Paths

  /**
   * The ancestors above a subtree, nearest first: each with the side the path
   * goes down and the subtree on the other side.
   */
  datatype Path = Top | Up(holeLeft: bool, id: nat, other: Tree, above: Path)

  /** The nearest ancestor of p with t in the place the path goes down. */
  function Attach(p: Path, t: Tree): Tree
    requires p.Up?
  {
    if p.holeLeft then Node(t, p.id, p.other) else Node(p.other, p.id, t)
  }

  /** The whole tree: t with the ancestors of p above it. */
  function Plug(p: Path, t: Tree): Tree
  {
    if p.Top? then t else Plug(p.above, Attach(p, t))
  }

  /** The nodes of the ancestors and of the subtrees beside the path. */
  function PathNodes(p: Path): set<nat>
  {
    if p.Top? then {} else {p.id} + Nodes(p.other) + PathNodes(p.above)
  }

  /** The parent of the subtree the path leads to; top when the path is empty. */
  function HoleParent(p: Path, top: int): int
  {
    if p.Top? then top else p.id
  }

  lemma {:induction false} PlugNodes(p: Path, t: Tree)
    ensures Nodes(Plug(p, t)) == PathNodes(p) + Nodes(t)
  {
    if p.Up? {
      PlugNodes(p.above, Attach(p, t));
    }
  }

  lemma {:induction false} PlugSize(p: Path, t: Tree, t2: Tree)
    requires Size(t2) == Size(t)
    ensures Size(Plug(p, t2)) == Size(Plug(p, t))
  {
    if p.Up? {
      PlugSize(p.above, Attach(p, t), Attach(p, t2));
    }
  }

  /** Plugging subtrees with the same top gives trees with the same top. */
  lemma {:induction false} PlugRoot(p: Path, t: Tree, t2: Tree)
    requires Root(t) == Root(t2)
    ensures Root(Plug(p, t)) == Root(Plug(p, t2))
  {
    if p.Up? {
      PlugRoot(p.above, Attach(p, t), Attach(p, t2));
    }
  }

  /** No node repeats along a path and in the subtrees beside it. */
  ghost predicate PathDistinct(p: Path)
  {
    p.Up? ==>
      Distinct(p.other) && p.id !in Nodes(p.other) && p.id !in PathNodes(p.above) &&
      Nodes(p.other) !! PathNodes(p.above) && PathDistinct(p.above)
  }

  /** A node without repeats, on whichever side of it the hole is. */
  lemma {:induction false} AttachParts(p: Path, t: Tree)
    requires p.Up? && Distinct(Attach(p, t))
    ensures Distinct(t) && Distinct(p.other) && p.id !in Nodes(t) && p.id !in Nodes(p.other)
    ensures Nodes(t) !! Nodes(p.other) && Nodes(Attach(p, t)) == Nodes(t) + {p.id} + Nodes(p.other)
  {
  }

  /** A set apart from the nodes of a path is apart from each of its parts. */
  lemma {:induction false} PathApart(A: set<nat>, p: Path)
    requires p.Up? && A !! PathNodes(p)
    ensures p.id !in A && A !! Nodes(p.other) && A !! PathNodes(p.above)
  {
  }

  /** A node off a path is none of its parts. */
  lemma {:induction false} PathOut(x: nat, p: Path)
    requires p.Up? && x !in PathNodes(p)
    ensures x != p.id && x !in Nodes(p.other) && x !in PathNodes(p.above)
  {
  }

  /** A tree without repeated nodes has none in the subtree, and none shared with the path. */
  lemma {:induction false} PlugDistinct(p: Path, t: Tree)
    requires Distinct(Plug(p, t))
    ensures Distinct(t) && PathNodes(p) !! Nodes(t) && PathDistinct(p)
  {
    if p.Up? {
      PlugDistinct(p.above, Attach(p, t));
      AttachParts(p, t);
      assert PathNodes(p.above) !! Nodes(t) && PathNodes(p.above) !! Nodes(p.other);
      assert p.id !in PathNodes(p.above);
    }
  }

  /** The subtree the path leads to is shaped, below the path's nearest node. */
  lemma {:induction false} PlugShapedPart(L: seq<int>, R: seq<int>, P: seq<int>, p: Path, t: Tree, top: int)
    requires Shaped(L, R, P, Plug(p, t), top)
    ensures Shaped(L, R, P, t, HoleParent(p, top))
  {
    if p.Up? {
      PlugShapedPart(L, R, P, p.above, Attach(p, t), top);
    }
  }

  /**
   * Replacing the subtree by one with the same top: when the links of the
   * path's nodes are as they were and the new subtree is shaped in place,
   * the whole tree is shaped.
   */
  lemma {:induction false} PlugReplace(L: seq<int>, R: seq<int>, P: seq<int>, L2: seq<int>, R2: seq<int>, P2: seq<int>,
                                       p: Path, t: Tree, t2: Tree, top: int)
    requires Shaped(L, R, P, Plug(p, t), top)
    requires Root(t2) == Root(t) && Shaped(L2, R2, P2, t2, HoleParent(p, top))
    requires PathNodes(p) !! Nodes(t2)
    requires Same(L, L2, PathNodes(p)) && Same(R, R2, PathNodes(p)) && Same(P, P2, PathNodes(p)) && |P2| == |P|
    ensures Shaped(L2, R2, P2, Plug(p, t2), top)
  {
    if p.Up? {
      var par := HoleParent(p.above, top);
      PlugShapedPart(L, R, P, p.above, Attach(p, t), top);
      PlugDistinct(p, t);
      assert PathDistinct(p);
      PathApart(Nodes(t2), p);
      SameSplit(L, L2, p);
      SameSplit(R, R2, p);
      SameSplit(P, P2, p);
      AttachShaped(L, R, P, L2, R2, P2, p, t, t2, par);
      AttachNodes(p, t2);
      PlugReplace(L, R, P, L2, R2, P2, p.above, Attach(p, t), Attach(p, t2), top);
    }
  }

  /** Links that agree on a path's nodes agree on each of its parts. */
  lemma {:induction false} SameSplit(A: seq<int>, B: seq<int>, p: Path)
    requires p.Up? && Same(A, B, PathNodes(p))
    ensures Same(A, B, Nodes(p.other)) && Same(A, B, PathNodes(p.above))
    ensures p.id < |A| && p.id < |B| && B[p.id] == A[p.id]
  {
  }

  /** The nodes of the path's nearest ancestor with t in the hole. */
  lemma {:induction false} AttachNodes(p: Path, t: Tree)
    requires p.Up?
    ensures Nodes(Attach(p, t)) == Nodes(t) + {p.id} + Nodes(p.other)
  {
  }

  /**
   * The nearest ancestor of a path, shaped with t in its hole, is shaped with
   * t2 in the hole when t2 is shaped below it, the subtree beside the hole
   * keeps its links, and the ancestor's own links lead to t2 and its parent.
   */
  lemma {:induction false} AttachShaped(L: seq<int>, R: seq<int>, P: seq<int>, L2: seq<int>, R2: seq<int>, P2: seq<int>,
                     p: Path, t: Tree, t2: Tree, par: int)
    requires p.Up? && Shaped(L, R, P, Attach(p, t), par)
    requires Shaped(L2, R2, P2, t2, p.id) && p.id !in Nodes(t2) && Nodes(p.other) !! Nodes(t2)
    requires Same(L, L2, Nodes(p.other)) && Same(R, R2, Nodes(p.other)) && Same(P, P2, Nodes(p.other)) && |P2| == |P|
    requires p.id < |L2| && p.id < |R2| && p.id < |P2| && P2[p.id] == par
    requires L2[p.id] == (if p.holeLeft then Root(t2) else Root(p.other))
    requires R2[p.id] == (if p.holeLeft then Root(p.other) else Root(t2))
    ensures Shaped(L2, R2, P2, Attach(p, t2), par)
  {
    AttachParts(p, t);
    assert Below(p.other) <= Nodes(p.other);
    LinksFrame(L, R, P, L2, R2, P2, p.other);
    assert ParentIs(P2, p.other, p.id);
  }

  /** p with one more ancestor above its outermost one. */
  function Extend(p: Path, holeLeft: bool, id: nat, other: Tree): Path
  {
    if p.Top? then Up(holeLeft, id, other, Top) else Up(p.holeLeft, p.id, p.other, Extend(p.above, holeLeft, id, other))
  }

  lemma {:induction false} PlugExtend(p: Path, holeLeft: bool, id: nat, other: Tree, t: Tree)
    ensures Plug(Extend(p, holeLeft, id, other), t) ==
            if holeLeft then Node(Plug(p, t), id, other) else Node(other, id, Plug(p, t))
  {
    if p.Up? {
      PlugExtend(p.above, holeLeft, id, other, Attach(p, t));
    }
  }

  /** The path from the top of t down to its node x, and the subtree x heads. */
  ghost function Find(t: Tree, x: nat): (r: (Path, Tree))
    requires x in Nodes(t)
    ensures Plug(r.0, r.1) == t && r.1.Node? && r.1.id == x
  {
    if t.id == x then (Top, t)
    else if x in Nodes(t.l) then
      var (p, s) := Find(t.l, x);
      PlugExtend(p, true, t.id, t.r, s);
      (Extend(p, true, t.id, t.r), s)
    else
      var (p, s) := Find(t.r, x);
      PlugExtend(p, false, t.id, t.l, s);
      (Extend(p, false, t.id, t.l), s)
  }

  /** The number of ancestors on p. */
  function Depth(p: Path): nat
  {
    if p.Top? then 0 else 1 + Depth(p.above)
  }

  /** The nodes that come before the subtree p leads to, in symmetric order. */
  function Before(p: Path): seq<nat>
  {
    if p.Top? then []
    else if p.holeLeft then Before(p.above)
    else Before(p.above) + Inorder(p.other) + [p.id]
  }

  /** The nodes that come after the subtree p leads to, in symmetric order. */
  function After(p: Path): seq<nat>
  {
    if p.Top? then []
    else if p.holeLeft then [p.id] + Inorder(p.other) + After(p.above)
    else After(p.above)
  }

  /** The symmetric order of a whole tree splits around the subtree a path leads to. */
  lemma {:induction false} PlugInorder(p: Path, t: Tree)
    ensures Inorder(Plug(p, t)) == Before(p) + Inorder(t) + After(p)
  {
    if p.Up? {
      PlugInorder(p.above, Attach(p, t));
    }
  }

  /** The symmetric order lists exactly the nodes of the tree. */
  lemma {:induction false} InorderNodes(t: Tree)
    ensures forall y :: y in Inorder(t) <==> y in Nodes(t)
  {
    if t.Node? {
      InorderNodes(t.l);
      InorderNodes(t.r);
    }
  }

  /** The nodes around a path are the path's nodes. */
  lemma {:induction false} AroundNodes(p: Path)
    ensures forall y :: y in Before(p) || y in After(p) ==> y in PathNodes(p)
  {
    if p.Up? {
      AroundNodes(p.above);
      InorderNodes(p.other);
    }
  }

  /**
   * Replacing the subtree a path leads to by one with another top: the
   * nearest ancestor's link on the path's side now leads to the new top,
   * every other link of the path's nodes is as it was.
   */
  lemma {:induction false} PlugRelink(L: seq<int>, R: seq<int>, P: seq<int>, L2: seq<int>, R2: seq<int>, P2: seq<int>,
                                      p: Path, t: Tree, t2: Tree, top: int)
    requires Shaped(L, R, P, Plug(p, t), top)
    requires Shaped(L2, R2, P2, t2, HoleParent(p, top)) && PathNodes(p) !! Nodes(t2) && |P2| == |P|
    requires p.Up? ==>
      Same(L, L2, Nodes(p.other) + PathNodes(p.above)) && Same(R, R2, Nodes(p.other) + PathNodes(p.above)) &&
      Same(P, P2, Nodes(p.other) + PathNodes(p.above)) &&
      p.id < |L| && p.id < |R| && p.id < |P| && p.id < |L2| && p.id < |R2| &&
      L2[p.id] == (if p.holeLeft then Root(t2) else L[p.id]) &&
      R2[p.id] == (if p.holeLeft then R[p.id] else Root(t2)) && P2[p.id] == P[p.id]
    ensures Shaped(L2, R2, P2, Plug(p, t2), top)
  {
    if p.Up? {
      var par := HoleParent(p.above, top);
      PlugShapedPart(L, R, P, p.above, Attach(p, t), top);
      PlugDistinct(p.above, Attach(p, t));
      PathApart(Nodes(t2), p);
      SameParts(L, L2, Nodes(p.other), PathNodes(p.above));
      SameParts(R, R2, Nodes(p.other), PathNodes(p.above));
      SameParts(P, P2, Nodes(p.other), PathNodes(p.above));
      AttachShaped(L, R, P, L2, R2, P2, p, t, t2, par);
      AttachNodes(p, t2);
      AttachNodes(p, t);
      PlugReplace(L, R, P, L2, R2, P2, p.above, Attach(p, t), Attach(p, t2), top);
    }
  }

  /** Links that agree on a union agree on each part. */
  lemma {:induction false} SameParts(A: seq<int>, B: seq<int>, S: set<nat>, T: set<nat>)
    requires Same(A, B, S + T)
    ensures Same(A, B, S) && Same(A, B, T)
  {
  }

  /** A shaped tree whose top's parent link is set to v hangs below v. */
  lemma {:induction false} Reparent(L: seq<int>, R: seq<int>, P: seq<int>, t: Tree, par: int, v: int)
    requires Shaped(L, R, P, t, par) && t.Node?
    ensures Shaped(L, R, P[t.id := v], t, v)
  {
    NodesBelow(L, R, P, t);
    assert t.id !in Below(t) && Below(t) <= Nodes(t);
    SameUpdate(P, t.id, v, Below(t));
    assert Same(L, L, Nodes(t)) && Same(R, R, Nodes(t));
    LinksFrame(L, R, P, L, R, P[t.id := v], t);
  }

  /** p with q's ancestors above it: the path to a subtree of the subtree q leads to. */
  function Concat(p: Path, q: Path): Path
  {
    if p.Top? then q else Up(p.holeLeft, p.id, p.other, Concat(p.above, q))
  }

  lemma {:induction false} PlugConcat(p: Path, q: Path, t: Tree)
    ensures Plug(Concat(p, q), t) == Plug(q, Plug(p, t))
  {
    if p.Up? {
      PlugConcat(p.above, q, Attach(p, t));
    }
  }

  /** The nodes of a joined path are those of both parts. */
  lemma {:induction false} ConcatNodes(p: Path, q: Path)
    ensures PathNodes(Concat(p, q)) == PathNodes(p) + PathNodes(q)
  {
    if p.Up? {
      ConcatNodes(p.above, q);
    }
  }

  /** A path that goes down to the left at every step, as to the leftmost node of a subtree. */
  ghost predicate AllLeft(p: Path)
  {
    p.Up? ==> p.holeLeft && AllLeft(p.above)
  }

  /** A path that goes down to the right at every step. */
  ghost predicate AllRight(p: Path)
  {
    p.Up? ==> !p.holeLeft && AllRight(p.above)
  }

  /** Nothing comes before the subtree at the end of a path that only goes left. */
  lemma {:induction false} AllLeftBefore(p: Path)
    requires AllLeft(p)
    ensures Before(p) == []
  {
    if p.Up? {
      AllLeftBefore(p.above);
    }
  }

  /** Nothing comes after the subtree at the end of a path that only goes right. */
  lemma {:induction false} AllRightAfter(p: Path)
    requires AllRight(p)
    ensures After(p) == []
  {
    if p.Up? {
      AllRightAfter(p.above);
    }
  }

  // ---------------------------------------------------------------------------
  // Rotations

  /** B is A except at the nodes in X. */
  ghost predicate Keep(A: seq<int>, B: seq<int>, X: set<int>)
  {
    |B| == |A| && forall z: nat :: z < |A| && z !in X ==> B[z] == A[z]
  }

  /** Links kept off X agree on a set of linked nodes that avoids X. */
  lemma {:induction false} KeepSame(A: seq<int>, B: seq<int>, X: set<int>, S: set<nat>)
    requires Keep(A, B, X) && forall z :: z in S ==> z < |A| && z !in X
    ensures Same(A, B, S)
  {
  }

  /** A linked subtree whose links are kept, below its top's parent link, hangs where that link says. */
  lemma {:induction false} Reshaped(L: seq<int>, R: seq<int>, P: seq<int>, L2: seq<int>, R2: seq<int>, P2: seq<int>, t: Tree, par: int)
    requires Links(L, R, P, t) && Distinct(t) && |P2| == |P|
    requires Same(L, L2, Nodes(t)) && Same(R, R2, Nodes(t)) && Same(P, P2, Below(t)) && ParentIs(P2, t, par)
    ensures Shaped(L2, R2, P2, t, par)
  {
    assert Below(t) <= Nodes(t);
    LinksFrame(L, R, P, L2, R2, P2, t);
  }

  /** The children of a linked node are linked below it. */
  lemma {:induction false} LinksParts(L: seq<int>, R: seq<int>, P: seq<int>, t: Tree)
    requires Links(L, R, P, t) && Distinct(t) && t.Node?
    ensures Links(L, R, P, t.l) && Links(L, R, P, t.r) && Distinct(t.l) && Distinct(t.r)
    ensures ParentIs(P, t.l, t.id) && ParentIs(P, t.r, t.id)
  {
  }

  /** Links that agree on the nodes of three subtrees agree on each. */
  lemma {:induction false} Same3(A: seq<int>, B: seq<int>, a: Tree, b: Tree, c: Tree)
    requires Same(A, B, Nodes(a) + Nodes(b) + Nodes(c))
    ensures Same(A, B, Nodes(a)) && Same(A, B, Nodes(b)) && Same(A, B, Nodes(c))
  {
    var S := Nodes(a) + Nodes(b) + Nodes(c);
    SameSub(A, B, S, Nodes(a));
    SameSub(A, B, S, Nodes(b));
    SameSub(A, B, S, Nodes(c));
  }

  /** Links that agree on S agree on any part of S. */
  lemma {:induction false} SameSub(A: seq<int>, B: seq<int>, S: set<nat>, T: set<nat>)
    requires Same(A, B, S) && T <= S
    ensures Same(A, B, T)
  {
  }

  /** Parent links that agree on a + Below(b) + c agree below each top, and at the tops of a and c. */
  lemma {:induction false} SameParents3(P: seq<int>, P2: seq<int>, a: Tree, b: Tree, c: Tree)
    requires Same(P, P2, Nodes(a) + Below(b) + Nodes(c))
    ensures Same(P, P2, Below(a)) && Same(P, P2, Below(b)) && Same(P, P2, Below(c))
    ensures a.Node? ==> a.id < |P| && P2[a.id] == P[a.id]
    ensures c.Node? ==> c.id < |P| && P2[c.id] == P[c.id]
  {
    assert Below(a) <= Nodes(a) && Below(c) <= Nodes(c);
    assert a.Node? ==> a.id in Nodes(a);
    assert c.Node? ==> c.id in Nodes(c);
  }

  /** A rotation keeps the nodes and their distinctness. */
  lemma {:induction false} RotateDistinct(a: Tree, x: nat, b: Tree, y: nat, c: Tree)
    requires Distinct(Node(a, x, Node(b, y, c)))
    ensures Distinct(Node(Node(a, x, b), y, c))
    ensures Nodes(Node(Node(a, x, b), y, c)) == Nodes(Node(a, x, Node(b, y, c)))
  {
  }

  /**
   * The links around a left rotation at x: x is the left child of its old
   * right child y, y's old left subtree b moves below x, and y hangs where x
   * hung.
   */
  lemma {:induction false} RotateLeftLocal(L: seq<int>, R: seq<int>, P: seq<int>, L2: seq<int>, R2: seq<int>, P2: seq<int>,
                        a: Tree, x: nat, b: Tree, y: nat, c: Tree, par: int)
    requires Shaped(L, R, P, Node(a, x, Node(b, y, c)), par) && |P2| == |P|
    requires Same(L, L2, Nodes(a) + Nodes(b) + Nodes(c)) && Same(R, R2, Nodes(a) + Nodes(b) + Nodes(c))
    requires Same(P, P2, Nodes(a) + Below(b) + Nodes(c)) && ParentIs(P2, b, x)
    requires x < |L2| && x < |R2| && x < |P2| && y < |L2| && y < |R2| && y < |P2|
    requires L2[x] == Root(a) && R2[x] == Root(b) && P2[x] == y && L2[y] == x && R2[y] == Root(c) && P2[y] == par
    ensures Shaped(L2, R2, P2, Node(Node(a, x, b), y, c), par)
  {
    LinksParts(L, R, P, Node(a, x, Node(b, y, c)));
    LinksParts(L, R, P, Node(b, y, c));
    Same3(L, L2, a, b, c);
    Same3(R, R2, a, b, c);
    SameParents3(P, P2, a, b, c);
    Reshaped(L, R, P, L2, R2, P2, a, x);
    Reshaped(L, R, P, L2, R2, P2, b, x);
    Reshaped(L, R, P, L2, R2, P2, c, y);
    RotateDistinct(a, x, b, y, c);
  }

  /** The mirror of RotateLeftLocal: x is the right child of its old left child y. */
  lemma {:induction false} RotateRightLocal(L: seq<int>, R: seq<int>, P: seq<int>, L2: seq<int>, R2: seq<int>, P2: seq<int>,
                         a: Tree, y: nat, b: Tree, x: nat, c: Tree, par: int)
    requires Shaped(L, R, P, Node(Node(a, y, b), x, c), par) && |P2| == |P|
    requires Same(L, L2, Nodes(a) + Nodes(b) + Nodes(c)) && Same(R, R2, Nodes(a) + Nodes(b) + Nodes(c))
    requires Same(P, P2, Nodes(a) + Below(b) + Nodes(c)) && ParentIs(P2, b, x)
    requires x < |L2| && x < |R2| && x < |P2| && y < |L2| && y < |R2| && y < |P2|
    requires L2[x] == Root(b) && R2[x] == Root(c) && P2[x] == y && L2[y] == Root(a) && R2[y] == x && P2[y] == par
    ensures Shaped(L2, R2, P2, Node(a, y, Node(b, x, c)), par)
  {
    LinksParts(L, R, P, Node(Node(a, y, b), x, c));
    LinksParts(L, R, P, Node(a, y, b));
    Same3(L, L2, a, b, c);
    Same3(R, R2, a, b, c);
    SameParents3(P, P2, a, b, c);
    Reshaped(L, R, P, L2, R2, P2, a, y);
    Reshaped(L, R, P, L2, R2, P2, b, x);
    Reshaped(L, R, P, L2, R2, P2, c, x);
    RotateDistinct(a, y, b, x, c);
  }

  /** What a rotation at the top of the subtree t needs to know of the tree around it. */
  lemma {:induction false} RotateParts(L: seq<int>, R: seq<int>, P: seq<int>, p: Path, t: Tree)
    requires Shaped(L, R, P, Plug(p, t), NIL)
    ensures Shaped(L, R, P, t, HoleParent(p, NIL)) && PathNodes(p) !! Nodes(t) && PathDistinct(p)
    ensures forall z :: z in Nodes(Plug(p, t)) ==> z < |L| && z < |R| && z < |P|
    ensures Nodes(Plug(p, t)) == PathNodes(p) + Nodes(t)
  {
    PlugShapedPart(L, R, P, p, t, NIL);
    PlugDistinct(p, t);
    NodesBelow(L, R, P, Plug(p, t));
    PlugNodes(p, t);
  }

  /**
   * __rb_rotate_left at x: with the links changed at x, at its right child y,
   * at the top of y's left subtree b and at x's parent as the rotation
   * changes them, and nowhere else, the links describe the rotated tree.
   */
  lemma {:induction false} RotateLeftShaped(L: seq<int>, R: seq<int>, P: seq<int>, L2: seq<int>, R2: seq<int>, P2: seq<int>,
                         p: Path, a: Tree, x: nat, b: Tree, y: nat, c: Tree)
    requires Shaped(L, R, P, Plug(p, Node(a, x, Node(b, y, c))), NIL)
    requires Keep(L, L2, {x, y, HoleParent(p, NIL)}) && Keep(R, R2, {x, y, HoleParent(p, NIL)}) && Keep(P, P2, {x, y, Root(b)})
    requires x < |L2| && x < |R2| && x < |P2| && y < |L2| && y < |R2| && y < |P2|
    requires L2[x] == Root(a) && R2[x] == Root(b) && P2[x] == y && L2[y] == x && R2[y] == Root(c) && P2[y] == HoleParent(p, NIL)
    requires b.Node? ==> b.id < |P2| && P2[b.id] == x
    requires p.Up? ==> (p.id < |L2| && p.id < |R2| &&
      L2[p.id] == (if p.holeLeft then y else L[p.id]) && R2[p.id] == (if p.holeLeft then R[p.id] else y))
    ensures Shaped(L2, R2, P2, Plug(p, Node(Node(a, x, b), y, c)), NIL)
  {
    var t, t2 := Node(a, x, Node(b, y, c)), Node(Node(a, x, b), y, c);
    var par := HoleParent(p, NIL);
    RotateParts(L, R, P, p, t);
    LinksParts(L, R, P, t);
    LinksParts(L, R, P, t.r);
    RotateApart(PathNodes(p), par, a, x, b, y, c);
    RotateBounds(L, R, P, a, b, c);
    TopNotBelow(b);
    Keep3(L, L2, x, y, par, Nodes(a), Nodes(b), Nodes(c));
    Keep3(R, R2, x, y, par, Nodes(a), Nodes(b), Nodes(c));
    Keep3(P, P2, x, y, Root(b), Nodes(a), Below(b), Nodes(c));
    RotateLeftLocal(L, R, P, L2, R2, P2, a, x, b, y, c, par);
    RotateDistinct(a, x, b, y, c);
    RotateRelink(L, R, P, L2, R2, P2, p, t, t2, x, y, Root(b));
  }

  /** The mirror of RotateLeftShaped: __rb_rotate_right at x, whose left child is y. */
  lemma {:induction false} RotateRightShaped(L: seq<int>, R: seq<int>, P: seq<int>, L2: seq<int>, R2: seq<int>, P2: seq<int>,
                          p: Path, a: Tree, y: nat, b: Tree, x: nat, c: Tree)
    requires Shaped(L, R, P, Plug(p, Node(Node(a, y, b), x, c)), NIL)
    requires Keep(L, L2, {x, y, HoleParent(p, NIL)}) && Keep(R, R2, {x, y, HoleParent(p, NIL)}) && Keep(P, P2, {x, y, Root(b)})
    requires x < |L2| && x < |R2| && x < |P2| && y < |L2| && y < |R2| && y < |P2|
    requires L2[x] == Root(b) && R2[x] == Root(c) && P2[x] == y && L2[y] == Root(a) && R2[y] == x && P2[y] == HoleParent(p, NIL)
    requires b.Node? ==> b.id < |P2| && P2[b.id] == x
    requires p.Up? ==> (p.id < |L2| && p.id < |R2| &&
      L2[p.id] == (if p.holeLeft then y else L[p.id]) && R2[p.id] == (if p.holeLeft then R[p.id] else y))
    ensures Shaped(L2, R2, P2, Plug(p, Node(a, y, Node(b, x, c))), NIL)
  {
    var t, t2 := Node(Node(a, y, b), x, c), Node(a, y, Node(b, x, c));
    var par := HoleParent(p, NIL);
    RotateParts(L, R, P, p, t);
    LinksParts(L, R, P, t);
    LinksParts(L, R, P, t.l);
    RotateApartRight(PathNodes(p), par, a, y, b, x, c);
    RotateBounds(L, R, P, a, b, c);
    TopNotBelow(b);
    Keep3(L, L2, x, y, par, Nodes(a), Nodes(b), Nodes(c));
    Keep3(R, R2, x, y, par, Nodes(a), Nodes(b), Nodes(c));
    Keep3(P, P2, x, y, Root(b), Nodes(a), Below(b), Nodes(c));
    RotateRightLocal(L, R, P, L2, R2, P2, a, y, b, x, c, par);
    RotateDistinct(a, y, b, x, c);
    RotateRelink(L, R, P, L2, R2, P2, p, t, t2, x, y, Root(b));
  }

  /** The path above a rotated subtree: its links are kept off the rotation's nodes, save the side link to the new top. */
  lemma {:induction false} RotateRelink(L: seq<int>, R: seq<int>, P: seq<int>, L2: seq<int>, R2: seq<int>, P2: seq<int>,
                     p: Path, t: Tree, t2: Tree, x: nat, y: nat, w: int)
    requires Shaped(L, R, P, Plug(p, t), NIL) && Shaped(L2, R2, P2, t2, HoleParent(p, NIL))
    requires Nodes(t2) == Nodes(t) && PathNodes(p) !! Nodes(t) && PathDistinct(p)
    requires forall z :: z in PathNodes(p) ==> z < |L| && z < |R| && z < |P|
    requires x in Nodes(t) && y in Nodes(t) && (w == NIL || w in Nodes(t))
    requires Keep(L, L2, {x, y, HoleParent(p, NIL)}) && Keep(R, R2, {x, y, HoleParent(p, NIL)}) && Keep(P, P2, {x, y, w})
    requires p.Up? ==> (p.id < |L2| && p.id < |R2| &&
      L2[p.id] == (if p.holeLeft then Root(t2) else L[p.id]) && R2[p.id] == (if p.holeLeft then R[p.id] else Root(t2)))
    ensures Shaped(L2, R2, P2, Plug(p, t2), NIL)
  {
    if p.Up? {
      var S := Nodes(p.other) + PathNodes(p.above);
      assert p.id !in S;
      PathOut(x, p);
      PathOut(y, p);
      assert w != NIL ==> w !in S;
      KeepSame(L, L2, {x, y, p.id}, S);
      KeepSame(R, R2, {x, y, p.id}, S);
      KeepSame(P, P2, {x, y, w}, S);
      assert p.id in PathNodes(p);
    }
    PlugRelink(L, R, P, L2, R2, P2, p, t, t2, NIL);
  }

  /** Links kept off three nodes agree on three sets of linked nodes that avoid them. */
  lemma {:induction false} Keep3(A: seq<int>, B: seq<int>, x: int, y: int, w: int, S1: set<nat>, S2: set<nat>, S3: set<nat>)
    requires Keep(A, B, {x, y, w})
    requires forall z :: z in S1 ==> z < |A|
    requires forall z :: z in S2 ==> z < |A|
    requires forall z :: z in S3 ==> z < |A|
    requires x !in S1 && x !in S2 && x !in S3 && y !in S1 && y !in S2 && y !in S3
    requires w !in S1 && w !in S2 && w !in S3
    ensures Same(A, B, S1 + S2 + S3)
  {
  }

  /**
   * The nodes of a left rotation's subtree Node(a, x, Node(b, y, c)) are
   * apart from each other and from the parent par above them.
   */
  lemma {:induction false} RotateApart(A: set<nat>, par: int, a: Tree, x: nat, b: Tree, y: nat, c: Tree)
    requires Distinct(Node(a, x, Node(b, y, c)))
    requires A !! Nodes(Node(a, x, Node(b, y, c))) && (par == NIL || par in A)
    ensures x !in Nodes(a) && x !in Nodes(b) && x !in Nodes(c) && y !in Nodes(a) && y !in Nodes(b) && y !in Nodes(c)
    ensures par !in Nodes(a) && par !in Nodes(b) && par !in Nodes(c)
    ensures Root(b) !in Nodes(a) && Root(b) !in Nodes(c)
  {
    var t := Node(a, x, Node(b, y, c));
    NodeApart(A, t);
    NodeApart(A, t.r);
  }

  /** The same for a right rotation's subtree Node(Node(a, y, b), x, c). */
  lemma {:induction false} RotateApartRight(A: set<nat>, par: int, a: Tree, y: nat, b: Tree, x: nat, c: Tree)
    requires Distinct(Node(Node(a, y, b), x, c))
    requires A !! Nodes(Node(Node(a, y, b), x, c)) && (par == NIL || par in A)
    ensures x !in Nodes(a) && x !in Nodes(b) && x !in Nodes(c) && y !in Nodes(a) && y !in Nodes(b) && y !in Nodes(c)
    ensures par !in Nodes(a) && par !in Nodes(b) && par !in Nodes(c)
    ensures Root(b) !in Nodes(a) && Root(b) !in Nodes(c)
  {
    var t := Node(Node(a, y, b), x, c);
    NodeApart(A, t);
    NodeApart(A, t.l);
  }

  /** Every node of three linked subtrees is in range. */
  lemma {:induction false} RotateBounds(L: seq<int>, R: seq<int>, P: seq<int>, a: Tree, b: Tree, c: Tree)
    requires Links(L, R, P, a) && Links(L, R, P, b) && Links(L, R, P, c)
    ensures forall z :: z in Nodes(a) ==> z < |L| && z < |R| && z < |P|
    ensures forall z :: z in Nodes(b) ==> z < |L| && z < |R| && z < |P|
    ensures forall z :: z in Nodes(c) ==> z < |L| && z < |R| && z < |P|
  {
    NodesBelow(L, R, P, a);
    NodesBelow(L, R, P, b);
    NodesBelow(L, R, P, c);
  }

  /** The nodes below the top of a subtree are its nodes, and the top is not among them. */
  lemma {:induction false} TopNotBelow(t: Tree)
    requires Distinct(t)
    ensures Below(t) <= Nodes(t) && Root(t) !in Below(t)
  {
    if t.Node? {
      assert t.id !in Below(t);
    }
  }

  /** A set apart from a subtree is apart from its top and from both its children. */
  lemma {:induction false} NodeApart(A: set<nat>, t: Tree)
    requires t.Node? && Distinct(t) && A !! Nodes(t)
    ensures t.id !in A && A !! Nodes(t.l) && A !! Nodes(t.r) && Distinct(t.l) && Distinct(t.r)
    ensures Nodes(t.l) !! Nodes(t.r) && t.id !in Nodes(t.l) && t.id !in Nodes(t.r)
  {
  }

  // ---------------------------------------------------------------------------
  // Relinking the subtree below the path in place

  /** The nearest ancestor's id, when there is one. */
  function HoleSet(p: Path): set<nat>
  {
    if p.Top? then {} else {p.id}
  }

  /** The top of t, when there is one. */
  function RootSet(t: Tree): set<nat>
  {
    if t.Leaf? then {} else {t.id}
  }

  /**
   * The links of the nearest ancestor of the subtree t: the one on the path's
   * side leads to t, the other to the subtree beside it, and the parent link
   * to the next ancestor up.
   */
  lemma {:induction false} HoleLinks(L: seq<int>, R: seq<int>, P: seq<int>, p: Path, t: Tree, top: int)
    requires Shaped(L, R, P, Plug(p, t), top) && p.Up?
    ensures p.id < |L| && p.id < |R| && p.id < |P| && P[p.id] == HoleParent(p.above, top)
    ensures L[p.id] == (if p.holeLeft then Root(t) else Root(p.other))
    ensures R[p.id] == (if p.holeLeft then Root(p.other) else Root(t))
    ensures (t.Node? || p.other.Node?) ==> Root(t) != Root(p.other)
    ensures Links(L, R, P, p.other) && ParentIs(P, p.other, p.id) && Distinct(p.other)
  {
    PlugShapedPart(L, R, P, p.above, Attach(p, t), top);
    AttachParts(p, t);
    if t.Node? {
      assert t.id in Nodes(t);
    }
    if p.other.Node? {
      assert p.other.id in Nodes(p.other);
    }
  }

  /** The links of the top of a subtree the path leads to. */
  lemma {:induction false} TopLinks(L: seq<int>, R: seq<int>, P: seq<int>, p: Path, t: Tree, top: int)
    requires Shaped(L, R, P, Plug(p, t), top) && t.Node?
    ensures t.id < |L| && t.id < |R| && t.id < |P|
    ensures L[t.id] == Root(t.l) && R[t.id] == Root(t.r) && P[t.id] == HoleParent(p, top)
    ensures Links(L, R, P, t.l) && Links(L, R, P, t.r) && ParentIs(P, t.l, t.id) && ParentIs(P, t.r, t.id)
  {
    PlugShapedPart(L, R, P, p, t, top);
  }

  /** A node of a tree hung below NIL is not its own parent: RB_EMPTY_NODE is false for it. */
  lemma {:induction false} ParentNotSelf(L: seq<int>, R: seq<int>, P: seq<int>, t: Tree, x: nat)
    requires Shaped(L, R, P, t, NIL) && x in Nodes(t)
    ensures x < |P| && P[x] != x
  {
    var (p, s) := Find(t, x);
    PlugShapedPart(L, R, P, p, s, NIL);
    PlugDistinct(p, s);
    assert x in Nodes(s);
    if p.Up? {
      assert p.id in PathNodes(p);
    }
  }

  /**
   * Putting t2 in the place of t below the path p: the links change only at
   * the nodes XL (left and right links) and XP (parent links), which are off
   * the path, and at the nearest ancestor's link on the path's side.
   */
  lemma {:induction false} Relink(L: seq<int>, R: seq<int>, P: seq<int>, L2: seq<int>, R2: seq<int>, P2: seq<int>,
               p: Path, t: Tree, t2: Tree, XL: set<nat>, XP: set<nat>)
    requires Shaped(L, R, P, Plug(p, t), NIL) && Shaped(L2, R2, P2, t2, HoleParent(p, NIL))
    requires PathNodes(p) !! Nodes(t2) && PathNodes(p) !! XL && PathNodes(p) !! XP
    requires Keep(L, L2, XL + HoleSet(p)) && Keep(R, R2, XL + HoleSet(p)) && Keep(P, P2, XP)
    requires p.Up? ==> (p.id < |L| && p.id < |R| &&
      L2[p.id] == (if p.holeLeft then Root(t2) else L[p.id]) && R2[p.id] == (if p.holeLeft then R[p.id] else Root(t2)))
    ensures Shaped(L2, R2, P2, Plug(p, t2), NIL)
  {
    if p.Up? {
      var S := Nodes(p.other) + PathNodes(p.above);
      RelinkParts(L, R, P, p, t);
      KeepSame(L, L2, XL + HoleSet(p), S);
      KeepSame(R, R2, XL + HoleSet(p), S);
      KeepSame(P, P2, XP, S);
      assert p.id in PathNodes(p);
    }
    PlugRelink(L, R, P, L2, R2, P2, p, t, t2, NIL);
  }

  /** The nodes beside and above a path's nearest ancestor are linked and are not that ancestor. */
  lemma {:induction false} RelinkParts(L: seq<int>, R: seq<int>, P: seq<int>, p: Path, t: Tree)
    requires Shaped(L, R, P, Plug(p, t), NIL) && p.Up?
    ensures forall z :: z in Nodes(p.other) + PathNodes(p.above) ==> z < |L| && z < |R| && z < |P| && z != p.id
    ensures Nodes(p.other) + PathNodes(p.above) <= PathNodes(p) && p.id < |P|
  {
    NodesBelow(L, R, P, Plug(p, t));
    PlugNodes(p, t);
    PlugDistinct(p, t);
    assert PathDistinct(p);
  }

  /** rb_link_node: a new node with no children hung where the path ends in a leaf. */
  lemma {:induction false} LinkLeafShaped(L: seq<int>, R: seq<int>, P: seq<int>, L2: seq<int>, R2: seq<int>, P2: seq<int>, p: Path, x: nat)
    requires Shaped(L, R, P, Plug(p, Leaf), NIL) && x !in Nodes(Plug(p, Leaf))
    requires Keep(L, L2, {x} + HoleSet(p)) && Keep(R, R2, {x} + HoleSet(p)) && Keep(P, P2, {x})
    requires x < |L2| && x < |R2| && x < |P2| && L2[x] == NIL && R2[x] == NIL && P2[x] == HoleParent(p, NIL)
    requires p.Up? ==> (p.id < |L| && p.id < |R| &&
      L2[p.id] == (if p.holeLeft then x else L[p.id]) && R2[p.id] == (if p.holeLeft then R[p.id] else x))
    ensures Shaped(L2, R2, P2, Plug(p, Node(Leaf, x, Leaf)), NIL)
  {
    PlugNodes(p, Leaf);
    Relink(L, R, P, L2, R2, P2, p, Leaf, Node(Leaf, x, Leaf), {x}, {x});
  }

  /**
   * Splicing out the nearest ancestor of c: c takes its place below the next
   * ancestor up, as rb_erase does with a node that has at most one child.
   */
  lemma {:induction false} SpliceShaped(L: seq<int>, R: seq<int>, P: seq<int>, L2: seq<int>, R2: seq<int>, P2: seq<int>, q: Path, c: Tree)
    requires Shaped(L, R, P, Plug(q, c), NIL) && q.Up?
    requires Keep(L, L2, HoleSet(q.above)) && Keep(R, R2, HoleSet(q.above)) && Keep(P, P2, RootSet(c))
    requires c.Node? ==> (c.id < |P2| && P2[c.id] == HoleParent(q.above, NIL))
    requires q.above.Up? ==> (q.above.id < |L| && q.above.id < |R| &&
      L2[q.above.id] == (if q.above.holeLeft then Root(c) else L[q.above.id]) &&
      R2[q.above.id] == (if q.above.holeLeft then R[q.above.id] else Root(c)))
    ensures Shaped(L2, R2, P2, Plug(q.above, c), NIL)
  {
    var p := q.above;
    SpliceParts(L, R, P, q, c);
    KeepSame(L, L2, HoleSet(p), Nodes(c));
    KeepSame(R, R2, HoleSet(p), Nodes(c));
    KeepSame(P, P2, RootSet(c), Below(c));
    Reshaped(L, R, P, L2, R2, P2, c, HoleParent(p, NIL));
    assert {} + HoleSet(p) == HoleSet(p);
    Relink(L, R, P, L2, R2, P2, p, Attach(q, c), c, {}, RootSet(c));
  }

  /** What splicing needs of the spliced subtree: it is linked, and apart from the path above. */
  lemma {:induction false} SpliceParts(L: seq<int>, R: seq<int>, P: seq<int>, q: Path, c: Tree)
    requires Shaped(L, R, P, Plug(q, c), NIL) && q.Up?
    ensures Links(L, R, P, c) && Distinct(c) && PathNodes(q.above) !! Nodes(c) && PathNodes(q.above) !! RootSet(c)
    ensures forall z :: z in Nodes(c) ==> z < |L| && z < |R| && z !in HoleSet(q.above)
    ensures forall z :: z in Below(c) ==> z < |P| && z !in RootSet(c)
  {
    PlugShapedPart(L, R, P, q, c, NIL);
    PlugDistinct(q, c);
    NodesBelow(L, R, P, c);
    TopNotBelow(c);
    if q.above.Up? {
      assert q.above.id in PathNodes(q.above);
    }
  }

  /**
   * Putting y in the place of x, as rb_replace_node does and rb_erase does
   * with a node's successor: y takes over x's children and x's parent.
   */
  lemma {:induction false} SubstituteShaped(L: seq<int>, R: seq<int>, P: seq<int>, L2: seq<int>, R2: seq<int>, P2: seq<int>,
                         p: Path, a: Tree, x: nat, b: Tree, y: nat)
    requires Shaped(L, R, P, Plug(p, Node(a, x, b)), NIL) && y !in Nodes(Plug(p, Node(a, x, b)))
    requires Keep(L, L2, {y} + HoleSet(p)) && Keep(R, R2, {y} + HoleSet(p)) && Keep(P, P2, {y} + RootSet(a) + RootSet(b))
    requires y < |L2| && y < |R2| && y < |P2| && L2[y] == Root(a) && R2[y] == Root(b) && P2[y] == HoleParent(p, NIL)
    requires a.Node? ==> (a.id < |P2| && P2[a.id] == y)
    requires b.Node? ==> (b.id < |P2| && P2[b.id] == y)
    requires p.Up? ==> (p.id < |L| && p.id < |R| &&
      L2[p.id] == (if p.holeLeft then y else L[p.id]) && R2[p.id] == (if p.holeLeft then R[p.id] else y))
    ensures Shaped(L2, R2, P2, Plug(p, Node(a, y, b)), NIL)
  {
    var XP := {y} + RootSet(a) + RootSet(b);
    PlugShapedPart(L, R, P, p, Node(a, x, b), NIL);
    SubstituteParts(L, R, P, Node(a, x, b));
    SubstituteApart(p, a, x, b, y);
    SubstituteLocal(L, R, P, L2, R2, P2, a, y, b, HoleParent(p, NIL), {y} + HoleSet(p), XP);
    Relink(L, R, P, L2, R2, P2, p, Node(a, x, b), Node(a, y, b), {y}, XP);
  }

  /** The node y with the subtrees a and b, whose links are kept, is shaped below par. */
  lemma {:induction false} SubstituteLocal(L: seq<int>, R: seq<int>, P: seq<int>, L2: seq<int>, R2: seq<int>, P2: seq<int>,
                        a: Tree, y: nat, b: Tree, par: int, X: set<int>, XP: set<int>)
    requires Links(L, R, P, a) && Distinct(a) && Links(L, R, P, b) && Distinct(b) && Distinct(Node(a, y, b))
    requires forall z :: z in Nodes(a) + Nodes(b) ==> z < |L| && z < |R| && z !in X
    requires forall z :: z in Below(a) + Below(b) ==> z < |P| && z !in XP
    requires Keep(L, L2, X) && Keep(R, R2, X) && Keep(P, P2, XP)
    requires y < |L2| && y < |R2| && y < |P2| && L2[y] == Root(a) && R2[y] == Root(b) && P2[y] == par
    requires a.Node? ==> (a.id < |P2| && P2[a.id] == y)
    requires b.Node? ==> (b.id < |P2| && P2[b.id] == y)
    ensures Shaped(L2, R2, P2, Node(a, y, b), par)
  {
    KeepSame(L, L2, X, Nodes(a));
    KeepSame(R, R2, X, Nodes(a));
    KeepSame(P, P2, XP, Below(a));
    KeepSame(L, L2, X, Nodes(b));
    KeepSame(R, R2, X, Nodes(b));
    KeepSame(P, P2, XP, Below(b));
    Reshaped(L, R, P, L2, R2, P2, a, y);
    Reshaped(L, R, P, L2, R2, P2, b, y);
  }

  /** What substituting needs of the two subtrees of a node: they are linked, and their nodes have links. */
  lemma {:induction false} SubstituteParts(L: seq<int>, R: seq<int>, P: seq<int>, t: Tree)
    requires Links(L, R, P, t) && Distinct(t) && t.Node?
    ensures Links(L, R, P, t.l) && Distinct(t.l) && Links(L, R, P, t.r) && Distinct(t.r)
    ensures forall z :: z in Nodes(t.l) + Nodes(t.r) ==> z < |L| && z < |R| && z < |P|
    ensures Below(t.l) <= Nodes(t.l) && Below(t.r) <= Nodes(t.r) && Root(t.l) !in Below(t.l) && Root(t.r) !in Below(t.r)
    ensures Nodes(t.l) !! Nodes(t.r)
  {
    LinksParts(L, R, P, t);
    NodesBelow(L, R, P, t.l);
    NodesBelow(L, R, P, t.r);
    TopNotBelow(t.l);
    TopNotBelow(t.r);
  }

  /** y in the place of x repeats no node, and stays apart from the path. */
  lemma {:induction false} SubstituteApart(p: Path, a: Tree, x: nat, b: Tree, y: nat)
    requires Distinct(Plug(p, Node(a, x, b))) && y !in Nodes(Plug(p, Node(a, x, b)))
    ensures Distinct(Node(a, y, b)) && y !in Nodes(a) && y !in Nodes(b)
    ensures p.Up? ==> p.id !in Nodes(a) && p.id !in Nodes(b)
    ensures PathNodes(p) !! Nodes(Node(a, y, b)) && PathNodes(p) !! {y} && PathNodes(p) !! {y} + RootSet(a) + RootSet(b)
  {
    PlugNodes(p, Node(a, x, b));
    PlugDistinct(p, Node(a, x, b));
    if p.Up? {
      assert p.id in PathNodes(p);
    }
  }

  /** Subtrees with the same nodes in the same order give whole trees with the same nodes in the same order. */
  lemma {:induction false} PlugSame(p: Path, t: Tree, t2: Tree)
    requires Inorder(t2) == Inorder(t) && Nodes(t2) == Nodes(t)
    ensures Inorder(Plug(p, t2)) == Inorder(Plug(p, t)) && Nodes(Plug(p, t2)) == Nodes(Plug(p, t))
  {
    PlugInorder(p, t);
    PlugInorder(p, t2);
    PlugNodes(p, t);
    PlugNodes(p, t2);
  }

  /** The links __rb_rotate_left reads: x's right child y, y's left child, x's parent and its link to x. */
  lemma {:induction false} RotateLeftReads(L: seq<int>, R: seq<int>, P: seq<int>, p: Path, a: Tree, x: nat, b: Tree, y: nat, c: Tree)
    requires Shaped(L, R, P, Plug(p, Node(a, x, Node(b, y, c))), NIL)
    ensures x < |L| && x < |R| && x < |P| && y < |L| && y < |R| && y < |P|
    ensures R[x] == y && L[y] == Root(b) && P[x] == HoleParent(p, NIL) && (b.Node? ==> b.id < |P|)
    ensures x != y && HoleParent(p, NIL) != x && HoleParent(p, NIL) != y && Root(b) != x && Root(b) != y
    ensures p.Up? ==> (p.id < |L| && p.id < |R| && (L[p.id] == x <==> p.holeLeft) && (R[p.id] == x <==> !p.holeLeft))
  {
    var t := Node(a, x, Node(b, y, c));
    TopLinks(L, R, P, p, t, NIL);
    HoleOff(p, t);
    if p.Up? {
      ParentSide(L, R, P, p, t);
    }
  }

  /** The links __rb_rotate_right reads: x's left child y, y's right child, x's parent and its link to x. */
  lemma {:induction false} RotateRightReads(L: seq<int>, R: seq<int>, P: seq<int>, p: Path, a: Tree, y: nat, b: Tree, x: nat, c: Tree)
    requires Shaped(L, R, P, Plug(p, Node(Node(a, y, b), x, c)), NIL)
    ensures x < |L| && x < |R| && x < |P| && y < |L| && y < |R| && y < |P|
    ensures L[x] == y && R[y] == Root(b) && P[x] == HoleParent(p, NIL) && (b.Node? ==> b.id < |P|)
    ensures x != y && HoleParent(p, NIL) != x && HoleParent(p, NIL) != y && Root(b) != x && Root(b) != y
    ensures p.Up? ==> (p.id < |L| && p.id < |R| && (L[p.id] == x <==> p.holeLeft) && (R[p.id] == x <==> !p.holeLeft))
  {
    var t := Node(Node(a, y, b), x, c);
    TopLinks(L, R, P, p, t, NIL);
    HoleOff(p, t);
    if p.Up? {
      ParentSide(L, R, P, p, t);
    }
  }

  /** Below a non-empty path the top of the whole tree is the path's outermost node, whatever the subtree. */
  lemma {:induction false} PlugTop(p: Path, t: Tree, t2: Tree)
    requires p.Up?
    ensures Root(Plug(p, t)) == Root(Plug(p, t2))
  {
    PlugRoot(p.above, Attach(p, t), Attach(p, t2));
  }

  /** The links after __rb_rotate_left's stores, in the order it makes them, describe the rotated tree. */
  lemma {:induction false} RotateLeftLinks(L: seq<int>, R: seq<int>, P: seq<int>, L2: seq<int>, R2: seq<int>, P2: seq<int>,
                        p: Path, a: Tree, x: nat, b: Tree, y: nat, c: Tree)
    requires Shaped(L, R, P, Plug(p, Node(a, x, Node(b, y, c))), NIL)
    requires x < |L| && x < |R| && x < |P| && y < |L| && y < |R| && y < |P| && (b.Node? ==> b.id < |P|)
    requires p.Up? ==> p.id < |L| && p.id < |R|
    requires L2 == if p.Up? && p.holeLeft then L[y := x][p.id := y] else L[y := x]
    requires R2 == if p.Up? && !p.holeLeft then R[x := Root(b)][p.id := y] else R[x := Root(b)]
    requires P2 == (if b.Node? then P[b.id := x] else P)[y := HoleParent(p, NIL)][x := y]
    ensures Shaped(L2, R2, P2, Plug(p, Node(Node(a, x, b), y, c)), NIL)
  {
    RotateLeftReads(L, R, P, p, a, x, b, y, c);
    TopLinks(L, R, P, p, Node(a, x, Node(b, y, c)), NIL);
    RotateStores(L, R, P, L2, R2, P2, p, x, y, Root(b), true);
    RotateLeftShaped(L, R, P, L2, R2, P2, p, a, x, b, y, c);
  }

  /** The links after __rb_rotate_right's stores, in the order it makes them, describe the rotated tree. */
  lemma {:induction false} RotateRightLinks(L: seq<int>, R: seq<int>, P: seq<int>, L2: seq<int>, R2: seq<int>, P2: seq<int>,
                         p: Path, a: Tree, y: nat, b: Tree, x: nat, c: Tree)
    requires Shaped(L, R, P, Plug(p, Node(Node(a, y, b), x, c)), NIL)
    requires x < |L| && x < |R| && x < |P| && y < |L| && y < |R| && y < |P| && (b.Node? ==> b.id < |P|)
    requires p.Up? ==> p.id < |L| && p.id < |R|
    requires L2 == if p.Up? && p.holeLeft then L[x := Root(b)][p.id := y] else L[x := Root(b)]
    requires R2 == if p.Up? && !p.holeLeft then R[y := x][p.id := y] else R[y := x]
    requires P2 == (if b.Node? then P[b.id := x] else P)[y := HoleParent(p, NIL)][x := y]
    ensures Shaped(L2, R2, P2, Plug(p, Node(a, y, Node(b, x, c))), NIL)
  {
    RotateRightReads(L, R, P, p, a, y, b, x, c);
    TopLinks(L, R, P, p, Node(Node(a, y, b), x, c), NIL);
    RotateStores(R, L, P, R2, L2, P2, Mirror(p), x, y, Root(b), false);
    RotateRightShaped(L, R, P, L2, R2, P2, p, a, y, b, x, c);
  }

  /** The same path going down the other sides. */
  function Mirror(p: Path): Path
  {
    if p.Top? then Top else Up(!p.holeLeft, p.id, p.other, p.above)
  }

  /**
   * The stores of a rotation at x with y as x's child on one side (A and B
   * are the links on that side and the other): only x, y, the middle subtree
   * b's top and x's parent change, as follows.
   */
  lemma {:induction false} RotateStores(A: seq<int>, B: seq<int>, P: seq<int>, A2: seq<int>, B2: seq<int>, P2: seq<int>,
                     p: Path, x: nat, y: nat, b: int, leftSide: bool)
    requires x < |A| && x < |B| && x < |P| && y < |A| && y < |B| && y < |P| && (b != NIL ==> 0 <= b < |P|)
    requires x != y && HoleParent(p, NIL) != x && HoleParent(p, NIL) != y && b != x && b != y
    requires p.Up? ==> p.id < |A| && p.id < |B|
    requires A2 == if p.Up? && p.holeLeft then A[y := x][p.id := y] else A[y := x]
    requires B2 == if p.Up? && !p.holeLeft then B[x := b][p.id := y] else B[x := b]
    requires P2 == (if b != NIL then P[b := x] else P)[y := HoleParent(p, NIL)][x := y]
    ensures Keep(A, A2, {x, y, HoleParent(p, NIL)}) && Keep(B, B2, {x, y, HoleParent(p, NIL)}) && Keep(P, P2, {x, y, b})
    ensures A2[x] == A[x] && B2[x] == b && P2[x] == y && A2[y] == x && B2[y] == B[y] && P2[y] == HoleParent(p, NIL)
    ensures b != NIL ==> P2[b] == x
    ensures p.Up? ==> A2[p.id] == (if p.holeLeft then y else A[p.id]) && B2[p.id] == (if p.holeLeft then B[p.id] else y)
  {
  }

  /** The parent of the subtree a path leads to is none of the subtree's nodes. */
  lemma {:induction false} HoleOff(p: Path, t: Tree)
    requires Distinct(Plug(p, t))
    ensures Distinct(t) && (p.Up? ==> p.id !in Nodes(t))
  {
    PlugDistinct(p, t);
    if p.Up? {
      assert p.id in PathNodes(p);
    }
  }

  /** Which of its parent's links leads to a node tells the side the path goes down. */
  lemma {:induction false} ParentSide(L: seq<int>, R: seq<int>, P: seq<int>, p: Path, t: Tree)
    requires Shaped(L, R, P, Plug(p, t), NIL) && p.Up? && t.Node?
    ensures p.id < |L| && p.id < |R| && (L[p.id] == t.id <==> p.holeLeft) && (R[p.id] == t.id <==> !p.holeLeft)
  {
    HoleLinks(L, R, P, p, t, NIL);
  }

  /** The top of the subtree a path leads to has its links, and its parent link leads to the path's nearest node. */
  lemma {:induction false} UpLink(L: seq<int>, R: seq<int>, P: seq<int>, p: Path, t: Tree)
    requires Shaped(L, R, P, Plug(p, t), NIL) && t.Node?
    ensures t.id < |L| && t.id < |P| && P[t.id] == HoleParent(p, NIL) && (p.Up? ==> p.id < |L|)
  {
    TopLinks(L, R, P, p, t, NIL);
    if p.Up? {
      HoleLinks(L, R, P, p, t, NIL);
    }
  }

  /**
   * The links rb_insert_color reads around a node with a parent and a
   * grandparent: the parent's parent link, the grandparent's two links (one
   * to the parent, one to the uncle) and the parent's link to the node.
   */
  lemma {:induction false} GrandLinks(L: seq<int>, R: seq<int>, P: seq<int>, p: Path, s: Tree)
    requires Shaped(L, R, P, Plug(p, s), NIL) && s.Node? && p.Up? && p.above.Up?
    ensures p.id < |P| && P[p.id] == p.above.id && p.above.id < |L| && p.above.id < |R|
    ensures L[p.above.id] == (if p.above.holeLeft then p.id else Root(p.above.other))
    ensures R[p.above.id] == (if p.above.holeLeft then Root(p.above.other) else p.id)
    ensures Root(p.above.other) != p.id && (p.above.other.Node? ==> p.above.other.id < |L|)
    ensures p.id < |L| && p.id < |R| && (R[p.id] == s.id <==> !p.holeLeft) && (L[p.id] == s.id <==> p.holeLeft)
  {
    TopLinks(L, R, P, p.above, Attach(p, s), NIL);
    HoleLinks(L, R, P, p.above, Attach(p, s), NIL);
    ParentSide(L, R, P, p, s);
  }

  /** With a node above it, the top of the whole tree is one of the path's nodes. */
  lemma {:induction false} PlugRootIn(p: Path, t: Tree)
    requires p.Up?
    ensures Plug(p, t).Node? && Plug(p, t).id in PathNodes(p)
  {
    if p.above.Up? {
      PlugRootIn(p.above, Attach(p, t));
    }
  }

  /** With a node above it, a subtree's top is not the top of the whole tree. */
  lemma {:induction false} PlugRootOff(p: Path, t: Tree)
    requires p.Up? && Distinct(Plug(p, t))
    ensures Root(Plug(p, t)) != Root(t)
  {
    PlugRootIn(p, t);
    PlugDistinct(p, t);
    if t.Node? {
      assert t.id in Nodes(t);
    }
  }
}
