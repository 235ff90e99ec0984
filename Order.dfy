/**
 * The order rb_find and rb_insert keep in include/rbtree.h. The comparison
 * cmp(entry key, value) sends a search left when it is negative and right
 * when it is positive, so the keys fall along the symmetric order of the
 * tree. rb_next and rb_prev step along that order; rb_erase takes one node
 * out of it.
 */
module Order {
  import opened Arena

  /** cmp on integer keys: negative, zero or positive as a is below, equal to or above b. */
  function Cmp(a: int, b: int): (r: int)
    ensures r < 0 <==> a < b
    ensures r == 0 <==> a == b
  {
    if a < b then -1 else if a > b then 1 else 0
  }

  /** Every node of s has a key, and the keys strictly decrease along s. */
  ghost predicate Descending(K: seq<int>, s: seq<nat>)
  {
    (forall i :: 0 <= i < |s| ==> s[i] < |K|) &&
    forall i, j :: 0 <= i < j < |s| ==> K[s[i]] > K[s[j]]
  }

  /** No node appears twice in s. */
  ghost predicate NoDup(s: seq<nat>)
  {
    forall i, j :: 0 <= i < j < |s| ==> s[i] != s[j]
  }

  /** Keys that strictly decrease belong to different nodes. */
  lemma {:induction false} DescendingNoDup(K: seq<int>, s: seq<nat>)
    requires Descending(K, s)
    ensures NoDup(s)
  {
    forall i, j | 0 <= i < j < |s|
      ensures s[i] != s[j]
    {
      assert K[s[i]] > K[s[j]];
    }
  }

  /** A sequence of decreasing keys splits into two such sequences, all of the first above all of the second. */
  lemma {:induction false} DescendingSplit(K: seq<int>, u: seq<nat>, v: seq<nat>)
    requires Descending(K, u + v)
    ensures Descending(K, u) && Descending(K, v)
    ensures forall y, z :: y in u && z in v ==> y < |K| && z < |K| && K[y] > K[z]
  {
    var w := u + v;
    assert forall i :: 0 <= i < |u| ==> u[i] == w[i];
    assert forall i :: 0 <= i < |v| ==> v[i] == w[|u| + i];
    forall y, z | y in u && z in v
      ensures y < |K| && z < |K| && K[y] > K[z]
    {
      var i :| 0 <= i < |u| && u[i] == y;
      var j :| 0 <= j < |v| && v[j] == z;
      assert y == w[i] && z == w[|u| + j];
    }
  }

  /** Two sequences of decreasing keys, all of the first above all of the second, join into one. */
  lemma {:induction false} DescendingJoin(K: seq<int>, u: seq<nat>, v: seq<nat>)
    requires Descending(K, u) && Descending(K, v)
    requires forall y, z :: y in u && z in v ==> y < |K| && z < |K| && K[y] > K[z]
    ensures Descending(K, u + v)
  {
    var w := u + v;
    forall i | 0 <= i < |w|
      ensures w[i] < |K|
    {
      if i < |u| {
        assert w[i] == u[i];
      } else {
        assert w[i] == v[i - |u|];
      }
    }
    forall i, j | 0 <= i < j < |w|
      ensures K[w[i]] > K[w[j]]
    {
      if j < |u| {
        assert w[i] == u[i] && w[j] == u[j];
      } else if i >= |u| {
        assert w[i] == v[i - |u|] && w[j] == v[j - |u|];
      } else {
        var y, z := u[i], v[j - |u|];
        assert w[i] == y && w[j] == z;
        assert y in u && z in v;
      }
    }
    assert Descending(K, w);
  }

  /**
   * The keys of a subtree in a search tree: its left subtree's keys are above
   * the top's and its right subtree's below, and both subtrees are search
   * trees again.
   */
  lemma {:induction false} SubtreeKeys(K: seq<int>, t: Tree)
    requires Descending(K, Inorder(t)) && t.Node?
    ensures Descending(K, Inorder(t.l)) && Descending(K, Inorder(t.r)) && t.id < |K|
    ensures forall z :: z in Nodes(t.l) ==> z < |K| && K[z] > K[t.id]
    ensures forall z :: z in Nodes(t.r) ==> z < |K| && K[z] < K[t.id]
  {
    DescendingSplit(K, Inorder(t.l) + [t.id], Inorder(t.r));
    DescendingSplit(K, Inorder(t.l), [t.id]);
    assert t.id in [t.id] && t.id in Inorder(t.l) + [t.id];
    InorderNodes(t.l);
    InorderNodes(t.r);
  }

  /** The node after x in s, or NIL when x is last or not in s. */
  function NextIn(s: seq<nat>, x: nat): (r: int)
    ensures r == NIL || r in s
  {
    if |s| == 0 then NIL
    else if s[0] == x then (if |s| > 1 then s[1] else NIL)
    else NextIn(s[1..], x)
  }

  /** The node before x in s, or NIL when x is first or not in s. */
  function PrevIn(s: seq<nat>, x: nat): (r: int)
    ensures r == NIL || r in s
  {
    if |s| == 0 then NIL
    else if s[|s| - 1] == x then (if |s| > 1 then s[|s| - 2] else NIL)
    else PrevIn(s[..|s| - 1], x)
  }

  /** In a sequence without repeats the node after s[i] is s[i + 1]. */
  lemma {:induction false} NextAt(s: seq<nat>, i: nat)
    requires NoDup(s) && i < |s|
    ensures NextIn(s, s[i]) == if i + 1 < |s| then s[i + 1] else NIL
  {
    if i > 0 {
      assert s[0] != s[i];
      assert NoDup(s[1..]) by {
        forall k, m | 0 <= k < m < |s[1..]|
          ensures s[1..][k] != s[1..][m]
        {
          assert s[1..][k] == s[k + 1] && s[1..][m] == s[m + 1];
        }
      }
      NextAt(s[1..], i - 1);
      assert s[1..][i - 1] == s[i];
    }
  }

  /** In a sequence without repeats the node before s[i] is s[i - 1]. */
  lemma {:induction false} PrevAt(s: seq<nat>, i: nat)
    requires NoDup(s) && i < |s|
    ensures PrevIn(s, s[i]) == if i > 0 then s[i - 1] else NIL
    decreases |s|
  {
    var n := |s| - 1;
    if i < n {
      assert s[n] != s[i];
      var s2 := s[..n];
      assert NoDup(s2) by {
        forall k, m | 0 <= k < m < |s2|
          ensures s2[k] != s2[m]
        {
          assert s2[k] == s[k] && s2[m] == s[m];
        }
      }
      PrevAt(s2, i);
      assert s2[i] == s[i];
      assert i > 0 ==> s2[i - 1] == s[i - 1];
    }
  }

  /** rb_prev undoes rb_next: the node before the node after x is x. */
  lemma {:induction false} NextPrev(s: seq<nat>, i: nat)
    requires NoDup(s) && i + 1 < |s|
    ensures NextIn(s, s[i]) == s[i + 1] && PrevIn(s, s[i + 1]) == s[i]
  {
    NextAt(s, i);
    PrevAt(s, i + 1);
  }

  /** The node after x in u + [x] + v, when x occurs only there: the first of v. */
  lemma {:induction false} NextSplit(u: seq<nat>, x: nat, v: seq<nat>)
    requires NoDup(u + [x] + v)
    ensures NextIn(u + [x] + v, x) == if |v| > 0 then v[0] else NIL
  {
    var s := u + [x] + v;
    assert s[|u|] == x;
    NextAt(s, |u|);
    assert |v| > 0 ==> s[|u| + 1] == v[0];
  }

  /** The node before x in u + [x] + v, when x occurs only there: the last of u. */
  lemma {:induction false} PrevSplit(u: seq<nat>, x: nat, v: seq<nat>)
    requires NoDup(u + [x] + v)
    ensures PrevIn(u + [x] + v, x) == if |u| > 0 then u[|u| - 1] else NIL
  {
    var s := u + [x] + v;
    assert s[|u|] == x;
    PrevAt(s, |u|);
    assert |u| > 0 ==> s[|u| - 1] == u[|u| - 1];
  }

  /** s with every occurrence of x taken out. */
  function Without(s: seq<nat>, x: nat): (r: seq<nat>)
    ensures forall z :: z in r <==> z in s && z != x
    ensures |r| <= |s|
  {
    if |s| == 0 then [] else (if s[0] == x then [] else [s[0]]) + Without(s[1..], x)
  }

  lemma {:induction false} WithoutAppend(u: seq<nat>, v: seq<nat>, x: nat)
    ensures Without(u + v, x) == Without(u, x) + Without(v, x)
  {
    if |u| > 0 {
      assert (u + v)[1..] == u[1..] + v;
      WithoutAppend(u[1..], v, x);
    } else {
      assert u + v == v;
    }
  }

  lemma {:induction false} WithoutAbsent(s: seq<nat>, x: nat)
    requires x !in s
    ensures Without(s, x) == s
  {
    if |s| > 0 {
      assert s[0] != x && x !in s[1..];
      WithoutAbsent(s[1..], x);
      assert s == [s[0]] + s[1..];
    }
  }

  /** Taking x out of u + [x] + v, where x occurs only once, leaves u + v. */
  lemma {:induction false} WithoutSplit(u: seq<nat>, x: nat, v: seq<nat>)
    requires x !in u && x !in v
    ensures Without(u + [x] + v, x) == u + v
  {
    WithoutAppend(u + [x], v, x);
    WithoutAppend(u, [x], x);
    WithoutAbsent(u, x);
    WithoutAbsent(v, x);
    WithoutOnly(x);
    calc {
      Without(u + [x] + v, x);
      Without(u + [x], x) + Without(v, x);
      Without(u, x) + Without([x], x) + Without(v, x);
      u + [] + v;
      { assert u + [] == u; }
      u + v;
    }
  }

  /** Taking x out of [x] leaves nothing. */
  lemma {:induction false} WithoutOnly(x: nat)
    ensures Without([x], x) == []
  {
    assert [x][0] == x && [x][1..] == [];
  }

  /** Taking a node out of a sequence of decreasing keys leaves one. */
  lemma {:induction false} DescendingWithout(K: seq<int>, s: seq<nat>, x: nat)
    requires Descending(K, s)
    ensures Descending(K, Without(s, x))
  {
    if |s| > 0 {
      var head := if s[0] == x then [] else [s[0]];
      assert s == [s[0]] + s[1..];
      DescendingSplit(K, [s[0]], s[1..]);
      DescendingWithout(K, s[1..], x);
      assert s[0] in [s[0]];
      DescendingJoin(K, head, Without(s[1..], x));
    }
  }

  /** A node whose key lies between the keys of u and those of v fits between them. */
  lemma {:induction false} DescendingInsert(K: seq<int>, u: seq<nat>, x: nat, v: seq<nat>)
    requires Descending(K, u + v) && x < |K|
    requires forall z :: z in u ==> z < |K| && K[z] > K[x]
    requires forall z :: z in v ==> z < |K| && K[z] < K[x]
    ensures Descending(K, u + [x] + v)
  {
    DescendingSplit(K, u, v);
    DescendingJoin(K, u, [x]);
    DescendingJoin(K, u + [x], v);
  }

  /** The first node of s, or NIL when s is empty. */
  function Head(s: seq<nat>): (r: int)
    ensures r == NIL <==> |s| == 0
  {
    if |s| == 0 then NIL else s[0]
  }

  /** The last node of s, or NIL when s is empty. */
  function Last(s: seq<nat>): (r: int)
    ensures r == NIL <==> |s| == 0
  {
    if |s| == 0 then NIL else s[|s| - 1]
  }

  /** Two sequences without repeats and with no node in common join into one without repeats. */
  lemma {:induction false} NoDupJoin(u: seq<nat>, v: seq<nat>)
    requires NoDup(u) && NoDup(v) && forall z :: z in u ==> z !in v
    ensures NoDup(u + v)
  {
    var w := u + v;
    forall i, j | 0 <= i < j < |w|
      ensures w[i] != w[j]
    {
      if j < |u| {
        assert w[i] == u[i] && w[j] == u[j];
      } else if i >= |u| {
        assert w[i] == v[i - |u|] && w[j] == v[j - |u|];
      } else {
        assert w[i] == u[i] && u[i] in u;
        assert w[j] == v[j - |u|] && v[j - |u|] in v;
      }
    }
  }

  /** A tree without repeated nodes lists each node once in symmetric order. */
  lemma {:induction false} DistinctNoDup(t: Tree)
    requires Distinct(t)
    ensures NoDup(Inorder(t))
  {
    if t.Node? {
      DistinctNoDup(t.l);
      DistinctNoDup(t.r);
      InorderNodes(t.l);
      InorderNodes(t.r);
      NoDupJoin(Inorder(t.l), [t.id]);
      NoDupJoin(Inorder(t.l) + [t.id], Inorder(t.r));
    }
  }

  /** s with x replaced by y. */
  function Rename(s: seq<nat>, x: nat, y: nat): (r: seq<nat>)
    ensures |r| == |s| && forall i :: 0 <= i < |s| ==> r[i] == if s[i] == x then y else s[i]
  {
    if |s| == 0 then [] else [if s[0] == x then y else s[0]] + Rename(s[1..], x, y)
  }

  /** Renaming x in u + [x] + v, where x occurs only there, renames that one place. */
  lemma {:induction false} RenameSplit(u: seq<nat>, x: nat, v: seq<nat>, y: nat)
    requires x !in u && x !in v
    ensures Rename(u + [x] + v, x, y) == u + [y] + v
  {
    var s := u + [x] + v;
    var r := Rename(s, x, y);
    forall i | 0 <= i < |s|
      ensures r[i] == (u + [y] + v)[i]
    {
      if i < |u| {
        assert s[i] == u[i] && u[i] in u;
      } else if i > |u| {
        assert s[i] == v[i - |u| - 1] && v[i - |u| - 1] in v;
      }
    }
  }

  /** A node renamed to one with the same key keeps the keys in order. */
  lemma {:induction false} DescendingRename(K: seq<int>, s: seq<nat>, x: nat, y: nat)
    requires Descending(K, s) && x < |K| && y < |K| && K[y] == K[x]
    ensures Descending(K, Rename(s, x, y))
  {
  }

  /** Keys that strictly decrease belong to different nodes and differ from one another. */
  lemma {:induction false} DescendingDistinctKeys(K: seq<int>, s: seq<nat>, y: nat, z: nat)
    requires Descending(K, s) && y in s && z in s && y != z
    ensures y < |K| && z < |K| && K[y] != K[z]
  {
    var i :| 0 <= i < |s| && s[i] == y;
    var j :| 0 <= j < |s| && s[j] == z;
    assert i != j;
  }

  /** The first node of a sequence of decreasing keys holds the greatest key, the last the least. */
  lemma {:induction false} DescendingEnds(K: seq<int>, s: seq<nat>)
    requires Descending(K, s) && |s| > 0
    ensures forall z :: z in s ==> K[Head(s)] >= K[z] >= K[Last(s)]
  {
    forall z | z in s
      ensures K[Head(s)] >= K[z] >= K[Last(s)]
    {
      var i :| 0 <= i < |s| && s[i] == z;
      assert i == 0 || K[s[0]] > K[s[i]];
      assert i == |s| - 1 || K[s[i]] > K[s[|s| - 1]];
    }
  }

  /** The last node of u + w: the last of w, or of u when w is empty. */
  lemma {:induction false} LastJoin(u: seq<nat>, w: seq<nat>)
    ensures Last(u + w) == if |w| > 0 then Last(w) else Last(u)
  {
    if |w| == 0 {
      assert u + w == u;
    }
  }

  /** The first node of w + v: the first of w, or of v when w is empty. */
  lemma {:induction false} HeadJoin(w: seq<nat>, v: seq<nat>)
    ensures Head(w + v) == if |w| > 0 then Head(w) else Head(v)
  {
    if |w| == 0 {
      assert w + v == v;
    }
  }

  /** The node after x in B + (l + [x] + r) + A, when x occurs only there: the first of r, else of A. */
  lemma {:induction false} NextAround(B: seq<nat>, l: seq<nat>, x: nat, r: seq<nat>, A: seq<nat>)
    requires NoDup(B + (l + [x] + r) + A)
    ensures NextIn(B + (l + [x] + r) + A, x) == if |r| > 0 then Head(r) else Head(A)
  {
    assert B + (l + [x] + r) + A == (B + l) + [x] + (r + A);
    NextSplit(B + l, x, r + A);
    HeadJoin(r, A);
  }

  /** The node before x in B + (l + [x] + r) + A, when x occurs only there: the last of l, else of B. */
  lemma {:induction false} PrevAround(B: seq<nat>, l: seq<nat>, x: nat, r: seq<nat>, A: seq<nat>)
    requires NoDup(B + (l + [x] + r) + A)
    ensures PrevIn(B + (l + [x] + r) + A, x) == if |l| > 0 then Last(l) else Last(B)
  {
    assert B + (l + [x] + r) + A == (B + l) + [x] + (r + A);
    PrevSplit(B + l, x, r + A);
    LastJoin(B, l);
  }

  /** A node that occurs once in u + [x] + v occurs in neither u nor v. */
  lemma {:induction false} NoDupSplit(u: seq<nat>, x: nat, v: seq<nat>)
    requires NoDup(u + [x] + v)
    ensures x !in u && x !in v
  {
    var s := u + [x] + v;
    assert s[|u|] == x;
    forall i | 0 <= i < |u|
      ensures u[i] != x
    {
      assert s[i] == u[i];
    }
    forall j | 0 <= j < |v|
      ensures v[j] != x
    {
      assert s[|u| + 1 + j] == v[j];
    }
  }

  /** Taking x out of B + (l + [x] + r) + A, when x occurs only there, leaves B + (l + r) + A. */
  lemma {:induction false} WithoutAround(B: seq<nat>, l: seq<nat>, x: nat, r: seq<nat>, A: seq<nat>)
    requires NoDup(B + (l + [x] + r) + A)
    ensures Without(B + (l + [x] + r) + A, x) == B + (l + r) + A
  {
    assert B + (l + [x] + r) + A == (B + l) + [x] + (r + A);
    NoDupSplit(B + l, x, r + A);
    WithoutSplit(B + l, x, r + A);
    assert (B + l) + (r + A) == B + (l + r) + A;
  }

  /** Renaming x, which occurs only once, to y in B + (l + [x] + r) + A. */
  lemma {:induction false} RenameAround(B: seq<nat>, l: seq<nat>, x: nat, r: seq<nat>, A: seq<nat>, y: nat)
    requires NoDup(B + (l + [x] + r) + A)
    ensures Rename(B + (l + [x] + r) + A, x, y) == B + (l + [y] + r) + A
  {
    assert B + (l + [x] + r) + A == (B + l) + [x] + (r + A);
    NoDupSplit(B + l, x, r + A);
    RenameApart(B, l, x, r, A, y);
  }

  lemma {:induction false} RenameApart(B: seq<nat>, l: seq<nat>, x: nat, r: seq<nat>, A: seq<nat>, y: nat)
    requires x !in B + l && x !in r + A
    ensures Rename(B + (l + [x] + r) + A, x, y) == B + (l + [y] + r) + A
  {
    assert B + (l + [x] + r) + A == (B + l) + [x] + (r + A);
    RenameSplit(B + l, x, r + A, y);
    assert (B + l) + [y] + (r + A) == B + (l + [y] + r) + A;
  }

  /** Keys below k in each of three parts are below k in the whole. */
  lemma {:induction false} KeysBelow(K: seq<int>, k: int, u: seq<nat>, v: seq<nat>, w: seq<nat>)
    requires forall z :: z in u ==> z < |K| && K[z] < k
    requires forall z :: z in v ==> z < |K| && K[z] < k
    requires forall z :: z in w ==> z < |K| && K[z] < k
    ensures forall z :: z in u + v + w ==> z < |K| && K[z] < k
  {
  }

  /** Keys above k in each of three parts are above k in the whole. */
  lemma {:induction false} KeysAbove(K: seq<int>, k: int, u: seq<nat>, v: seq<nat>, w: seq<nat>)
    requires forall z :: z in u ==> z < |K| && K[z] > k
    requires forall z :: z in v ==> z < |K| && K[z] > k
    requires forall z :: z in w ==> z < |K| && K[z] > k
    ensures forall z :: z in u + v + w ==> z < |K| && K[z] > k
  {
  }
}
