/**
  Finding one's way in the linked tree: rb_first, rb_last, rb_next, rb_prev and rb_link_node.
 */
module RbWalk {
  import opened Common
  import opened RbTree
  import opened RbLinks

  /** The first (`L`) or last (`R`) element of a sequence of nodes, NULL when there is none. */
  function End(s: Side, q: seq<Ptr>): Ptr {
    if q == [] then NULL else if s.L? then q[0] else q[|q| - 1]
  }

  /** What an in-order walk in direction `s` has yet to meet after the root of `t`. */
  function Rest(s: Side, ctx: Path, t: Shape): seq<Ptr>
    requires t.Node?
  {
    if s.R? then Inorder(t.right) + After(ctx) else Before(ctx) + Inorder(t.left)
  }

  /** Follow the links to side `s` as far as they go: rb_first for `L`, rb_last for `R`. */
  method Extreme(s: Side, n0: Ptr, m: Mem, ghost t: Shape, ghost p: Ptr) returns (n: Ptr)
    requires Rep(m, t, p) && n0 == RootOf(t)
    ensures n == End(s, Inorder(t))
  {
    n := n0;
    if n == NULL {
      assert t.Leaf?;
      return;
    }
    ghost var u, q := t, p;
    while m[n].Get(s) != NULL
      invariant u.Node? && n == u.n && Rep(m, u, q)
      invariant End(s, Inorder(u)) == End(s, Inorder(t))
      decreases u
    {
      assert Rep(m, u.Child(s), n);
      n := m[n].Get(s);
      q, u := u.n, u.Child(s);
      assert Inorder(u) != [];
    }
    assert u.Child(s).Leaf? by { assert Rep(m, u.Child(s), n); }
  }

  /** The neighbour of a node in the in-order sequence: rb_next for `R`, rb_prev for `L`. A node
      that is its own parent is in no tree and has no neighbour. */
  method Neighbor(s: Side, node0: Ptr, m: Mem, ghost root: Ptr, ghost ctx0: Path, ghost t0: Shape) returns (r: Ptr)
    requires node0 in m
    requires m[node0].parent != node0 ==> Zip(m, root, ctx0, t0) && t0.Node? && t0.n == node0
    ensures r == if m[node0].parent == node0 then NULL else End(s.Other(), Rest(s, ctx0, t0))
  {
    if m[node0].parent == node0 {
      return NULL;
    }
    ZipReads(m, root, ctx0, t0);
    var node := node0;
    if m[node].Get(s) != NULL {
      assert Rep(m, t0.Child(s), node);
      r := Extreme(s.Other(), m[node].Get(s), m, t0.Child(s), node);
      assert Inorder(t0.Child(s)) != [];
      return;
    }
    assert t0.Child(s).Leaf? by { assert Rep(m, t0.Child(s), node); }
    ghost var ctx, t := ctx0, t0;
    var parent := m[node].parent;
    while parent != NULL && node == m[parent].Get(s)
      invariant Zip(m, root, ctx, t) && t.Node? && t.n == node && parent == ParentOf(ctx)
      invariant ctx.Step? ==> parent != NULL && parent in m
      invariant Rest(s, ctx0, t0) == if s.R? then After(ctx) else Before(ctx)
      decreases Depth(ctx)
    {
      ZipReads(m, root, ctx, t);
      ZipUp(m, root, ctx, t);
      t, ctx := Build(ctx.side, t, ctx.n, ctx.color, ctx.sib), ctx.up;
      ZipReads(m, root, ctx, t);
      node := parent;
      parent := m[node].parent;
    }
    ZipReads(m, root, ctx, t);
    r := parent;
  }

  // ---------------------------------------------------------------- places in the sequence

  lemma {:induction false} InorderNode(t: Shape, x: Ptr)
    ensures x in Nodes(t) <==> x in Inorder(t)
  {
    if t.Leaf? {
    } else {
      InorderNode(t.left, x);
      InorderNode(t.right, x);
    }
  }

  lemma InorderNodes(t: Shape)
    ensures forall x :: x in Nodes(t) <==> x in Inorder(t)
  {
    forall x ensures x in Nodes(t) <==> x in Inorder(t) { InorderNode(t, x); }
  }

  lemma NoDuplicatesJoin(a: seq<Ptr>, x: Ptr, b: seq<Ptr>)
    requires NoDuplicates(a) && NoDuplicates(b) && x !in a && x !in b && forall y :: y in a ==> y !in b
    ensures NoDuplicates(a + [x] + b)
  {
    var q := a + [x] + b;
    forall i, j | 0 <= i < j < |q| ensures q[i] != q[j] {
      assert i < |a| ==> q[i] in a;
      assert j > |a| ==> q[j] in b;
    }
  }

  lemma {:induction false} InorderDistinct(t: Shape)
    requires Distinct(t)
    ensures NoDuplicates(Inorder(t))
  {
    if t.Leaf? {
    } else {
      InorderNodes(t.left);
      InorderNodes(t.right);
      InorderDistinct(t.left);
      InorderDistinct(t.right);
      NoDuplicatesJoin(Inorder(t.left), t.n, Inorder(t.right));
    }
  }

  /** Every node of a tree can be brought into view. */
  lemma {:induction false} Locate(ctx0: Path, t0: Shape, x: Ptr) returns (ctx: Path, t: Shape)
    requires x in Nodes(t0)
    ensures Plug(ctx, t) == Plug(ctx0, t0) && t.Node? && t.n == x
    decreases t0
  {
    var Node(l, n, c, r) := t0;
    if x == n {
      ctx, t := ctx0, t0;
    } else if x in Nodes(l) {
      ctx, t := Locate(Step(L, n, c, r, ctx0), l, x);
    } else {
      ctx, t := Locate(Step(R, n, c, l, ctx0), r, x);
    }
  }

  /** The place of the node in view is where `Before` and its left subtree end. */
  lemma PlaceInOrder(ctx: Path, t: Shape)
    requires t.Node?
    ensures var q, k := Inorder(Plug(ctx, t)), |Before(ctx)| + |Inorder(t.left)|;
            k < |q| && q[k] == t.n && q[..k] == Rest(L, ctx, t) && q[k + 1..] == Rest(R, ctx, t)
  {
    InorderPlug(ctx, t);
    var a, b, c, d := Before(ctx), Inorder(t.left), Inorder(t.right), After(ctx);
    RemoveGroup(a, b, [t.n], c, d);
    assert ((a + b) + [t.n] + (c + d))[|a + b| + 1..] == c + d;
  }

  lemma SamePlace(q: seq<Ptr>, i: nat, j: nat)
    requires NoDuplicates(q) && i < |q| && j < |q| && q[i] == q[j]
    ensures i == j
  {
  }

  /** rb_next and rb_prev step to the next and the previous place of the in-order sequence. */
  method NeighborAt(s: Side, node: Ptr, m: Mem, ghost root: Ptr, ghost t: Shape, ghost k: nat) returns (r: Ptr)
    requires Linked(m, root, t) && k < |Inorder(t)| && Inorder(t)[k] == node
    ensures var q := Inorder(t);
            r == if s.R? then (if k + 1 < |q| then q[k + 1] else NULL) else (if k > 0 then q[k - 1] else NULL)
  {
    InorderNodes(t);
    InorderDistinct(t);
    ghost var ctx, u := Locate(Top, t, node);
    PlaceInOrder(ctx, u);
    SamePlace(Inorder(t), k, |Before(ctx)| + |Inorder(u.left)|);
    ZipTop(m, root, ctx, u);
    ZipReads(m, root, ctx, u);
    ReplaceReads(m, root, ctx, u);
    r := Neighbor(s, node, m, root, ctx, u);
    assert k + 1 < |Inorder(t)| ==> Inorder(t)[k + 1..][0] == Inorder(t)[k + 1];
  }

  /** Stepping with rb_next from rb_first meets every node once, in order, and ends. */
  method Walk(m: Mem, root: Ptr, ghost t: Shape) returns (met: seq<Ptr>)
    requires Linked(m, root, t)
    ensures met == Inorder(t)
  {
    var p := Extreme(L, root, m, t, NULL);
    met := [];
    NoNullBelow(m, t, NULL);
    InorderNodes(t);
    assert forall i :: 0 <= i < |Inorder(t)| ==> Inorder(t)[i] in Inorder(t);
    while p != NULL
      invariant |met| <= |Inorder(t)| && met == Inorder(t)[..|met|]
      invariant p == if |met| < |Inorder(t)| then Inorder(t)[|met|] else NULL
      decreases |Inorder(t)| - |met|
    {
      var next := NeighborAt(R, p, m, root, t, |met|);
      met := met + [p];
      p := next;
    }
  }

  // ---------------------------------------------------------------- linking a new leaf

  /** rb_link_node: hang the new red leaf `n` below `parent`, on the empty side `s`. */
  method LinkNode(n: Ptr, parent: Ptr, s: Side, m0: Mem, root0: Ptr, ghost ctx: Path) returns (m: Mem, root: Ptr)
    requires Zip(m0, root0, ctx, Leaf) && n != NULL && n !in PathNodes(ctx)
    requires parent == ParentOf(ctx) && (ctx.Step? ==> s == ctx.side)
    ensures Zip(m, root, ctx, Node(Leaf, n, Red, Leaf))
    ensures Frame(m0[n := Links(NULL, NULL, parent, Red)], m, PathNodes(ctx))
  {
    ZipReads(m0, root0, ctx, Leaf);
    m, root := m0[n := Links(NULL, NULL, parent, Red)], root0;
    assert ctx.Step? ==> ctx.n in PathNodes(ctx);
    if parent != NULL {
      m := m[parent := m[parent].Put(s, n)];
    } else {
      root := n;
    }
    RepPathHole(m0, m, ctx, NULL, n);
    RootOfPlug(ctx, Node(Leaf, n, Red, Leaf), Leaf);
  }
}
