/**
  One wheel of the timer service: a red-black tree of timers ordered by expiry, with duplicates.
  Models timer_add, timer_del and timer_tree_walk of TIMERS/src/update.c.
 */
module TimerTree {
  import opened Common
  import opened RbTree
  import opened RbLinks
  import opened RbWalk

  /** The expiry `rt` of each timer, in units of the wheel it is on. */
  type Keys = map<Ptr, int>

  ghost predicate Keyed(rt: Keys, q: seq<Ptr>) {
    forall i :: 0 <= i < |q| ==> q[i] in rt
  }

  ghost predicate Sorted(rt: Keys, q: seq<Ptr>)
    requires Keyed(rt, q)
  {
    forall i, j :: 0 <= i < j < |q| ==> rt[q[i]] <= rt[q[j]]
  }

  ghost predicate Ordered(rt: Keys, q: seq<Ptr>) { Keyed(rt, q) && Sorted(rt, q) }

  ghost predicate Wheel(m: Mem, root: Ptr, t: Shape, rt: Keys) {
    Linked(m, root, t) && RedBlack(t) && Ordered(rt, Inorder(t))
  }

  /** All of `q` expire no later than `key`. */
  ghost predicate UpTo(rt: Keys, q: seq<Ptr>, key: int) {
    forall x :: x in q ==> x in rt && rt[x] <= key
  }

  /** All of `q` expire after `key`. */
  ghost predicate Beyond(rt: Keys, q: seq<Ptr>, key: int) {
    forall x :: x in q ==> x in rt && key < rt[x]
  }

  lemma OrderedAround(rt: Keys, a: seq<Ptr>, x: Ptr, b: seq<Ptr>)
    requires Ordered(rt, a + [x] + b)
    ensures x in rt && UpTo(rt, a, rt[x]) && Beyond(rt, b, rt[x] - 1)
  {
    var q := a + [x] + b;
    assert q[|a|] == x;
    forall y | y in a ensures y in rt && rt[y] <= rt[x] {
      var i :| 0 <= i < |a| && a[i] == y;
      assert q[i] == y;
    }
    forall y | y in b ensures y in rt && rt[x] <= rt[y] {
      var i :| 0 <= i < |b| && b[i] == y;
      assert q[|a| + 1 + i] == y;
    }
  }

  /** Whatever lies to side `s` of the root of `u` can be told from its key. */
  lemma SearchStep(rt: Keys, ctx: Path, u: Shape)
    requires u.Node? && Ordered(rt, Inorder(Plug(ctx, u)))
    ensures u.n in rt
    ensures UpTo(rt, Before(Step(R, u.n, u.color, u.left, ctx)), rt[u.n])
    ensures Beyond(rt, After(Step(L, u.n, u.color, u.right, ctx)), rt[u.n] - 1)
    ensures u.n in Inorder(Plug(ctx, u))
  {
    InorderPlug(ctx, u);
    RemoveGroup(Before(ctx), Inorder(u.left), [u.n], Inorder(u.right), After(ctx));
    OrderedAround(rt, Before(ctx) + Inorder(u.left), u.n, Inorder(u.right) + After(ctx));
  }

  lemma SortedJoin(rt: Keys, a: seq<Ptr>, x: Ptr, b: seq<Ptr>)
    requires x in rt && UpTo(rt, a, rt[x]) && Beyond(rt, b, rt[x]) && Ordered(rt, a + b)
    ensures Ordered(rt, a + [x] + b)
  {
    var q, s := a + [x] + b, a + b;
    assert forall i :: 0 <= i < |a| ==> a[i] in a;
    assert forall i :: 0 <= i < |b| ==> b[i] in b;
    forall i, j | 0 <= i <= j < |q| ensures q[i] in rt && q[j] in rt && rt[q[i]] <= rt[q[j]] {
      var i', j' := if i < |a| then i else i - 1, if j <= |a| then j else j - 1;
      assert i != |a| ==> s[i'] == q[i];
      assert j != |a| ==> s[j'] == q[j];
    }
  }

  lemma SortedDrop(rt: Keys, a: seq<Ptr>, x: Ptr, b: seq<Ptr>)
    requires Ordered(rt, a + [x] + b)
    ensures Ordered(rt, a + b)
  {
    var q, s := a + [x] + b, a + b;
    forall i | 0 <= i < |s| ensures s[i] in rt { assert s[i] == q[if i < |a| then i else i + 1]; }
    forall i, j | 0 <= i < j < |s| ensures rt[s[i]] <= rt[s[j]] {
      assert s[i] == q[if i < |a| then i else i + 1] && s[j] == q[if j < |a| then j else j + 1];
    }
  }

  /** The search of timer_add: the empty link at which `n` belongs. */
  method FindLink(n: Ptr, m: Mem, root: Ptr, rt: Keys, ghost t: Shape)
    returns (parent: Ptr, side: Side, ghost ctx: Path)
    requires Wheel(m, root, t, rt) && n in rt
    ensures Zip(m, root, ctx, Leaf) && Plug(ctx, Leaf) == t
    ensures parent == ParentOf(ctx) && (ctx.Step? ==> side == ctx.side)
    ensures UpTo(rt, Before(ctx), rt[n]) && Beyond(rt, After(ctx), rt[n])
  {
    var link := root;
    parent, side := NULL, L;
    ghost var u := t;
    ctx := Top;
    while link != NULL
      invariant Zip(m, root, ctx, u) && link == RootOf(u) && Plug(ctx, u) == t
      invariant parent == ParentOf(ctx) && (ctx.Step? ==> side == ctx.side)
      invariant UpTo(rt, Before(ctx), rt[n]) && Beyond(rt, After(ctx), rt[n])
      decreases u
    {
      ZipReads(m, root, ctx, u);
      SearchStep(rt, ctx, u);
      parent := link;
      if rt[n] < rt[parent] {
        side := L;
        ctx, u := Step(L, u.n, u.color, u.right, ctx), u.left;
      } else {
        side := R;
        ctx, u := Step(R, u.n, u.color, u.left, ctx), u.right;
      }
      link := m[link].Get(side);
      ZipUp(m, root, ctx, u);
    }
    assert u.Leaf? by { ZipReads(m, root, ctx, u); }
  }

  /** timer_add: search for the place of `n`, hang it there as a red leaf and rebalance. Of the
      timers that expire at the same time, `n` comes last. */
  method TimerAdd(n: Ptr, m0: Mem, root0: Ptr, rt: Keys, ghost t: Shape) returns (m: Mem, root: Ptr, ghost t': Shape)
    requires Wheel(m0, root0, t, rt) && n != NULL && n !in Nodes(t) && n in rt
    ensures Wheel(m, root, t', rt) && Nodes(t') == Nodes(t) + {n}
    ensures exists a, b ::
              Inorder(t) == a + b && Inorder(t') == a + [n] + b && UpTo(rt, a, rt[n]) && Beyond(rt, b, rt[n])
    ensures m.Keys == m0.Keys + {n} && forall x :: x in m0 && x !in Nodes(t') ==> m[x] == m0[x]
  {
    var parent, side;
    ghost var ctx;
    parent, side, ctx := FindLink(n, m0, root0, rt, t);
    ghost var leaf := Node(Leaf, n, Red, Leaf);
    LeafReady(ctx, t, n);
    LeafOrdered(ctx, t, n, rt);
    ZipTop(m0, root0, ctx, Leaf);
    m, root := LinkNode(n, parent, side, m0, root0, ctx);
    assert Nodes(leaf) == {n};
    m, root := InsertColor(n, m, root, ctx, leaf);
    t' := InsertFix(ctx, leaf);
  }

  /** A red leaf hung at an empty link is ready for rebalancing. */
  lemma LeafReady(ctx: Path, t: Shape, n: Ptr)
    requires RedBlack(t) && Plug(ctx, Leaf) == t
    ensures InsertReady(ctx, Node(Leaf, n, Red, Leaf))
    ensures var t' := InsertFix(ctx, Node(Leaf, n, Red, Leaf));
            RedBlack(t') && Inorder(t) == Before(ctx) + After(ctx) && Inorder(t') == Before(ctx) + [n] + After(ctx)
  {
    var leaf := Node(Leaf, n, Red, Leaf);
    PlugRedBlack(ctx, Leaf);
    InsertFixRedBlack(ctx, leaf);
    InorderPlug(ctx, Leaf);
    InorderPlug(ctx, leaf);
    assert Inorder(leaf) == [n];
    InsertFixInorder(ctx, leaf);
    assert Before(ctx) + [] + After(ctx) == Before(ctx) + After(ctx);
  }

  lemma LeafOrdered(ctx: Path, t: Shape, n: Ptr, rt: Keys)
    requires RedBlack(t) && Plug(ctx, Leaf) == t && n in rt && Ordered(rt, Inorder(t))
    requires UpTo(rt, Before(ctx), rt[n]) && Beyond(rt, After(ctx), rt[n])
    ensures var t' := InsertFix(ctx, Node(Leaf, n, Red, Leaf)); Ordered(rt, Inorder(t')) && Nodes(t') == Nodes(t) + {n}
  {
    LeafReady(ctx, t, n);
    SortedJoin(rt, Before(ctx), n, After(ctx));
    JoinMembers(Before(ctx), n, After(ctx));
    forall x ensures x in Nodes(InsertFix(ctx, Node(Leaf, n, Red, Leaf))) <==> x in Nodes(t) + {n} {
      InorderNode(t, x);
      InorderNode(InsertFix(ctx, Node(Leaf, n, Red, Leaf)), x);
    }
  }

  lemma JoinMembers(a: seq<Ptr>, n: Ptr, b: seq<Ptr>)
    ensures forall x :: x in a + [n] + b <==> x in a + b || x == n
  {
  }

  /** timer_del: erase the node and mark it as being in no tree. */
  method TimerDel(n: Ptr, m0: Mem, root0: Ptr, rt: Keys, ghost t: Shape) returns (m: Mem, root: Ptr, ghost t': Shape)
    requires Wheel(m0, root0, t, rt) && n in Nodes(t)
    ensures Wheel(m, root, t', rt) && Nodes(t') == Nodes(t) - {n}
    ensures exists a, b :: Inorder(t) == a + [n] + b && Inorder(t') == a + b
    ensures m.Keys == m0.Keys && n in m && m[n].parent == n
    ensures forall x :: x in m0 && x !in Nodes(t) ==> m[x] == m0[x]
  {
    ghost var ctx, u := Locate(Top, t, n);
    ZipTop(m0, root0, ctx, u);
    ErasedWheel(ctx, u, rt);
    m, root := RbLinks.Erase(n, m0, root0, ctx, u);
    t' := RbTree.Erase(ctx, u);
    ghost var m1 := m;
    NoNullBelow(m0, t, NULL);
    m := m[n := m[n].(parent := n)];
    ZipFrame(m1, m, root, Top, t');
  }

  lemma ErasedWheel(ctx: Path, u: Shape, rt: Keys)
    requires u.Node? && RedBlack(Plug(ctx, u)) && Distinct(Plug(ctx, u)) && Ordered(rt, Inorder(Plug(ctx, u)))
    ensures var t', a, b := RbTree.Erase(ctx, u), Before(ctx) + Inorder(u.left), Inorder(u.right) + After(ctx);
            RedBlack(t') && Ordered(rt, Inorder(t')) && Inorder(Plug(ctx, u)) == a + [u.n] + b && Inorder(t') == a + b
    ensures Nodes(RbTree.Erase(ctx, u)) == Nodes(Plug(ctx, u)) - {u.n}
  {
    EraseRedBlack(ctx, u);
    EraseInorder(ctx, u);
    SortedDrop(rt, Before(ctx) + Inorder(u.left), u.n, Inorder(u.right) + After(ctx));
    RemovedNodes(Plug(ctx, u), RbTree.Erase(ctx, u), Before(ctx) + Inorder(u.left), u.n, Inorder(u.right) + After(ctx));
  }

  lemma RemovedNodes(t: Shape, t': Shape, a: seq<Ptr>, n: Ptr, b: seq<Ptr>)
    requires Distinct(t) && Inorder(t) == a + [n] + b && Inorder(t') == a + b
    ensures Nodes(t') == Nodes(t) - {n}
  {
    InorderDistinct(t);
    ErasedNodes(a, n, b);
    forall x ensures x in Nodes(t') <==> x in Nodes(t) - {n} {
      InorderNode(t, x);
      InorderNode(t', x);
    }
  }

  lemma ErasedNodes(a: seq<Ptr>, n: Ptr, b: seq<Ptr>)
    requires NoDuplicates(a + [n] + b)
    ensures forall x :: x in a + b <==> x in a + [n] + b && x != n
  {
    var q := a + [n] + b;
    assert q[|a|] == n;
    forall i | 0 <= i < |a| ensures a[i] != n { assert q[i] == a[i]; }
    forall i | 0 <= i < |b| ensures b[i] != n { assert q[|a| + 1 + i] == b[i]; }
  }

  /** timer_tree_walk: find a timer that expires at `key`, whichever of several it is. The search
      takes no more steps than the tree is high. */
  method TimerTreeWalk(root: Ptr, key: int, m: Mem, rt: Keys, ghost t: Shape) returns (found: Ptr, ghost steps: nat)
    requires Wheel(m, root, t, rt)
    ensures found != NULL ==> found in Nodes(t) && found in rt && rt[found] == key
    ensures found == NULL ==> forall x :: x in Nodes(t) ==> x in rt && rt[x] != key
    ensures Pow2(steps) <= (|Inorder(t)| + 1) * (|Inorder(t)| + 1)
  {
    var p := root;
    ghost var ctx, u := Top, t;
    steps := 0;
    InorderNodes(t);
    while p != NULL
      invariant Zip(m, root, ctx, u) && p == RootOf(u) && Plug(ctx, u) == t
      invariant UpTo(rt, Before(ctx), key - 1) && Beyond(rt, After(ctx), key)
      invariant steps + Height(u) <= Height(t)
      decreases u
    {
      ZipReads(m, root, ctx, u);
      SearchStep(rt, ctx, u);
      steps := steps + 1;
      if key < rt[p] {
        p := m[p].left;
        ctx, u := Step(L, u.n, u.color, u.right, ctx), u.left;
      } else if key > rt[p] {
        p := m[p].right;
        ctx, u := Step(R, u.n, u.color, u.left, ctx), u.right;
      } else {
        SearchBound(t, steps);
        return p, steps;
      }
      ZipUp(m, root, ctx, u);
    }
    found := NULL;
    SearchBound(t, steps);
    assert u.Leaf? by { ZipReads(m, root, ctx, u); }
    InorderPlug(ctx, Leaf);
    forall x | x in Nodes(t) ensures x in rt && rt[x] != key {
      assert x in Before(ctx) || x in After(ctx);
    }
  }

  lemma {:induction false} Pow2Monotone(a: nat, b: nat)
    requires a <= b
    ensures Pow2(a) <= Pow2(b)
  {
    if a >= b {
    } else {
      Pow2Monotone(a, b - 1);
    }
  }

  lemma SearchBound(t: Shape, steps: nat)
    requires RedBlack(t) && steps <= Height(t)
    ensures Pow2(steps) <= (|Inorder(t)| + 1) * (|Inorder(t)| + 1)
  {
    HeightBound(t);
    Pow2Monotone(steps, Height(t));
  }
}
