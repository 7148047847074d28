/**
  Augmented trees: each node carries a summary that a callback recomputes from the node and the
  summaries of its children. rb_augment_insert and rb_augment_erase_end call it on one path to
  the root and on the siblings along that path; the theorems here say that this repairs the
  summary of every node, whatever rotations the rebalancing made.
 */
module RbAugment {
  import opened Common
  import opened RbTree
  import opened RbLinks
  import opened RbWalk

  type Callback<!S> = (Ptr, Option<S>, Option<S>) -> S
  type Sums<S> = map<Ptr, S>

  function Val<S>(sm: Sums<S>, n: Ptr): Option<S> { if n != NULL && n in sm then Some(sm[n]) else None }

  /** The summary that a subtree should have. */
  function Summary<S>(f: Callback<S>, t: Shape): Option<S> {
    match t
    case Leaf => None
    case Node(l, n, _, r) => Some(f(n, Summary(f, l), Summary(f, r)))
  }

  /** Every node of `t` carries what the callback makes of its children's summaries. */
  ghost predicate Summed<S>(sm: Sums<S>, f: Callback<S>, t: Shape) {
    match t
    case Leaf => true
    case Node(l, n, _, r) =>
      n != NULL && n in sm && sm[n] == f(n, Val(sm, RootOf(l)), Val(sm, RootOf(r))) && Summed(sm, f, l) &&
      Summed(sm, f, r)
  }

  ghost predicate KidsSummed<S>(sm: Sums<S>, f: Callback<S>, t: Shape) {
    t.Node? ==> Summed(sm, f, t.left) && Summed(sm, f, t.right)
  }

  lemma {:induction false} SummedIsSummary<S>(sm: Sums<S>, f: Callback<S>, ctx: Path, t: Shape)
    requires Summed(sm, f, Plug(ctx, t))
    ensures Summed(sm, f, t) && Val(sm, RootOf(t)) == Summary(f, t)
    decreases Depth(ctx), t
  {
    if ctx.Top? {
    } else {
      SummedIsSummary(sm, f, ctx.up, Build(ctx.side, t, ctx.n, ctx.color, ctx.sib));
    }
    SummedRoot(sm, f, t);
  }

  lemma {:induction false} SummedRoot<S>(sm: Sums<S>, f: Callback<S>, t: Shape)
    requires Summed(sm, f, t)
    ensures Val(sm, RootOf(t)) == Summary(f, t)
  {
    if t.Leaf? {
    } else {
      SummedRoot(sm, f, t.left);
      SummedRoot(sm, f, t.right);
    }
  }

  lemma {:induction false} SummedFrame<S>(sm: Sums<S>, sm': Sums<S>, f: Callback<S>, t: Shape)
    requires Summed(sm, f, t) && forall x :: x in Nodes(t) && x in sm ==> x in sm' && sm'[x] == sm[x]
    ensures Summed(sm', f, t)
  {
    if t.Leaf? {
    } else {
      assert t.left.Node? ==> t.left.n in sm;
      assert t.right.Node? ==> t.right.n in sm;
      SummedFrame(sm, sm', f, t.left);
      SummedFrame(sm, sm', f, t.right);
    }
  }

  // ---------------------------------------------------------------- the path to the root

  ghost predicate FramesKids<S>(sm: Sums<S>, f: Callback<S>, ctx: Path) {
    match ctx
    case Top => true
    case Step(_, _, _, sib, up) => KidsSummed(sm, f, sib) && FramesKids(sm, f, up)
  }

  ghost predicate FramesSummed<S>(sm: Sums<S>, f: Callback<S>, ctx: Path) {
    match ctx
    case Top => true
    case Step(_, _, _, sib, up) => Summed(sm, f, sib) && FramesSummed(sm, f, up)
  }

  lemma {:induction false} FramesFrame<S>(sm: Sums<S>, sm': Sums<S>, f: Callback<S>, ctx: Path)
    requires FramesKids(sm, f, ctx) && forall x :: x in PathNodes(ctx) && x in sm ==> x in sm' && sm'[x] == sm[x]
    ensures FramesKids(sm', f, ctx)
  {
    if ctx.Top? {
    } else {
      if ctx.sib.Node? {
        SummedFrame(sm, sm', f, ctx.sib.left);
        SummedFrame(sm, sm', f, ctx.sib.right);
      }
      FramesFrame(sm, sm', f, ctx.up);
    }
  }

  /** The callback, run on one node. */
  function Recompute<S>(f: Callback<S>, sm: Sums<S>, m: Mem, n: Ptr): Sums<S>
    requires n in m
  {
    sm[n := f(n, Val(sm, m[n].left), Val(sm, m[n].right))]
  }

  lemma RecomputeSums<S>(f: Callback<S>, sm: Sums<S>, m: Mem, t: Shape, p: Ptr)
    requires Rep(m, t, p) && Distinct(t) && t.Node? && KidsSummed(sm, f, t)
    ensures Summed(Recompute(f, sm, m, t.n), f, t)
  {
    var sm' := Recompute(f, sm, m, t.n);
    assert t.left.Node? ==> t.left.n in Nodes(t.left);
    assert t.right.Node? ==> t.right.n in Nodes(t.right);
    SummedFrame(sm, sm', f, t.left);
    SummedFrame(sm, sm', f, t.right);
  }

  /** rb_augment_path repairs every summary when all damage is on the path and its siblings. */
  method AugmentPath<S>(node0: Ptr, f: Callback<S>, m: Mem, sm0: Sums<S>, ghost root: Ptr, ghost ctx0: Path,
                        ghost t0: Shape)
    returns (sm: Sums<S>)
    requires Zip(m, root, ctx0, t0) && t0.Node? && t0.n == node0
    requires KidsSummed(sm0, f, t0) && FramesKids(sm0, f, ctx0)
    ensures Summed(sm, f, Plug(ctx0, t0))
  {
    var node := node0;
    sm := sm0;
    ghost var ctx, t := ctx0, t0;
    while true
      invariant Zip(m, root, ctx, t) && t.Node? && t.n == node && Plug(ctx, t) == Plug(ctx0, t0)
      invariant KidsSummed(sm, f, t) && FramesKids(sm, f, ctx)
      decreases Depth(ctx)
    {
      ZipReads(m, root, ctx, t);
      ghost var sm1 := sm;
      RecomputeSums(f, sm, m, t, ParentOf(ctx));
      assert node in Nodes(t);
      sm := Recompute(f, sm, m, node);
      FramesFrame(sm1, sm, f, ctx);
      var parent := m[node].parent;
      if parent == NULL {
        return;
      }
      sm := AugmentSibling(node, parent, f, m, sm, root, ctx, t);
      ZipUp(m, root, ctx, t);
      t, ctx := Build(ctx.side, t, ctx.n, ctx.color, ctx.sib), ctx.up;
      node := parent;
    }
  }

  /** The call on the sibling; a left child without a sibling is recomputed instead. */
  method AugmentSibling<S>(node: Ptr, parent: Ptr, f: Callback<S>, m: Mem, sm0: Sums<S>, ghost root: Ptr,
                           ghost ctx: Path, ghost t: Shape)
    returns (sm: Sums<S>)
    requires Zip(m, root, ctx, t) && t.Node? && t.n == node && ctx.Step? && ctx.n == parent && parent in m
    requires Summed(sm0, f, t) && FramesKids(sm0, f, ctx)
    ensures Summed(sm, f, t) && Summed(sm, f, ctx.sib) && FramesKids(sm, f, ctx.up)
  {
    sm := sm0;
    ZipReads(m, root, ctx, t);
    assert Rep(m, ctx.sib, parent);
    assert ctx.sib.Node? ==> ctx.sib.n in Nodes(ctx.sib);
    assert t.n in Nodes(t);
    if ctx.sib.Node? { RecomputeSums(f, sm, m, ctx.sib, parent); }
    if node == m[parent].left && m[parent].right != NULL {
      sm := Recompute(f, sm, m, m[parent].right);
    } else if m[parent].left != NULL {
      RecomputeSums(f, sm, m, t, parent);
      sm := Recompute(f, sm, m, m[parent].left);
    }
    if ctx.sib.Node? { SummedFrame(sm0, sm, f, t); }
    FramesFrame(sm0, sm, f, ctx.up);
  }

  // ---------------------------------------------------------------- where the damage is

  /** All damage in `t` lies at `z`, on the path from the root of `t` to `z`, and at the siblings
      of that path. When `deep`, the children of `z` may be damaged as well. */
  ghost predicate Damaged<S>(sm: Sums<S>, f: Callback<S>, t: Shape, z: Ptr, deep: bool) {
    t.Node? &&
    ((t.n == z && (if deep then KidsSummed(sm, f, t.left) && KidsSummed(sm, f, t.right) else KidsSummed(sm, f, t))) ||
     (Damaged(sm, f, t.left, z, deep) && KidsSummed(sm, f, t.right)) ||
     (Damaged(sm, f, t.right, z, deep) && KidsSummed(sm, f, t.left)))
  }

  /** All damage in `t` lies at `z` and on the path from the root of `t` to `z`. */
  ghost predicate PathDamaged<S>(sm: Sums<S>, f: Callback<S>, t: Shape, z: Ptr) {
    t.Node? &&
    ((t.n == z && KidsSummed(sm, f, t)) ||
     (PathDamaged(sm, f, t.left, z) && Summed(sm, f, t.right)) ||
     (PathDamaged(sm, f, t.right, z) && Summed(sm, f, t.left)))
  }

  lemma {:induction false} PathDamagedIsDamaged<S>(sm: Sums<S>, f: Callback<S>, t: Shape, z: Ptr, deep: bool)
    requires PathDamaged(sm, f, t, z)
    ensures Damaged(sm, f, t, z, deep)
  {
    if t.n == z && KidsSummed(sm, f, t) {
    } else if PathDamaged(sm, f, t.left, z) && Summed(sm, f, t.right) {
      PathDamagedIsDamaged(sm, f, t.left, z, deep);
    } else {
      PathDamagedIsDamaged(sm, f, t.right, z, deep);
    }
  }

  lemma {:induction false} DamagedPlug<S>(sm: Sums<S>, f: Callback<S>, ctx: Path, t: Shape, z: Ptr, deep: bool)
    requires Damaged(sm, f, t, z, deep) && FramesKids(sm, f, ctx)
    ensures Damaged(sm, f, Plug(ctx, t), z, deep) && Damaged(sm, f, Plug(ctx, t).Blacken(), z, deep)
  {
    if ctx.Top? {
    } else {
      DamagedPlug(sm, f, ctx.up, Build(ctx.side, t, ctx.n, ctx.color, ctx.sib), z, deep);
    }
  }

  lemma {:induction false} FramesWeaken<S>(sm: Sums<S>, f: Callback<S>, ctx: Path)
    requires FramesSummed(sm, f, ctx)
    ensures FramesKids(sm, f, ctx)
  {
    if ctx.Top? {
    } else {
      FramesWeaken(sm, f, ctx.up);
    }
  }

  /** From the root, the damaged place can be brought into view with sound frames around it. */
  lemma {:induction false} DamagedView<S>(sm: Sums<S>, f: Callback<S>, ctx0: Path, t0: Shape, z: Ptr, deep: bool)
    returns (ctx: Path, t: Shape)
    requires Damaged(sm, f, t0, z, deep) && FramesKids(sm, f, ctx0)
    ensures Plug(ctx, t) == Plug(ctx0, t0) && t.Node? && t.n == z && FramesKids(sm, f, ctx)
    ensures if deep then KidsSummed(sm, f, t.left) && KidsSummed(sm, f, t.right) else KidsSummed(sm, f, t)
    decreases t0
  {
    var Node(l, n, c, r) := t0;
    if n == z && (if deep then KidsSummed(sm, f, l) && KidsSummed(sm, f, r) else KidsSummed(sm, f, t0)) {
      ctx, t := ctx0, t0;
    } else if Damaged(sm, f, l, z, deep) && KidsSummed(sm, f, r) {
      ctx, t := DamagedView(sm, f, Step(L, n, c, r, ctx0), l, z, deep);
    } else {
      ctx, t := DamagedView(sm, f, Step(R, n, c, l, ctx0), r, z, deep);
    }
  }

  // ---------------------------------------------------------------- insertion

  /** Rebalancing after an insertion damages summaries only around the path to the new node. */
  lemma {:induction false} InsertDamage<S>(sm: Sums<S>, f: Callback<S>, ctx: Path, t: Shape, x: Ptr)
    requires t.Node? && PathDamaged(sm, f, t, x) && FramesSummed(sm, f, ctx)
    ensures Damaged(sm, f, InsertFix(ctx, t), x, true)
    decreases Depth(ctx)
  {
    FramesWeaken(sm, f, ctx);
    if ctx.Step? && ctx.color.Red? && ctx.up.Step? {
      var Step(s, p, _, sib, Step(s2, g, _, uncle, up)) := ctx;
      assert FramesSummed(sm, f, ctx.up) && Depth(ctx.up) == 1 + Depth(up);
      if uncle.IsRed() {
        assert PathDamaged(sm, f, Build(s, t, p, Black, sib), x);
        assert Summed(sm, f, uncle.Blacken());
        InsertDamage(sm, f, up, InsertRecolored(ctx, t), x);
      } else if s == s2 {
        PathDamagedIsDamaged(sm, f, t, x, true);
        DamagedPlug(sm, f, up, Build(s2, t, p, Black, Build(s2, sib, g, Red, uncle)), x, true);
      } else {
        DoubleTurnDamage(sm, f, ctx, t, x);
        DamagedPlug(sm, f, up, Build(s2, Build(s2, sib, p, Red, t.Child(s2)), t.n, Black,
                                     Build(s2, t.Child(s), g, Red, uncle)), x, true);
      }
    } else {
      PathDamagedIsDamaged(sm, f, t, x, true);
      DamagedPlug(sm, f, ctx, t, x, true);
    }
  }

  lemma DoubleTurnDamage<S>(sm: Sums<S>, f: Callback<S>, ctx: Path, t: Shape, x: Ptr)
    requires t.Node? && PathDamaged(sm, f, t, x) && FramesSummed(sm, f, ctx)
    requires ctx.Step? && ctx.up.Step? && ctx.side != ctx.up.side
    ensures var Step(s, p, _, sib, Step(s2, g, _, uncle, up)) := ctx;
            Damaged(sm, f, Build(s2, Build(s2, sib, p, Red, t.Child(s2)), t.n, Black,
                                 Build(s2, t.Child(s), g, Red, uncle)), x, true)
  {
    var Step(s, p, _, sib, Step(s2, g, _, uncle, up)) := ctx;
    var a, b := Build(s2, sib, p, Red, t.Child(s2)), Build(s2, t.Child(s), g, Red, uncle);
    if t.n == x && KidsSummed(sm, f, t) {
    } else if PathDamaged(sm, f, t.Child(s2), x) && Summed(sm, f, t.Child(s)) {
      PathDamagedIsDamaged(sm, f, t.Child(s2), x, true);
      assert Damaged(sm, f, a, x, true);
    } else {
      PathDamagedIsDamaged(sm, f, t.Child(s), x, true);
      assert Damaged(sm, f, b, x, true);
    }
  }

  // ---------------------------------------------------------------- erasure

  /** The node rb_augment_erase_end starts from, around the place where a node was removed. */
  ghost predicate Deepest<S>(sm: Sums<S>, f: Callback<S>, ctx: Path, t: Shape, z: Ptr) {
    PathDamaged(sm, f, t, z) || (ctx.Step? && z == ctx.n && Summed(sm, f, t))
  }

  lemma DeepestUp<S>(sm: Sums<S>, f: Callback<S>, ctx: Path, t: Shape, z: Ptr, sib: Shape, c: Color)
    requires Deepest(sm, f, ctx, t, z) && ctx.Step? && Summed(sm, f, sib)
    ensures PathDamaged(sm, f, Build(ctx.side, t, ctx.n, c, sib), z)
  {
  }

  /** Rebalancing after a removal damages summaries only around the path to the deepest node. */
  lemma {:induction false} EraseDamage<S>(sm: Sums<S>, f: Callback<S>, ctx: Path, t: Shape, z: Ptr)
    requires Deepest(sm, f, ctx, t, z) && FramesSummed(sm, f, ctx)
    ensures Damaged(sm, f, EraseFix(ctx, t), z, false)
    decreases Depth(ctx), if t.IsRed() then 0 else 1, 1
  {
    if t.IsRed() || ctx.Top? {
      SpliceDamage(sm, f, ctx, t.Blacken(), z);
    } else if ctx.sib.IsRed() {
      assert Depth(RedSiblingTurned(ctx).up) == Depth(ctx);
      EraseBlackSiblingDamage(sm, f, RedSiblingTurned(ctx), t, z);
    } else {
      EraseBlackSiblingDamage(sm, f, ctx, t, z);
    }
  }

  lemma SpliceDamage<S>(sm: Sums<S>, f: Callback<S>, ctx: Path, t: Shape, z: Ptr)
    requires Deepest(sm, f, ctx, t, z) && FramesSummed(sm, f, ctx)
    ensures Damaged(sm, f, Plug(ctx, t), z, false)
  {
    FramesWeaken(sm, f, ctx);
    if PathDamaged(sm, f, t, z) {
      PathDamagedIsDamaged(sm, f, t, z, false);
      DamagedPlug(sm, f, ctx, t, z, false);
    } else {
      DamagedPlug(sm, f, ctx.up, Build(ctx.side, t, ctx.n, ctx.color, ctx.sib), z, false);
    }
  }

  lemma {:induction false} EraseBlackSiblingDamage<S>(sm: Sums<S>, f: Callback<S>, ctx: Path, t: Shape, z: Ptr)
    requires ctx.Step? && !t.IsRed() && Deepest(sm, f, ctx, t, z) && FramesSummed(sm, f, ctx)
    ensures Damaged(sm, f, EraseFixBlackSibling(ctx, t), z, false)
    decreases Depth(ctx) - (if ctx.color.Red? then 1 else 0), 1, 0
  {
    var Step(s, p, c, o, up) := ctx;
    if o.Leaf? {
      SpliceDamage(sm, f, ctx, t, z);
    } else if !o.left.IsRed() && !o.right.IsRed() {
      DeepestUp(sm, f, ctx, t, z, o.(color := Red), c);
      EraseDamage(sm, f, up, Build(s, t, p, c, o.(color := Red)), z);
    } else {
      var near, far := o.Child(s), o.Child(s.Other());
      var inner := if far.IsRed() then near else near.Child(s);
      assert Summed(sm, f, near) && Summed(sm, f, far) && Summed(sm, f, inner);
      DeepestUp(sm, f, ctx, t, z, inner, Black);
      PathDamagedIsDamaged(sm, f, Build(s, t, p, Black, inner), z, false);
      assert far.IsRed() ==> KidsSummed(sm, f, far.Blacken());
      FramesWeaken(sm, f, up);
      DamagedPlug(sm, f, up, EraseTurned(ctx, t), z, false);
    }
  }

  lemma {:induction false} SummedFrames<S>(sm: Sums<S>, f: Callback<S>, ctx: Path, t: Shape)
    requires Summed(sm, f, Plug(ctx, t))
    ensures FramesSummed(sm, f, ctx) && Summed(sm, f, t) && (ctx.Step? ==> ctx.n != NULL)
  {
    if ctx.Top? {
    } else {
      SummedFrames(sm, f, ctx.up, Build(ctx.side, t, ctx.n, ctx.color, ctx.sib));
    }
  }

  lemma {:induction false} AppendFrames<S>(sm: Sums<S>, f: Callback<S>, a: Path, b: Path)
    ensures FramesSummed(sm, f, Append(a, b)) <==> FramesSummed(sm, f, a) && FramesSummed(sm, f, b)
  {
    if a.Top? {
    } else {
      AppendFrames(sm, f, a.up, b);
    }
  }

  /** Where a node was removed, everything around is still summed up. */
  lemma SpotSummed<S>(sm: Sums<S>, f: Callback<S>, ctx: Path, t: Shape)
    requires t.Node? && Summed(sm, f, Plug(ctx, t))
    ensures var (c, u, _) := Spot(ctx, t); FramesSummed(sm, f, c) && Summed(sm, f, u) && (c.Step? ==> c.n != NULL)
  {
    SummedFrames(sm, f, ctx, t);
    if t.left.Node? && t.right.Node? {
      var (path, m) := Leftmost(Top, t.right);
      LeftmostPlug(Top, t.right);
      SummedFrames(sm, f, path, m);
      AppendFrames(sm, f, path, Step(R, m.n, t.color, t.left, ctx));
    }
  }

  /** rb_augment_insert, called after the new red leaf `node` has been hung at an empty link and
      rb_insert_color has run: every summary is right again. */
  method AugmentInsert<S>(node0: Ptr, f: Callback<S>, m: Mem, sm0: Sums<S>, ghost root: Ptr, ghost ctx: Path)
    returns (sm: Sums<S>)
    requires Summed(sm0, f, Plug(ctx, Leaf))
    requires Linked(m, root, InsertFix(ctx, Node(Leaf, node0, Red, Leaf)))
    ensures Summed(sm, f, InsertFix(ctx, Node(Leaf, node0, Red, Leaf)))
  {
    ghost var leaf := Node(Leaf, node0, Red, Leaf);
    ghost var t := InsertFix(ctx, leaf);
    SummedFrames(sm0, f, ctx, Leaf);
    InsertDamage(sm0, f, ctx, leaf, node0);
    ghost var c, u := DamagedView(sm0, f, Top, t, node0, true);
    ZipTop(m, root, c, u);
    ZipReads(m, root, c, u);
    var node := node0;
    ghost var c' := c;
    ghost var u' := u;
    if m[node].left != NULL {
      c', u' := Step(L, u.n, u.color, u.right, c), u.left;
      ZipUp(m, root, c', u');
      node := m[node].left;
    } else if m[node].right != NULL {
      c', u' := Step(R, u.n, u.color, u.left, c), u.right;
      ZipUp(m, root, c', u');
      node := m[node].right;
    } else {
      ReplaceReads(m, root, c, u);
    }
    sm := AugmentPath(node, f, m, sm0, root, c', u');
  }

  /** rb_augment_erase_begin: the deepest node on the rebalance path that stays in the tree. */
  method AugmentEraseBegin(node: Ptr, m: Mem, ghost root: Ptr, ghost ctx: Path, ghost t: Shape) returns (deepest: Ptr)
    requires Zip(m, root, ctx, t) && t.Node? && t.n == node
    ensures var (c, u, _) := Spot(ctx, t); deepest == if u.Node? then u.n else ParentOf(c)
  {
    ZipReads(m, root, ctx, t);
    ReplaceReads(m, root, ctx, t);
    if m[node].right == NULL && m[node].left == NULL {
      deepest := m[node].parent;
    } else if m[node].right == NULL {
      deepest := m[node].left;
    } else if m[node].left == NULL {
      deepest := m[node].right;
    } else {
      SuccessorReads(m, root, ctx, t);
      SuccessorApart(m, root, ctx, t);
      LeftmostPlug(Top, t.right);
      ghost var (path, s) := Leftmost(Top, t.right);
      InorderPlug(path, s);
      deepest := Neighbor(R, node, m, root, ctx, t);
      if m[deepest].right != NULL {
        deepest := m[deepest].right;
      } else if m[deepest].parent != node {
        deepest := m[deepest].parent;
      }
    }
  }

  /** rb_augment_erase_end, called with that node after rb_erase: every summary is right again. */
  method AugmentEraseEnd<S>(deepest: Ptr, f: Callback<S>, m: Mem, sm0: Sums<S>, ghost root: Ptr, ghost ctx: Path,
                            ghost t: Shape)
    returns (sm: Sums<S>)
    requires t.Node? && Summed(sm0, f, Plug(ctx, t)) && Linked(m, root, RbTree.Erase(ctx, t))
    requires var (c, u, _) := Spot(ctx, t); deepest == if u.Node? then u.n else ParentOf(c)
    ensures Summed(sm, f, RbTree.Erase(ctx, t))
  {
    sm := sm0;
    ghost var (c, u, color) := Spot(ctx, t);
    SpotSummed(sm, f, ctx, t);
    if deepest != NULL {
      if color.Black? { EraseDamage(sm, f, c, u, deepest); } else { SpliceDamage(sm, f, c, u, deepest); }
      ghost var c', u' := DamagedView(sm, f, Top, RbTree.Erase(ctx, t), deepest, false);
      ZipTop(m, root, c', u');
      sm := AugmentPath(deepest, f, m, sm, root, c', u');
    }
  }
}
