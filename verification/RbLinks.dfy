/**
  The linked form of the red-black tree. Memory is a map from addresses to nodes, and the
  operations of cmn/rbtree.c update it step by step. Each is proved against the function of
  module RbTree that says what it does to the shape of the tree.
 */
module RbLinks {
  import opened Common
  import opened RbTree

  type Ptr = int
  const NULL: Ptr := 0

  /** A struct rb_node. */
  datatype Links = Links(left: Ptr, right: Ptr, parent: Ptr, color: Color) {
    function Get(s: Side): Ptr { if s.L? then left else right }

    function Put(s: Side, p: Ptr): Links { if s.L? then this.(left := p) else this.(right := p) }
  }

  type Mem = map<Ptr, Links>
  type Shape = Tree<Ptr>
  type Path = Ctx<Ptr>

  function RootOf(t: Shape): Ptr { if t.Leaf? then NULL else t.n }

  function ParentOf(ctx: Path): Ptr { if ctx.Top? then NULL else ctx.n }

  ghost function Nodes(t: Shape): set<Ptr> {
    match t
    case Leaf => {}
    case Node(l, n, _, r) => {n} + Nodes(l) + Nodes(r)
  }

  ghost function PathNodes(ctx: Path): set<Ptr> {
    match ctx
    case Top => {}
    case Step(_, n, _, sib, up) => {n} + Nodes(sib) + PathNodes(up)
  }

  ghost predicate Distinct(t: Shape) {
    match t
    case Leaf => true
    case Node(l, n, _, r) =>
      n !in Nodes(l) && n !in Nodes(r) && Nodes(l) !! Nodes(r) && Distinct(l) && Distinct(r)
  }

  ghost predicate DistinctPath(ctx: Path) {
    match ctx
    case Top => true
    case Step(_, n, _, sib, up) =>
      n !in Nodes(sib) && n !in PathNodes(up) && Nodes(sib) !! PathNodes(up) && Distinct(sib) && DistinctPath(up)
  }

  ghost predicate Apart(ctx: Path, t: Shape) {
    Distinct(t) && DistinctPath(ctx) && Nodes(t) !! PathNodes(ctx)
  }

  /** The nodes of `t` are linked in memory as `t` says, below the parent `p`. */
  ghost predicate Rep(m: Mem, t: Shape, p: Ptr) {
    match t
    case Leaf => true
    case Node(l, n, c, r) =>
      n != NULL && n in m && m[n] == Links(RootOf(l), RootOf(r), p, c) && Rep(m, l, n) && Rep(m, r, n)
  }

  /** The frames of `ctx` are linked in memory around the child `h`. */
  ghost predicate RepPath(m: Mem, ctx: Path, h: Ptr) {
    match ctx
    case Top => true
    case Step(s, n, c, sib, up) =>
      n != NULL && n in m &&
      m[n].Get(s) == h && m[n].Get(s.Other()) == RootOf(sib) && m[n].parent == ParentOf(up) && m[n].color == c &&
      Rep(m, sib, n) && RepPath(m, up, n)
  }

  /** The tree hanging from `root`, seen from its subtree `t`. */
  ghost predicate Zip(m: Mem, root: Ptr, ctx: Path, t: Shape) {
    Apart(ctx, t) && Rep(m, t, ParentOf(ctx)) && RepPath(m, ctx, RootOf(t)) && root == RootOf(Plug(ctx, t))
  }

  ghost predicate SameOn(m: Mem, m': Mem, s: set<Ptr>) {
    forall x :: x in s ==> (x in m <==> x in m') && (x in m ==> m[x] == m'[x])
  }

  /** Nothing but the nodes in `s` has changed. */
  ghost predicate Frame(m: Mem, m': Mem, s: set<Ptr>) {
    m.Keys == m'.Keys && forall x :: x in m && x !in s ==> m[x] == m'[x]
  }

  lemma {:induction false} RepFrame(m: Mem, m': Mem, t: Shape, p: Ptr)
    requires Rep(m, t, p) && SameOn(m, m', Nodes(t))
    ensures Rep(m', t, p)
  {
    match t
    case Leaf =>
    case Node(l, n, c, r) =>
      RepFrame(m, m', l, n);
      RepFrame(m, m', r, n);
  }

  lemma {:induction false} RepPathFrame(m: Mem, m': Mem, ctx: Path, h: Ptr)
    requires RepPath(m, ctx, h) && SameOn(m, m', PathNodes(ctx))
    ensures RepPath(m', ctx, h)
  {
    match ctx
    case Top =>
    case Step(s, n, c, sib, up) =>
      RepFrame(m, m', sib, n);
      RepPathFrame(m, m', up, n);
  }

  /** Giving the root of a subtree a new parent moves the whole subtree. */
  lemma RepMoved(m: Mem, m': Mem, t: Shape, p: Ptr, p': Ptr)
    requires Rep(m, t, p) && Distinct(t) && SameOn(m, m', Nodes(t) - {RootOf(t)})
    requires t.Node? ==> t.n in m' && m'[t.n] == m[t.n].(parent := p')
    ensures Rep(m', t, p')
  {
    if t.Node? {
      RepFrame(m, m', t.left, t.n);
      RepFrame(m, m', t.right, t.n);
    }
  }

  /** A frame can be given a new hole, or a new colour. */
  lemma RepPathHole(m: Mem, m': Mem, ctx: Path, h: Ptr, h': Ptr)
    requires RepPath(m, ctx, h) && DistinctPath(ctx) && SameOn(m, m', PathNodes(ctx) - {ParentOf(ctx)})
    requires ctx.Step? ==> ctx.n in m' && m'[ctx.n] == m[ctx.n].Put(ctx.side, h')
    ensures RepPath(m', ctx, h')
  {
    if ctx.Step? {
      RepFrame(m, m', ctx.sib, ctx.n);
      RepPathFrame(m, m', ctx.up, ctx.n);
    }
  }

  lemma {:induction false} RootOfPlug(ctx: Path, t: Shape, u: Shape)
    ensures RootOf(Plug(ctx, t)) == if ctx.Top? then RootOf(t) else RootOf(Plug(ctx, u))
  {
    match ctx
    case Top =>
    case Step(s, n, c, sib, up) => RootOfPlug(up, Build(s, t, n, c, sib), Build(s, u, n, c, sib));
  }

  /** The shape after turning the root of `t` down to side `s`. */
  function Rotated<N>(s: Side, t: Tree<N>): Tree<N>
    requires t.Node? && t.Child(s.Other()).Node?
  {
    var y := t.Child(s.Other());
    Build(s, Build(s, t.Child(s), t.n, t.color, y.Child(s)), y.n, y.color, y.Child(s.Other()))
  }

  lemma DistinctRotated(s: Side, t: Shape)
    requires Distinct(t) && t.Node? && t.Child(s.Other()).Node?
    ensures Distinct(Rotated(s, t)) && Nodes(Rotated(s, t)) == Nodes(t)
  {
    var y := t.Child(s.Other());
    var x := Build(s, t.Child(s), t.n, t.color, y.Child(s));
    assert Nodes(x) == {t.n} + Nodes(t.Child(s)) + Nodes(y.Child(s));
    assert Nodes(y) == {y.n} + Nodes(y.Child(s)) + Nodes(y.Child(s.Other()));
    assert Nodes(t) == {t.n} + Nodes(t.Child(s)) + Nodes(y);
    assert Distinct(y);
    assert Distinct(x);
  }

  /** The four nodes a rotation touches are different nodes. */
  lemma RotateNodes(s: Side, m: Mem, ctx: Path, t: Shape)
    requires t.Node? && t.Child(s.Other()).Node?
    requires Apart(ctx, t) && Rep(m, t, ParentOf(ctx)) && RepPath(m, ctx, t.n)
    ensures var x, p := t.n, ParentOf(ctx);
            x in m && m[x].parent == p &&
            var y := m[x].Get(s.Other());
            y == t.Child(s.Other()).n && y in m &&
            var mid := m[y].Get(s);
            mid == RootOf(t.Child(s.Other()).Child(s)) &&
            NULL !in {x, y} && x != y && {x, y} !! {p, mid} &&
            (mid != NULL ==> mid in m && mid != p) &&
            (p != NULL ==> p in m && m[p].Get(ctx.side) == x && m[p].Get(ctx.side.Other()) != x)
  {
    var u := t.Child(s.Other());
    assert Rep(m, u, t.n) && Rep(m, u.Child(s), u.n);
    assert Distinct(u);
    assert u.n in Nodes(u) && RootOf(u.Child(s)) in Nodes(u.Child(s)) + {NULL};
    assert Nodes(u.Child(s)) <= Nodes(u) <= Nodes(t);
    assert ctx.Step? ==> ctx.n in PathNodes(ctx) && RootOf(ctx.sib) in PathNodes(ctx) + {NULL};
  }

  /** The memory a rotation leaves. */
  ghost predicate RotateLinks(s: Side, x: Ptr, m: Mem, m': Mem, side: Side)
    requires x in m && m[x].Get(s.Other()) in m
  {
    var y, p := m[x].Get(s.Other()), m[x].parent;
    var mid := m[y].Get(s);
    Frame(m, m', {x, y, mid, p} - {NULL}) &&
    m'[x] == m[x].Put(s.Other(), mid).(parent := y) &&
    m'[y] == m[y].Put(s, x).(parent := p) &&
    (mid != NULL && mid in m ==> m'[mid] == m[mid].(parent := x)) &&
    (p != NULL && p in m ==> m'[p] == m[p].Put(side, y))
  }

  lemma RotateZip(s: Side, m: Mem, m': Mem, ctx: Path, t: Shape, side: Side)
    requires t.Node? && t.Child(s.Other()).Node?
    requires Apart(ctx, t) && Rep(m, t, ParentOf(ctx)) && RepPath(m, ctx, t.n)
    requires m[t.n].Get(s.Other()) in m && RotateLinks(s, t.n, m, m', side)
    requires ctx.Step? ==> side == ctx.side
    ensures Rep(m', Rotated(s, t), ParentOf(ctx)) && RepPath(m', ctx, t.Child(s.Other()).n)
  {
    RotateNodes(s, m, ctx, t);
    var u := t.Child(s.Other());
    var a, b, c := t.Child(s), u.Child(s), u.Child(s.Other());
    assert Rep(m, u, t.n) && Rep(m, a, t.n) && Rep(m, b, u.n) && Rep(m, c, u.n);
    assert Distinct(u) && Distinct(a) && Distinct(b) && Distinct(c);
    assert Nodes(u) == {u.n} + Nodes(b) + Nodes(c) && Nodes(t) == {t.n} + Nodes(u) + Nodes(a);
    RepFrame(m, m', a, t.n);
    RepMoved(m, m', b, u.n, t.n);
    RepFrame(m, m', c, u.n);
    RepPathHole(m, m', ctx, t.n, u.n);
  }

  lemma RotateDone(s: Side, m: Mem, m': Mem, root: Ptr, root': Ptr, ctx: Path, t: Shape, side: Side)
    requires Zip(m, root, ctx, t) && t.Node? && t.Child(s.Other()).Node?
    requires t.n in m && m[t.n].Get(s.Other()) in m && RotateLinks(s, t.n, m, m', side)
    requires ctx.Step? ==> side == ctx.side
    requires root' == if ctx.Step? then root else t.Child(s.Other()).n
    ensures Zip(m', root', ctx, Rotated(s, t)) && Frame(m, m', Nodes(t) + PathNodes(ctx))
  {
    RotateNodes(s, m, ctx, t);
    RotateZip(s, m, m', ctx, t, side);
    DistinctRotated(s, t);
    RootOfPlug(ctx, Rotated(s, t), t);
    var u := t.Child(s.Other());
    assert Nodes(t) == {t.n} + Nodes(u) + Nodes(t.Child(s));
    assert Nodes(u) == {u.n} + Nodes(u.Child(s)) + Nodes(u.Child(s.Other()));
  }

  method Rotate(s: Side, x: Ptr, m0: Mem, root0: Ptr, ghost ctx: Path, ghost t: Shape) returns (m: Mem, root: Ptr)
    requires t.Node? && t.n == x && t.Child(s.Other()).Node?
    requires Zip(m0, root0, ctx, t)
    ensures Zip(m, root, ctx, Rotated(s, t))
    ensures Frame(m0, m, Nodes(t) + PathNodes(ctx))
  {
    RotateNodes(s, m0, ctx, t);
    m, root := m0, root0;
    var y := m[x].Get(s.Other());
    var p := m[x].parent;
    var mid := m[y].Get(s);
    m := m[x := m[x].Put(s.Other(), mid)];
    if mid != NULL {
      m := m[mid := m[mid].(parent := x)];
    }
    m := m[y := m[y].Put(s, x)];
    m := m[y := m[y].(parent := p)];
    if p != NULL {
      if x == m[p].Get(s) {
        m := m[p := m[p].Put(s, y)];
      } else {
        m := m[p := m[p].Put(s.Other(), y)];
      }
    } else {
      root := y;
    }
    m := m[x := m[x].(parent := y)];

    ghost var side := if ctx.Step? then ctx.side else s;
    RotateDone(s, m0, m, root0, root, ctx, t, side);
  }

  // ---------------------------------------------------------------- moving about in the tree

  /** The tree hanging from `root` has the shape `t`. */
  ghost predicate Linked(m: Mem, root: Ptr, t: Shape) { Zip(m, root, Top, t) }

  /** Looking from a child or from its parent is the same. */
  lemma ZipUp(m: Mem, root: Ptr, ctx: Path, t: Shape)
    requires ctx.Step?
    ensures var t' := Build(ctx.side, t, ctx.n, ctx.color, ctx.sib);
            (Zip(m, root, ctx, t) <==> Zip(m, root, ctx.up, t')) &&
            Nodes(t) + PathNodes(ctx) == Nodes(t') + PathNodes(ctx.up)
  {
    var Step(s, n, c, sib, up) := ctx;
    var t' := Build(s, t, n, c, sib);
    assert Nodes(t') == {n} + Nodes(t) + Nodes(sib);
  }

  lemma {:induction false} ZipTop(m: Mem, root: Ptr, ctx: Path, t: Shape)
    ensures Zip(m, root, ctx, t) <==> Linked(m, root, Plug(ctx, t))
    ensures Nodes(t) + PathNodes(ctx) == Nodes(Plug(ctx, t))
  {
    if ctx.Top? {
    } else {
      ZipUp(m, root, ctx, t);
      ZipTop(m, root, ctx.up, Build(ctx.side, t, ctx.n, ctx.color, ctx.sib));
    }
  }

  /** Painting the root of the subtree in view. */
  lemma ZipPaint(m: Mem, root: Ptr, ctx: Path, t: Shape, c: Color)
    requires Zip(m, root, ctx, t) && t.Node?
    ensures t.n in m && t.n != NULL && Zip(m[t.n := m[t.n].(color := c)], root, ctx, t.(color := c))
    ensures Nodes(t.(color := c)) == Nodes(t)
  {
    var m' := m[t.n := m[t.n].(color := c)];
    RepFrame(m, m', t.left, t.n);
    RepFrame(m, m', t.right, t.n);
    RepPathFrame(m, m', ctx, t.n);
    RootOfPlug(ctx, t, t.(color := c));
  }

  /** Looking at the sibling instead. */
  lemma ZipAcross(m: Mem, root: Ptr, ctx: Path, t: Shape)
    requires ctx.Step?
    ensures var ctx' := Step(ctx.side.Other(), ctx.n, ctx.color, t, ctx.up);
            (Zip(m, root, ctx, t) <==> Zip(m, root, ctx', ctx.sib)) &&
            Nodes(t) + PathNodes(ctx) == Nodes(ctx.sib) + PathNodes(ctx')
  {
    ZipUp(m, root, ctx, t);
    ZipUp(m, root, Step(ctx.side.Other(), ctx.n, ctx.color, t, ctx.up), ctx.sib);
  }

  /** What the links of the node in view and of its parent say. */
  lemma ZipReads(m: Mem, root: Ptr, ctx: Path, t: Shape)
    requires Zip(m, root, ctx, t)
    ensures t.Node? ==>
            t.n != NULL && t.n in m && m[t.n] == Links(RootOf(t.left), RootOf(t.right), ParentOf(ctx), t.color)
    ensures ctx.Step? ==>
              ctx.n != NULL && ctx.n in m &&
              m[ctx.n] ==
              Links(RootOf(t), RootOf(t), ParentOf(ctx.up), ctx.color).Put(ctx.side.Other(), RootOf(ctx.sib)) &&
              (RootOf(t) == RootOf(ctx.sib) ==> t.Leaf? && ctx.sib.Leaf?)
    ensures ctx.Top? ==> root == RootOf(t)
    ensures ctx.Step? ==> root != RootOf(t)
  {
    if ctx.Step? {
      assert RootOf(ctx.sib) in Nodes(ctx.sib) + {NULL};
      assert Rep(m, ctx.sib, ctx.n);
      RootInPath(ctx, t);
      NoNull(m, ctx, t);
    }
  }

  lemma {:induction false} NoNullBelow(m: Mem, t: Shape, p: Ptr)
    requires Rep(m, t, p)
    ensures NULL !in Nodes(t) && Nodes(t) <= m.Keys
  {
    if t.Leaf? {
    } else {
      NoNullBelow(m, t.left, t.n);
      NoNullBelow(m, t.right, t.n);
    }
  }

  lemma {:induction false} NoNull(m: Mem, ctx: Path, t: Shape)
    requires RepPath(m, ctx, RootOf(t))
    ensures NULL !in PathNodes(ctx) && PathNodes(ctx) <= m.Keys
  {
    if ctx.Top? {
    } else {
      NoNullBelow(m, ctx.sib, ctx.n);
      NoNull(m, ctx.up, Build(ctx.side, t, ctx.n, ctx.color, ctx.sib));
    }
  }

  lemma {:induction false} RootInPath(ctx: Path, t: Shape)
    requires ctx.Step?
    ensures RootOf(Plug(ctx, t)) in PathNodes(ctx)
  {
    if ctx.up.Top? {
    } else {
      RootInPath(ctx.up, Build(ctx.side, t, ctx.n, ctx.color, ctx.sib));
    }
  }

  method InsertRecolor(node: Ptr, parent: Ptr, gparent: Ptr, uncle: Ptr, m0: Mem, ghost root: Ptr, ghost ctx: Path,
                       ghost t: Shape)
    returns (m: Mem)
    requires Zip(m0, root, ctx, t) && t.Node? && ctx.Step? && ctx.up.Step? && ctx.up.sib.Node?
    requires node == t.n && parent == ctx.n && gparent == ctx.up.n && uncle == ctx.up.sib.n
    ensures Zip(m, root, ctx.up.up, InsertRecolored(ctx, t))
    ensures Nodes(InsertRecolored(ctx, t)) + PathNodes(ctx.up.up) == Nodes(t) + PathNodes(ctx)
    ensures Frame(m0, m, Nodes(t) + PathNodes(ctx))
  {
    m := m0;
    ghost var Step(s, p, c, sib, Step(s2, g, cg, un, up)) := ctx;
    ZipUp(m, root, ctx, t);
    ghost var pt := Build(s, t, p, c, sib);
    ZipAcross(m, root, ctx.up, pt);
    ghost var ctxu := Step(s2.Other(), g, cg, pt, up);
    ZipPaint(m, root, ctxu, un, Black);
    m := m[uncle := m[uncle].(color := Black)];
    ZipAcross(m, root, ctxu, un.Blacken());
    ghost var ctxp := Step(s2, g, cg, un.Blacken(), up);
    ZipPaint(m, root, ctxp, pt, Black);
    m := m[parent := m[parent].(color := Black)];
    ghost var pt' := Build(s, t, p, Black, sib);
    ZipUp(m, root, ctxp, pt');
    ghost var gt := Build(s2, pt', g, cg, un.Blacken());
    ZipPaint(m, root, up, gt, Red);
    m := m[gparent := m[gparent].(color := Red)];
  }

  /** Paint the parent black and the grandparent red, and turn the grandparent down. */
  method InsertTurn(parent: Ptr, gparent: Ptr, m0: Mem, root0: Ptr, ghost ctx: Path, ghost pt: Shape, s2: Side)
    returns (m: Mem, root: Ptr)
    requires Zip(m0, root0, ctx, pt) && pt.Node? && ctx.Step?
    requires s2 == ctx.side && parent == pt.n && gparent == ctx.n
    ensures Zip(m, root, ctx.up, Rotated(s2.Other(), Build(s2, pt.Blacken(), ctx.n, Red, ctx.sib)))
    ensures Nodes(Rotated(s2.Other(), Build(s2, pt.Blacken(), ctx.n, Red, ctx.sib))) + PathNodes(ctx.up) ==
            Nodes(pt) + PathNodes(ctx)
    ensures Frame(m0, m, Nodes(pt) + PathNodes(ctx))
  {
    m, root := m0, root0;
    ZipPaint(m, root, ctx, pt, Black);
    m := m[parent := m[parent].(color := Black)];
    ZipUp(m, root, ctx, pt.Blacken());
    ghost var gt := Build(s2, pt.Blacken(), ctx.n, ctx.color, ctx.sib);
    ZipPaint(m, root, ctx.up, gt, Red);
    m := m[gparent := m[gparent].(color := Red)];
    DistinctRotated(s2.Other(), gt.(color := Red));
    m, root := Rotate(s2.Other(), gparent, m, root, ctx.up, gt.(color := Red));
  }

  method InsertRotate(s: Side, s2: Side, node0: Ptr, parent0: Ptr, gparent: Ptr, m0: Mem, root0: Ptr, ghost ctx: Path,
                      ghost t: Shape)
    returns (m: Mem, root: Ptr, node: Ptr)
    requires Zip(m0, root0, ctx, t) && t.Node? && ctx.Step? && ctx.up.Step?
    requires s == ctx.side && s2 == ctx.up.side && ctx.color.Red?
    requires node0 == t.n && parent0 == ctx.n && gparent == ctx.up.n
    ensures var (ctx', t') := InsertRotated(ctx, t);
            Zip(m, root, ctx', t') && t'.Node? && t'.n == node &&
            Nodes(t') + PathNodes(ctx') == Nodes(t) + PathNodes(ctx)
    ensures Frame(m0, m, Nodes(t) + PathNodes(ctx))
  {
    var parent := parent0;
    m, root, node := m0, root0, node0;
    ghost var pt := Build(s, t, ctx.n, Red, ctx.sib);
    ZipUp(m, root, ctx, t);
    if s != s2 {
      DistinctRotated(s2, pt);
      m, root := Rotate(s2, parent, m, root, ctx.up, pt);
      parent, node := node, parent;
      pt := Rotated(s2, pt);
    }
    m, root := InsertTurn(parent, gparent, m, root, ctx.up, pt, s2);
    ghost var (ctx', t') := InsertRotated(ctx, t);
    ZipUp(m, root, ctx', t');
  }

  /** The body of the loop of rb_insert_color. */
  method InsertRoundStep(node0: Ptr, m0: Mem, root0: Ptr, ghost ctx: Path, ghost t: Shape)
    returns (m: Mem, root: Ptr, node: Ptr)
    requires Zip(m0, root0, ctx, t) && t.Node? && t.n == node0 && node0 in m0 && m0[node0].parent in m0
    requires ctx.Step? && ctx.color.Red? && ctx.up.Step?
    ensures var (ctx', t') := InsertNext(ctx, t);
            Zip(m, root, ctx', t') && t'.Node? && t'.n == node &&
            Nodes(t') + PathNodes(ctx') == Nodes(t) + PathNodes(ctx)
    ensures Frame(m0, m, Nodes(t) + PathNodes(ctx))
  {
    m, root, node := m0, root0, node0;
    ghost var pt := Build(ctx.side, t, ctx.n, ctx.color, ctx.sib);
    ZipUp(m, root, ctx, t);
    ZipReads(m, root, ctx, t);
    ZipReads(m, root, ctx.up, pt);
    ZipAcross(m, root, ctx.up, pt);
    ZipReads(m, root, Step(ctx.up.side.Other(), ctx.up.n, ctx.up.color, pt, ctx.up.up), ctx.up.sib);
    var parent := m[node].parent;
    var gparent := m[parent].parent;
    var s2 := if parent == m[gparent].left then L else R;
    var uncle := m[gparent].Get(s2.Other());
    if uncle != NULL && m[uncle].color == Red {
      m := InsertRecolor(node, parent, gparent, uncle, m, root, ctx, t);
      node := gparent;
    } else {
      var s := if m[parent].Get(s2.Other()) == node then s2.Other() else s2;
      m, root, node := InsertRotate(s, s2, node, parent, gparent, m, root, ctx, t);
    }
  }

  method InsertColor(node0: Ptr, m0: Mem, root0: Ptr, ghost ctx0: Path, ghost t0: Shape) returns (m: Mem, root: Ptr)
    requires Zip(m0, root0, ctx0, t0) && t0.Node? && t0.n == node0
    requires InsertReady(ctx0, t0)
    ensures Linked(m, root, InsertFix(ctx0, t0))
    ensures Frame(m0, m, Nodes(t0) + PathNodes(ctx0))
  {
    m, root := m0, root0;
    var node := node0;
    ghost var ctx, t, all := ctx0, t0, Nodes(t0) + PathNodes(ctx0);
    ZipReads(m, root, ctx, t);
    while m[node].parent != NULL && m[m[node].parent].color == Red
      invariant Zip(m, root, ctx, t) && t.Node? && t.n == node
      invariant node in m && m[node].parent == ParentOf(ctx)
      invariant ctx.Step? ==> ctx.n != NULL && ctx.n in m && m[ctx.n].color == ctx.color
      invariant InsertReady(ctx, t) && InsertFix(ctx, t) == InsertFix(ctx0, t0)
      invariant Nodes(t) + PathNodes(ctx) == all && Frame(m0, m, all)
      decreases Depth(ctx)
    {
      InsertRound(ctx, t);
      m, root, node := InsertRoundStep(node, m, root, ctx, t);
      ghost var after := InsertNext(ctx, t);
      ctx, t := after.0, after.1;
      ZipReads(m, root, ctx, t);
    }
    ZipTop(m, root, ctx, t);
    ZipPaint(m, root, Top, Plug(ctx, t), Black);
    m := m[root := m[root].(color := Black)];
  }

  // ---------------------------------------------------------------- rb_erase

  /** Turn a red sibling above the parent. */
  method EraseRedSibling(s: Side, parent: Ptr, other: Ptr, m0: Mem, root0: Ptr, ghost ctx: Path, ghost t: Shape)
    returns (m: Mem, root: Ptr)
    requires Zip(m0, root0, ctx, t) && ctx.Step? && ctx.sib.Node?
    requires s == ctx.side && parent == ctx.n && other == ctx.sib.n
    ensures Zip(m, root, RedSiblingTurned(ctx), t)
    ensures Nodes(t) + PathNodes(RedSiblingTurned(ctx)) == Nodes(t) + PathNodes(ctx)
    ensures Frame(m0, m, Nodes(t) + PathNodes(ctx))
  {
    m, root := m0, root0;
    ghost var Step(_, p, c, o, up) := ctx;
    ZipAcross(m, root, ctx, t);
    ghost var ctxo := Step(s.Other(), p, c, t, up);
    ZipPaint(m, root, ctxo, o, Black);
    m := m[other := m[other].(color := Black)];
    ZipUp(m, root, ctxo, o.Blacken());
    ghost var pt := Build(s, t, p, c, o.Blacken());
    ZipPaint(m, root, up, pt, Red);
    m := m[parent := m[parent].(color := Red)];
    DistinctRotated(s, pt.(color := Red));
    m, root := Rotate(s, parent, m, root, up, pt.(color := Red));
    ghost var ctx' := RedSiblingTurned(ctx);
    ZipUp(m, root, ctx', t);
    ZipUp(m, root, ctx'.up, Build(s, t, p, Red, o.Child(s)));
  }

  /** Paint the sibling red and go up. */
  method EraseMoveUp(other: Ptr, m0: Mem, root: Ptr, ghost ctx: Path, ghost t: Shape) returns (m: Mem)
    requires Zip(m0, root, ctx, t) && ctx.Step? && ctx.sib.Node? && other == ctx.sib.n
    ensures var t' := Build(ctx.side, t, ctx.n, ctx.color, ctx.sib.(color := Red));
            Zip(m, root, ctx.up, t') && Nodes(t') + PathNodes(ctx.up) == Nodes(t) + PathNodes(ctx)
    ensures Frame(m0, m, Nodes(t) + PathNodes(ctx))
  {
    ZipAcross(m0, root, ctx, t);
    ghost var ctxo := Step(ctx.side.Other(), ctx.n, ctx.color, t, ctx.up);
    ZipPaint(m0, root, ctxo, ctx.sib, Red);
    m := m0[other := m0[other].(color := Red)];
    ZipUp(m, root, ctxo, ctx.sib.(color := Red));
  }

  /** The sibling after its near red child has been turned above it. */
  function NearTurned<N>(s: Side, o: RbTree.Tree<N>): RbTree.Tree<N>
    requires o.Node? && o.Child(s).Node?
  {
    Rotated(s.Other(), Build(s, o.Child(s).Blacken(), o.n, Red, o.Child(s.Other())))
  }

  /** Turn the near red child of the sibling above the sibling. */
  method EraseNearRed(s: Side, other: Ptr, near: Ptr, m0: Mem, root0: Ptr, ghost ctx: Path, ghost t: Shape)
    returns (m: Mem, root: Ptr)
    requires Zip(m0, root0, ctx, t) && ctx.Step? && s == ctx.side
    requires ctx.sib.Node? && ctx.sib.Child(s).Node? && other == ctx.sib.n && near == ctx.sib.Child(s).n
    ensures Zip(m, root, ctx.(sib := NearTurned(s, ctx.sib)), t)
    ensures PathNodes(ctx.(sib := NearTurned(s, ctx.sib))) == PathNodes(ctx)
    ensures Frame(m0, m, Nodes(t) + PathNodes(ctx))
  {
    m, root := m0, root0;
    ghost var Step(_, p, c, o, up) := ctx;
    ZipAcross(m, root, ctx, t);
    ghost var ctxo := Step(s.Other(), p, c, t, up);
    ghost var ctxn := Step(s, o.n, o.color, o.Child(s.Other()), ctxo);
    ZipUp(m, root, ctxn, o.Child(s));
    ZipPaint(m, root, ctxn, o.Child(s), Black);
    m := m[near := m[near].(color := Black)];
    ZipUp(m, root, ctxn, o.Child(s).Blacken());
    ghost var o1 := Build(s, o.Child(s).Blacken(), o.n, o.color, o.Child(s.Other()));
    ZipPaint(m, root, ctxo, o1, Red);
    m := m[other := m[other].(color := Red)];
    DistinctRotated(s.Other(), o1.(color := Red));
    m, root := Rotate(s.Other(), other, m, root, ctxo, o1.(color := Red));
    ZipAcross(m, root, ctxo, NearTurned(s, o));
    assert Nodes(o1) == Nodes(o);
  }

  /** The last rotation, when the far child of the sibling is red. */
  method EraseFarRed(s: Side, parent: Ptr, other: Ptr, far: Ptr, m0: Mem, root0: Ptr, ghost ctx: Path, ghost t: Shape)
    returns (m: Mem, root: Ptr)
    requires Zip(m0, root0, ctx, t) && ctx.Step? && s == ctx.side
    requires ctx.sib.Node? && ctx.sib.Child(s.Other()).IsRed()
    requires parent == ctx.n && other == ctx.sib.n && far == ctx.sib.Child(s.Other()).n
    ensures Zip(m, root, ctx.up, EraseTurned(ctx, t))
    ensures Nodes(EraseTurned(ctx, t)) + PathNodes(ctx.up) == Nodes(t) + PathNodes(ctx)
    ensures Frame(m0, m, Nodes(t) + PathNodes(ctx))
  {
    m, root := m0, root0;
    ghost var Step(_, p, c, o, up) := ctx;
    ZipUp(m, root, ctx, t);
    ZipReads(m, root, ctx, t);
    ZipAcross(m, root, ctx, t);
    ghost var ctxo := Step(s.Other(), p, c, t, up);
    ZipPaint(m, root, ctxo, o, c);
    m := m[other := m[other].(color := m[parent].color)];
    ghost var o1 := o.(color := c);
    ZipUp(m, root, ctxo, o1);
    m := ErasePaintParent(parent, far, m, root, s, up, t, p, c, o1);
    ghost var o2 := Build(s, o1.Child(s), o1.n, o1.color, o1.Child(s.Other()).Blacken());
    DistinctRotated(s, Build(s, t, p, Black, o2));
    m, root := Rotate(s, parent, m, root, up, Build(s, t, p, Black, o2));
  }

  method ErasePaintParent(parent: Ptr, far: Ptr, m0: Mem, ghost root: Ptr, ghost s: Side, ghost up: Path,
                          ghost t: Shape, ghost p: Ptr, ghost c: Color, ghost o: Shape)
    returns (m: Mem)
    requires Zip(m0, root, up, Build(s, t, p, c, o)) && o.Node? && o.Child(s.Other()).Node?
    requires parent == p && far == o.Child(s.Other()).n
    ensures Zip(m, root, up, Build(s, t, p, Black, Build(s, o.Child(s), o.n, o.color, o.Child(s.Other()).Blacken())))
    ensures Nodes(Build(s, t, p, Black, Build(s, o.Child(s), o.n, o.color, o.Child(s.Other()).Blacken()))) ==
            Nodes(Build(s, t, p, c, o))
    ensures Frame(m0, m, Nodes(Build(s, t, p, c, o)) + PathNodes(up))
  {
    m := m0;
    ZipPaint(m, root, up, Build(s, t, p, c, o), Black);
    m := m[parent := m[parent].(color := Black)];
    ghost var ctxo := Step(s.Other(), p, Black, t, up);
    ghost var ctxf := Step(s.Other(), o.n, o.color, o.Child(s), ctxo);
    ZipUp(m, root, ctxo, o);
    ZipUp(m, root, ctxf, o.Child(s.Other()));
    ZipPaint(m, root, ctxf, o.Child(s.Other()), Black);
    m := m[far := m[far].(color := Black)];
    ZipUp(m, root, ctxf, o.Child(s.Other()).Blacken());
    ZipUp(m, root, ctxo, Build(s, o.Child(s), o.n, o.color, o.Child(s.Other()).Blacken()));
  }

  lemma SiblingReads(m: Mem, root: Ptr, ctx: Path, t: Shape)
    requires Zip(m, root, ctx, t) && ctx.Step? && ctx.sib.Node?
    ensures var o := ctx.sib;
            o.n in m && m[o.n].left == RootOf(o.left) && m[o.n].right == RootOf(o.right) &&
            (o.left.Node? ==> o.left.n != NULL && o.left.n in m && m[o.left.n].color == o.left.color) &&
            (o.right.Node? ==> o.right.n != NULL && o.right.n in m && m[o.right.n].color == o.right.color)
  {
    assert Rep(m, ctx.sib, ctx.n);
    assert Rep(m, ctx.sib.left, ctx.sib.n) && Rep(m, ctx.sib.right, ctx.sib.n);
  }

  lemma NearTurnedSame(ctx: Path, t: Shape)
    requires ctx.Step? && ctx.sib.Node? && ctx.sib.Child(ctx.side).IsRed() && !ctx.sib.Child(ctx.side.Other()).IsRed()
    ensures var c := ctx.(sib := NearTurned(ctx.side, ctx.sib));
            c.sib.Node? && c.sib.Child(ctx.side.Other()).IsRed() && EraseTurned(c, t) == EraseTurned(ctx, t)
  {
  }

  /** The end of __rb_erase_color when the black sibling has a red child. */
  method EraseTurn(s: Side, parent: Ptr, other0: Ptr, m0: Mem, root0: Ptr, ghost ctx: Path, ghost t: Shape)
    returns (m: Mem, root: Ptr)
    requires Zip(m0, root0, ctx, t)
    requires ctx.Step? && ctx.sib.Node? && (ctx.sib.left.IsRed() || ctx.sib.right.IsRed())
    requires s == ctx.side && parent == ctx.n && other0 == ctx.sib.n
    ensures Zip(m, root, ctx.up, EraseTurned(ctx, t))
    ensures Nodes(EraseTurned(ctx, t)) + PathNodes(ctx.up) == Nodes(t) + PathNodes(ctx)
    ensures Frame(m0, m, Nodes(t) + PathNodes(ctx))
  {
    m, root := m0, root0;
    var other := other0;
    SiblingReads(m, root, ctx, t);
    var far := m[other].Get(s.Other());
    ghost var c := ctx;
    if far == NULL || m[far].color == Black {
      NearTurnedSame(ctx, t);
      m, root := EraseNearRed(s, other, m[other].Get(s), m, root, ctx, t);
      c := ctx.(sib := NearTurned(s, ctx.sib));
      ZipReads(m, root, c, t);
      SiblingReads(m, root, c, t);
      other := m[parent].Get(s.Other());
      far := m[other].Get(s.Other());
    }
    m, root := EraseFarRed(s, parent, other, far, m, root, c, t);
  }

  /** The part of a round of __rb_erase_color that runs once the sibling is black. */
  method EraseBlackSibling(s: Side, parent0: Ptr, other: Ptr, m0: Mem, root0: Ptr, ghost ctx0: Path, ghost t0: Shape)
    returns (m: Mem, root: Ptr, node: Ptr, parent: Ptr, last: bool, ghost ctx: Path, ghost t: Shape)
    requires Zip(m0, root0, ctx0, t0)
    requires ctx0.Step? && ctx0.sib.Node? && !t0.IsRed()
    requires s == ctx0.side && parent0 == ctx0.n && other == ctx0.sib.n
    ensures Zip(m, root, ctx, t) && node == RootOf(t) && parent == ParentOf(ctx)
    ensures Frame(m0, m, Nodes(t0) + PathNodes(ctx0)) && Nodes(t) + PathNodes(ctx) == Nodes(t0) + PathNodes(ctx0)
    ensures last <==> ctx0.sib.left.IsRed() || ctx0.sib.right.IsRed()
    ensures last ==> ctx.Top? && t == Plug(ctx0.up, EraseTurned(ctx0, t0))
    ensures !last ==> ctx == ctx0.up && t == Build(s, t0, ctx0.n, ctx0.color, ctx0.sib.(color := Red))
  {
    m, root := m0, root0;
    SiblingReads(m, root, ctx0, t0);
    var near, far := m[other].Get(s), m[other].Get(s.Other());
    if (near == NULL || m[near].color == Black) && (far == NULL || m[far].color == Black) {
      m := EraseMoveUp(other, m, root, ctx0, t0);
      last, ctx, t := false, ctx0.up, Build(s, t0, ctx0.n, ctx0.color, ctx0.sib.(color := Red));
      ZipReads(m, root, ctx, t);
      node := parent0;
      parent := m[node].parent;
    } else {
      m, root := EraseTurn(s, parent0, other, m, root, ctx0, t0);
      ZipTop(m, root, ctx0.up, EraseTurned(ctx0, t0));
      last, ctx, t := true, Top, Plug(ctx0.up, EraseTurned(ctx0, t0));
      node, parent := root, NULL;
    }
  }

  /** The body of the loop of __rb_erase_color. */
  method EraseRoundStep(node0: Ptr, parent0: Ptr, m0: Mem, root0: Ptr, ghost ctx0: Path, ghost t0: Shape)
    returns (m: Mem, root: Ptr, node: Ptr, parent: Ptr, last: bool, ghost ctx: Path, ghost t: Shape)
    requires Zip(m0, root0, ctx0, t0) && EraseReady(ctx0, t0) && ctx0.Step? && !t0.IsRed()
    requires node0 == RootOf(t0) && parent0 == ParentOf(ctx0)
    ensures Zip(m, root, ctx, t) && node == RootOf(t) && parent == ParentOf(ctx)
    ensures Frame(m0, m, Nodes(t0) + PathNodes(ctx0)) && Nodes(t) + PathNodes(ctx) == Nodes(t0) + PathNodes(ctx0)
    ensures last ==> ctx.Top? && t.Blacken() == EraseFix(ctx0, t0)
    ensures !last ==> EraseReady(ctx, t) && EraseFix(ctx, t) == EraseFix(ctx0, t0) &&
                      (Depth(ctx) < Depth(ctx0) || (Depth(ctx) == Depth(ctx0) && t.IsRed()))
  {
    m, root := m0, root0;
    EraseRound(ctx0, t0);
    ZipReads(m, root, ctx0, t0);
    SiblingReads(m, root, ctx0, t0);
    ZipAcross(m, root, ctx0, t0);
    ZipReads(m, root, Step(ctx0.side.Other(), ctx0.n, ctx0.color, t0, ctx0.up), ctx0.sib);
    var s := if m[parent0].left == node0 then L else R;
    var other := m[parent0].Get(s.Other());
    ghost var c := ctx0;
    if m[other].color == Red {
      m, root := EraseRedSibling(s, parent0, other, m, root, ctx0, t0);
      c := RedSiblingTurned(ctx0);
      ZipReads(m, root, c, t0);
      other := m[parent0].Get(s.Other());
    }
    m, root, node, parent, last, ctx, t := EraseBlackSibling(s, parent0, other, m, root, c, t0);
  }

  method EraseColor(node0: Ptr, parent0: Ptr, m0: Mem, root0: Ptr, ghost ctx0: Path, ghost t0: Shape)
    returns (m: Mem, root: Ptr)
    requires Zip(m0, root0, ctx0, t0) && EraseReady(ctx0, t0)
    requires node0 == RootOf(t0) && parent0 == ParentOf(ctx0)
    ensures Linked(m, root, EraseFix(ctx0, t0))
    ensures Frame(m0, m, Nodes(t0) + PathNodes(ctx0))
  {
    m, root := m0, root0;
    var node, parent := node0, parent0;
    ghost var ctx, t, all := ctx0, t0, Nodes(t0) + PathNodes(ctx0);
    ZipReads(m, root, ctx, t);
    while (node == NULL || m[node].color == Black) && node != root
      invariant Zip(m, root, ctx, t) && node == RootOf(t) && parent == ParentOf(ctx)
      invariant node != NULL ==> node in m && m[node].color == t.color && t.Node?
      invariant ctx.Top? <==> node == root
      invariant t.Node? ==> node != NULL
      invariant EraseReady(ctx, t) && EraseFix(ctx, t) == EraseFix(ctx0, t0)
      invariant Nodes(t) + PathNodes(ctx) == all && Frame(m0, m, all)
      decreases Depth(ctx), if t.IsRed() then 0 else 1
    {
      var last: bool;
      m, root, node, parent, last, ctx, t := EraseRoundStep(node, parent, m, root, ctx, t);
      ZipReads(m, root, ctx, t);
      if last {
        break;
      }
    }
    m := EraseBlacken(node, m, root, ctx, t);
  }

  /** The end of __rb_erase_color: the node that is left, if there is one, becomes black. */
  method EraseBlacken(node: Ptr, m0: Mem, root: Ptr, ghost ctx: Path, ghost t: Shape) returns (m: Mem)
    requires Zip(m0, root, ctx, t) && node == RootOf(t) && (node != NULL ==> node in m0 && t.Node?) &&
             (t.Node? ==> node != NULL)
    ensures Linked(m, root, Plug(ctx, t.Blacken())) && Frame(m0, m, Nodes(t) + PathNodes(ctx))
  {
    m := m0;
    if node != NULL {
      ZipPaint(m, root, ctx, t, Black);
      m := m[node := m[node].(color := Black)];
    }
    ZipTop(m, root, ctx, t.Blacken());
  }

  lemma ZipFrame(m: Mem, m': Mem, root: Ptr, ctx: Path, t: Shape)
    requires Zip(m, root, ctx, t) && SameOn(m, m', Nodes(t) + PathNodes(ctx))
    ensures Zip(m', root, ctx, t)
  {
    RepFrame(m, m', t, ParentOf(ctx));
    RepPathFrame(m, m', ctx, RootOf(t));
  }

  function SetParent(m: Mem, x: Ptr, p: Ptr): Mem {
    if x in m then m[x := m[x].(parent := p)] else m
  }

  function SetChild(m: Mem, x: Ptr, s: Side, p: Ptr): Mem {
    if x in m then m[x := m[x].Put(s, p)] else m
  }

  /** The memory in which the subtree `u` has taken the place of the node above it. */
  ghost function SpliceMem(m: Mem, ctx: Path, u: Shape): Mem {
    var m1 := if u.Node? then SetParent(m, u.n, ParentOf(ctx)) else m;
    if ctx.Step? then SetChild(m1, ctx.n, ctx.side, RootOf(u)) else m1
  }

  lemma SpliceZip(m: Mem, root: Ptr, ctx: Path, t: Shape, u: Shape)
    requires Zip(m, root, ctx, t) && t.Node?
    requires (t.left.Leaf? && u == t.right) || (t.right.Leaf? && u == t.left)
    ensures Zip(SpliceMem(m, ctx, u), RootOf(Plug(ctx, u)), ctx, u)
    ensures t.n !in Nodes(u) + PathNodes(ctx)
  {
    var m' := SpliceMem(m, ctx, u);
    assert Rep(m, u, t.n) && Distinct(u) && Nodes(u) <= Nodes(t);
    assert ctx.Step? ==> ctx.n in m && ctx.n !in Nodes(u);
    assert u.Node? ==> u.n in m && u.n in Nodes(u);
    RepMoved(m, m', u, t.n, ParentOf(ctx));
    RepPathHole(m, m', ctx, t.n, RootOf(u));
  }

  /** The memory in which the node `v` has taken the place of the root of `t`. */
  ghost function ReplaceMem(m: Mem, ctx: Path, t: Shape, v: Ptr): Mem
    requires t.Node? && t.n in m
  {
    var m1 := if ctx.Step? then SetChild(m, ctx.n, ctx.side, v) else m;
    var m2 := if t.left.Node? then SetParent(m1, t.left.n, v) else m1;
    var m3 := if t.right.Node? then SetParent(m2, t.right.n, v) else m2;
    m3[v := m[t.n]]
  }

  lemma ReplaceZip(m: Mem, root: Ptr, ctx: Path, t: Shape, v: Ptr)
    requires Zip(m, root, ctx, t) && t.Node?
    requires v != NULL && v !in Nodes(t) + PathNodes(ctx)
    ensures t.n in m && Zip(ReplaceMem(m, ctx, t, v), RootOf(Plug(ctx, t.(n := v))), ctx, t.(n := v))
  {
    var m' := ReplaceMem(m, ctx, t, v);
    var l, r := t.left, t.right;
    assert Rep(m, l, t.n) && Rep(m, r, t.n) && Distinct(l) && Distinct(r);
    assert l.Node? ==> l.n in m && l.n in Nodes(l);
    assert r.Node? ==> r.n in m && r.n in Nodes(r);
    assert ctx.Step? ==> ctx.n in m && ctx.n in PathNodes(ctx);
    RepMoved(m, m', l, t.n, v);
    RepMoved(m, m', r, t.n, v);
    RepPathHole(m, m', ctx, t.n, v);
  }

  method ReplaceNode(victim: Ptr, new': Ptr, m0: Mem, root0: Ptr, ghost ctx: Path, ghost t: Shape)
    returns (m: Mem, root: Ptr)
    requires Zip(m0, root0, ctx, t) && t.Node? && t.n == victim
    requires new' != NULL && new' !in Nodes(t) + PathNodes(ctx)
    ensures Linked(m, root, Plug(ctx, t.(n := new')))
    ensures Frame(m0[new' := m0[victim]], m, Nodes(t) + PathNodes(ctx))
  {
    m, root := m0, root0;
    ZipReads(m, root, ctx, t);
    ReplaceReads(m, root, ctx, t);
    var parent := m[victim].parent;
    if parent != NULL {
      if victim == m[parent].left {
        m := m[parent := m[parent].(left := new')];
      } else {
        m := m[parent := m[parent].(right := new')];
      }
    } else {
      root := new';
    }
    if m[victim].left != NULL {
      m := SetParent(m, m[victim].left, new');
    }
    if m[victim].right != NULL {
      m := SetParent(m, m[victim].right, new');
    }
    m := m[new' := m[victim]];
    ReplaceZip(m0, root0, ctx, t, new');
    assert m == ReplaceMem(m0, ctx, t, new');
    RootOfPlug(ctx, t.(n := new'), t);
    ZipTop(m, root, ctx, t.(n := new'));
  }

  lemma ReplaceReads(m: Mem, root: Ptr, ctx: Path, t: Shape)
    requires Zip(m, root, ctx, t) && t.Node?
    ensures t.left.Node? ==> t.left.n != NULL && t.left.n in m && t.left.n != t.n && t.left.n in Nodes(t)
    ensures t.right.Node? ==> t.right.n != NULL && t.right.n in m && t.right.n != t.n && t.right.n in Nodes(t)
    ensures ctx.Step? ==> ctx.n in PathNodes(ctx) && ctx.n !in Nodes(t)
    ensures t.n in Nodes(t)
  {
    assert Rep(m, t.left, t.n) && Rep(m, t.right, t.n);
    assert t.left.Node? ==> t.left.n in Nodes(t.left);
    assert t.right.Node? ==> t.right.n in Nodes(t.right);
  }

  /** Unlink a node with at most one child. */
  method UnlinkSimple(node: Ptr, child: Ptr, m0: Mem, root0: Ptr, ghost ctx: Path, ghost t: Shape, ghost u: Shape)
    returns (m: Mem, root: Ptr, parent: Ptr, color: Color)
    requires Zip(m0, root0, ctx, t) && t.Node? && t.n == node && child == RootOf(u)
    requires (t.left.Leaf? && u == t.right) || (t.right.Leaf? && u == t.left)
    ensures Zip(m, root, ctx, u) && parent == ParentOf(ctx) && color == t.color
    ensures Nodes(u) + PathNodes(ctx) == Nodes(t) + PathNodes(ctx) - {node}
    ensures Frame(m0, m, Nodes(t) + PathNodes(ctx))
  {
    m, root := m0, root0;
    ZipReads(m, root, ctx, t);
    ReplaceReads(m, root, ctx, t);
    parent := m[node].parent;
    color := m[node].color;
    if child != NULL {
      m := SetParent(m, child, parent);
    }
    if parent != NULL {
      if m[parent].left == node {
        m := m[parent := m[parent].(left := child)];
      } else {
        m := m[parent := m[parent].(right := child)];
      }
    } else {
      root := child;
    }
    SpliceZip(m0, root0, ctx, t, u);
    assert m == SpliceMem(m0, ctx, u);
    RootOfPlug(ctx, u, t);
  }

  /** The frames from the successor of the root of `t` up to the root of the tree. */
  ghost function SuccessorPath(path: Path, n: Ptr, t: Shape, ctx: Path): Path
    requires t.Node?
  {
    Append(path, Step(R, n, t.color, t.left, ctx))
  }

  method FindSuccessor(old': Ptr, m: Mem, ghost root: Ptr, ghost ctx: Path, ghost t: Shape) returns (node: Ptr)
    requires Zip(m, root, ctx, t) && t.Node? && t.n == old' && t.right.Node?
    ensures var (path, s) := Leftmost(Top, t.right);
            s.Node? && node == s.n && Zip(m, root, SuccessorPath(path, old', t, ctx), s) &&
            Nodes(s) + PathNodes(SuccessorPath(path, old', t, ctx)) == Nodes(t) + PathNodes(ctx)
  {
    ZipReads(m, root, ctx, t);
    ghost var path, s := Top, t.right;
    ZipUp(m, root, SuccessorPath(path, old', t, ctx), s);
    LeftmostPlug(Top, t.right);
    node := m[old'].right;
    ZipReads(m, root, SuccessorPath(path, old', t, ctx), s);
    while m[node].left != NULL
      invariant s.Node? && node == s.n && node in m && m[node].left == RootOf(s.left)
      invariant Leftmost(path, s) == Leftmost(Top, t.right)
      invariant Zip(m, root, SuccessorPath(path, old', t, ctx), s)
      invariant Nodes(s) + PathNodes(SuccessorPath(path, old', t, ctx)) == Nodes(t) + PathNodes(ctx)
      decreases s
    {
      node := m[node].left;
      path, s := Step(L, s.n, s.color, s.right, path), s.left;
      ZipUp(m, root, SuccessorPath(path, old', t, ctx), s);
      ZipReads(m, root, SuccessorPath(path, old', t, ctx), s);
    }
    ReplaceReads(m, root, SuccessorPath(path, old', t, ctx), s);
  }

  lemma {:induction false} ZipAppend(m: Mem, root: Ptr, path: Path, base: Path, t: Shape)
    ensures Zip(m, root, Append(path, base), t) <==> Zip(m, root, base, Plug(path, t))
    ensures Nodes(t) + PathNodes(Append(path, base)) == Nodes(Plug(path, t)) + PathNodes(base)
  {
    if path.Top? {
    } else {
      ZipUp(m, root, Append(path, base), t);
      ZipAppend(m, root, path.up, base, Build(path.side, t, path.n, path.color, path.sib));
    }
  }

  /** The memory in which the successor `s`, found at the end of `path`, has left its own place
      and taken that of the root of `t`. */
  ghost function SuccessorMem(m: Mem, ctx: Path, t: Shape, path: Path, s: Shape): Mem
    requires t.Node? && t.n in m && s.Node?
  {
    var m1 := SpliceMem(m, SuccessorPath(path, t.n, t, ctx), s.right);
    ReplaceMem(m1, ctx, t.(right := Plug(path, s.right)), s.n)
  }

  /** The successor out of its place: the tree below `t` without it. */
  lemma SuccessorSpliced(m: Mem, root: Ptr, ctx: Path, t: Shape)
    requires Zip(m, root, ctx, t) && t.Node? && t.right.Node?
    ensures var (path, s) := Leftmost(Top, t.right);
            var c0, t1 := SuccessorPath(path, t.n, t, ctx), t.(right := Plug(path, s.right));
            s.Node? && s.left.Leaf? && s.n != NULL && s.n in Nodes(t) && s.n !in Nodes(t1) + PathNodes(ctx) &&
            Zip(SpliceMem(m, c0, s.right), RootOf(Plug(c0, s.right)), ctx, t1) &&
            Nodes(t1) + PathNodes(ctx) == Nodes(t) + PathNodes(ctx) - {s.n}
  {
    var (path, s) := Leftmost(Top, t.right);
    LeftmostPlug(Top, t.right);
    var frame := Step(R, t.n, t.color, t.left, ctx);
    var c0 := SuccessorPath(path, t.n, t, ctx);
    ZipUp(m, root, frame, t.right);
    ZipAppend(m, root, path, frame, s);
    SpliceZip(m, root, c0, s, s.right);
    var m1, root1 := SpliceMem(m, c0, s.right), RootOf(Plug(c0, s.right));
    ZipAppend(m1, root1, path, frame, s.right);
    ZipUp(m1, root1, frame, Plug(path, s.right));
    assert Nodes(s) == {s.n} + Nodes(s.right);
  }

  lemma SuccessorZip(m: Mem, root: Ptr, ctx: Path, t: Shape)
    requires Zip(m, root, ctx, t) && t.Node? && t.right.Node?
    ensures var (path, s) := Leftmost(Top, t.right);
            var c1 := SuccessorPath(path, s.n, t, ctx);
            s.Node? && t.n in m && s.left.Leaf? &&
            Zip(SuccessorMem(m, ctx, t, path, s), RootOf(Plug(ctx, t.(n := s.n))), c1, s.right) &&
            Nodes(s.right) + PathNodes(c1) == Nodes(t) + PathNodes(ctx) - {t.n}
  {
    ZipReads(m, root, ctx, t);
    SuccessorSpliced(m, root, ctx, t);
    var (path, s) := Leftmost(Top, t.right);
    var c0, t1 := SuccessorPath(path, t.n, t, ctx), t.(right := Plug(path, s.right));
    var m1, root1 := SpliceMem(m, c0, s.right), RootOf(Plug(c0, s.right));
    ReplaceZip(m1, root1, ctx, t1, s.n);
    var m2, root2, t2 := ReplaceMem(m1, ctx, t1, s.n), RootOf(Plug(ctx, t1.(n := s.n))), t1.(n := s.n);
    var frame2 := Step(R, s.n, t.color, t.left, ctx);
    ZipUp(m2, root2, frame2, Plug(path, s.right));
    ZipAppend(m2, root2, path, frame2, s.right);
    RootOfPlug(ctx, t2, t.(n := s.n));
    assert Distinct(t1);
  }

  ghost function HookedMem(m: Mem, ctx: Path, node: Ptr): Mem {
    if ctx.Step? then SetChild(m, ctx.n, ctx.side, node) else m
  }

  /** What the rest of rb_erase does to memory before it rebalances. */
  ghost function FilledMem(m: Mem, t: Shape, path: Path, s: Shape): Mem
    requires t.Node? && s.Node? && t.n in m && s.n in m
  {
    var m1 := if path.Step? then
                var m0 := if s.right.Node? then SetParent(m, s.right.n, path.n) else m;
                SetParent(SetChild(m0, path.n, L, RootOf(s.right)), m[t.n].right, s.n)
              else m;
    SetParent(m1[s.n := if path.Top? then m[t.n].(right := m[s.n].right) else m[t.n]], m[t.n].left, s.n)
  }

  /** What the two orders of writing have to know: what the nodes hold, and that they are different nodes. */
  ghost predicate SuccessorPlace(m: Mem, ctx: Path, t: Shape, path: Path, s: Shape) {
    t.Node? && s.Node? && t.left.Node? && t.right.Node? &&
    (var p, low := if path.Top? then t.n else path.n, Nodes(s);
     {t.n, s.n, p, t.left.n, t.right.n} <= m.Keys - {NULL} &&
     m[t.n].left == t.left.n && m[t.n].right == t.right.n && m[s.n].right == RootOf(s.right) &&
     (path.Step? ==> path.side.L?) && (ctx.Step? ==> ctx.n in m) &&
     (s.right.Node? ==> s.right.n in m && m[s.right.n].parent == s.n && s.right.n in low && s.right.n != s.n) &&
     RootOf(Plug(path, s.right)) == (if path.Top? then RootOf(s.right) else t.right.n) &&
     t.n != t.left.n && t.n != ParentOf(ctx) && t.left.n != ParentOf(ctx) &&
     s.n in low && {t.n, t.left.n, ParentOf(ctx)} !! low &&
     (path.Step? ==> {p, t.right.n} !! {t.n, t.left.n, ParentOf(ctx)} + low))
  }

  lemma SuccessorPlaced(m: Mem, root: Ptr, ctx: Path, t: Shape)
    requires Zip(m, root, ctx, t) && t.Node? && t.left.Node? && t.right.Node?
    ensures var (path, s) := Leftmost(Top, t.right); SuccessorPlace(m, ctx, t, path, s)
  {
    SuccessorReads(m, root, ctx, t);
    SuccessorApart(m, root, ctx, t);
  }

  lemma FilledAt(m: Mem, ctx: Path, t: Shape, path: Path, s: Shape, z: Ptr)
    requires SuccessorPlace(m, ctx, t, path, s) && z in m && z != t.n
    ensures var m1 := HookedMem(m, ctx, s.n);
            t.n in m1 && s.n in m1 && m1.Keys == m.Keys &&
            FilledMem(m1, t, path, s)[z] == SuccessorMem(m, ctx, t, path, s)[z]
  {
  }

  lemma FilledIsSuccessor(m: Mem, root: Ptr, ctx: Path, t: Shape)
    requires Zip(m, root, ctx, t) && t.Node? && t.left.Node? && t.right.Node?
    ensures var (path, s) := Leftmost(Top, t.right);
            var m1 := HookedMem(m, ctx, s.n);
            t.n in m1 && s.n in m1 && t.n in m && m1.Keys == m.Keys &&
            (forall z :: z in m && z != t.n ==> FilledMem(m1, t, path, s)[z] == SuccessorMem(m, ctx, t, path, s)[z])
  {
    SuccessorPlaced(m, root, ctx, t);
    var (path, s) := Leftmost(Top, t.right);
    var m1 := HookedMem(m, ctx, s.n);
    FilledAt(m, ctx, t, path, s, s.n);
    forall z | z in m && z != t.n
      ensures FilledMem(m1, t, path, s)[z] == SuccessorMem(m, ctx, t, path, s)[z]
    {
      FilledAt(m, ctx, t, path, s, z);
    }
  }

  lemma FilledKeys(m: Mem, root: Ptr, ctx: Path, t: Shape)
    requires Zip(m, root, ctx, t) && t.Node? && t.left.Node? && t.right.Node?
    ensures var (path, s) := Leftmost(Top, t.right);
            var m1 := HookedMem(m, ctx, s.n);
            t.n in Nodes(t) && t.n in m1 && s.n in m1 && FilledMem(m1, t, path, s).Keys == m.Keys
  {
    SuccessorReads(m, root, ctx, t);
  }

  /** Hook the successor below the parent of the node it replaces. */
  method HookSuccessor(old': Ptr, node: Ptr, m0: Mem, root0: Ptr, ghost ctx: Path, ghost t: Shape)
    returns (m: Mem, root: Ptr)
    requires Zip(m0, root0, ctx, t) && t.Node? && t.n == old'
    ensures m == HookedMem(m0, ctx, node) && root == RootOf(Plug(ctx, t.(n := node)))
  {
    m, root := m0, root0;
    ZipReads(m, root, ctx, t);
    RootOfPlug(ctx, t.(n := node), t);
    var top := m[old'].parent;
    if top != NULL {
      if m[top].left == old' {
        m := m[top := m[top].(left := node)];
      } else {
        m := m[top := m[top].(right := node)];
      }
    } else {
      root := node;
    }
  }

  /** Put the successor `node` in the place of `old'`, and its right child in its own. */
  method FillSuccessor(old': Ptr, node: Ptr, m0: Mem, ghost t: Shape, ghost path: Path, ghost s: Shape)
    returns (m: Mem, child: Ptr, parent: Ptr, color: Color)
    requires t.Node? && s.Node? && t.n == old' && s.n == node && old' != node
    requires old' in m0 && node in m0 && m0[node].right == RootOf(s.right)
    requires m0[node].parent == (if path.Top? then old' else path.n) && m0[node].parent in m0
    requires path.Step? ==> path.n !in {old', node} && m0[old'].right !in {NULL, old', node}
    requires s.right.Node? ==> s.right.n !in {NULL, old', node} && s.right.n in m0
    requires m0[old'].left !in {old', node}
    ensures m == FilledMem(m0, t, path, s) && child == RootOf(s.right) && color == m0[node].color
    ensures parent == if path.Top? then node else path.n
  {
    m := m0;
    child := m[node].right;
    parent := m[node].parent;
    color := m[node].color;
    if parent == old' {
      parent := node;
    } else {
      if child != NULL {
        m := SetParent(m, child, parent);
      }
      m := m[parent := m[parent].(left := child)];
      m := m[node := m[node].(right := m[old'].right)];
      m := SetParent(m, m[old'].right, node);
    }
    m := m[node := m[node].(parent := m[old'].parent, color := m[old'].color)];
    m := m[node := m[node].(left := m[old'].left)];
    m := SetParent(m, m[old'].left, node);
  }

  lemma SuccessorFrame(m: Mem, root: Ptr, ctx: Path, t: Shape)
    requires Zip(m, root, ctx, t) && t.Node? && t.left.Node? && t.right.Node? && t.n in m
    ensures var (path, s) := Leftmost(Top, t.right);
            Frame(m, SuccessorMem(m, ctx, t, path, s), Nodes(t) + PathNodes(ctx))
  {
    SuccessorReads(m, root, ctx, t);
    SuccessorApart(m, root, ctx, t);
  }

  lemma {:induction false} LeftmostSide(path: Path, t: Shape)
    requires t.Node? && (path.Step? ==> path.side.L?)
    ensures Leftmost(path, t).0.Step? ==> Leftmost(path, t).0.side.L?
    decreases t
  {
    if t.left.Leaf? {
    } else {
      LeftmostSide(Step(L, t.n, t.color, t.right, path), t.left);
    }
  }

  lemma {:induction false} AppendNodes(a: Path, b: Path)
    ensures PathNodes(Append(a, b)) == PathNodes(a) + PathNodes(b)
  {
    if a.Top? {
    } else {
      AppendNodes(a.up, b);
    }
  }

  /** The frames of the successor, as a view of the same tree. */
  lemma SuccessorView(m: Mem, root: Ptr, ctx: Path, t: Shape)
    requires Zip(m, root, ctx, t) && t.Node? && t.right.Node?
    ensures var (path, s) := Leftmost(Top, t.right);
            var c0 := SuccessorPath(path, t.n, t, ctx);
            Zip(m, root, c0, s) && PathNodes(c0) == PathNodes(path) + {t.n} + Nodes(t.left) + PathNodes(ctx) &&
            Nodes(s) + PathNodes(path) == Nodes(t.right) && (path.Step? ==> t.right.n in PathNodes(path))
  {
    var (path, s) := Leftmost(Top, t.right);
    LeftmostPlug(Top, t.right);
    var frame := Step(R, t.n, t.color, t.left, ctx);
    ZipUp(m, root, frame, t.right);
    ZipAppend(m, root, path, frame, s);
    AppendNodes(path, frame);
    ZipTop(m, root, path, s);
    if path.Step? { RootInPath(path, s); }
  }

  /** The links of the nodes that removing a node with two children touches. */
  lemma SuccessorReads(m: Mem, root: Ptr, ctx: Path, t: Shape)
    requires Zip(m, root, ctx, t) && t.Node? && t.left.Node? && t.right.Node?
    ensures var (path, s) := Leftmost(Top, t.right);
            var p := if path.Top? then t.n else path.n;
            {t.n, s.n, p, t.left.n, t.right.n} <= m.Keys - {NULL} &&
            m[t.n] == Links(t.left.n, t.right.n, ParentOf(ctx), t.color) &&
            m[s.n] == Links(NULL, RootOf(s.right), p, s.color) &&
            (path.Step? ==> path.side.L?) &&
            (s.right.Node? ==> s.right.n != NULL && s.right.n in m && m[s.right.n].parent == s.n) &&
            RootOf(Plug(path, s.right)) == if path.Top? then RootOf(s.right) else t.right.n
    ensures ctx.Step? ==>
            ctx.n != NULL && ctx.n in m && m[ctx.n].Get(ctx.side) == t.n && m[ctx.n].Get(ctx.side.Other()) != t.n
  {
    var (path, s) := Leftmost(Top, t.right);
    SuccessorView(m, root, ctx, t);
    LeftmostPlug(Top, t.right);
    LeftmostSide(Top, t.right);
    ZipReads(m, root, ctx, t);
    ReplaceReads(m, root, ctx, t);
    ZipReads(m, root, SuccessorPath(path, t.n, t, ctx), s);
    ReplaceReads(m, root, SuccessorPath(path, t.n, t, ctx), s);
    RootOfPlug(path, s, s.right);
    assert Rep(m, s.right, s.n);
  }

  /** Those nodes are different nodes. */
  lemma SuccessorApart(m: Mem, root: Ptr, ctx: Path, t: Shape)
    requires Zip(m, root, ctx, t) && t.Node? && t.left.Node? && t.right.Node?
    ensures var (path, s) := Leftmost(Top, t.right);
            var p := if path.Top? then t.n else path.n;
            var high, low := {t.n, t.left.n, ParentOf(ctx)}, Nodes(s);
            t.n != t.left.n && t.n != ParentOf(ctx) && t.left.n != ParentOf(ctx) &&
            NULL !in low && s.n in low && s.n !in Nodes(s.right) && high !! low && Nodes(s.right) <= low &&
            (s.right.Node? ==> s.right.n in Nodes(s.right)) &&
            (path.Step? ==> {p, t.right.n} !! high && {p, t.right.n} !! low) &&
            {p, t.right.n, t.left.n} + low <= Nodes(t)
  {
    var (path, s) := Leftmost(Top, t.right);
    SuccessorView(m, root, ctx, t);
    assert t.left.n in Nodes(t.left) && t.right.n in Nodes(t.right);
    NoNull(m, ctx, t);
    NoNullBelow(m, t, ParentOf(ctx));
    assert Distinct(s);
  }

  lemma HookedReads(m: Mem, root: Ptr, ctx: Path, t: Shape)
    requires Zip(m, root, ctx, t) && t.Node? && t.left.Node? && t.right.Node?
    ensures var (path, s) := Leftmost(Top, t.right);
            var m1 := HookedMem(m, ctx, s.n);
            t.n != s.n && t.n in m1 && s.n in m1 && m1[s.n] == m[s.n] && m1[t.n] == m[t.n] &&
            m1[s.n].right == RootOf(s.right) && m1[s.n].color == s.color &&
            m1[s.n].parent == (if path.Top? then t.n else path.n) && m1[s.n].parent in m1 &&
            (path.Step? ==> path.n !in {t.n, s.n} && m1[t.n].right !in {NULL, t.n, s.n}) &&
            (s.right.Node? ==> s.right.n !in {NULL, t.n, s.n} && s.right.n in m1) &&
            m1[t.n].left !in {t.n, s.n}
  {
    SuccessorReads(m, root, ctx, t);
    SuccessorApart(m, root, ctx, t);
  }

  lemma SuccessorDone(m: Mem, root: Ptr, ctx: Path, t: Shape)
    requires Zip(m, root, ctx, t) && t.Node? && t.left.Node? && t.right.Node?
    ensures var (path, s) := Leftmost(Top, t.right);
            var m1, c1 := HookedMem(m, ctx, s.n), SuccessorPath(path, s.n, t, ctx);
            t.n in m1 && s.n in m1 &&
            Zip(FilledMem(m1, t, path, s), RootOf(Plug(ctx, t.(n := s.n))), c1, s.right) &&
            Nodes(s.right) + PathNodes(c1) == Nodes(t) + PathNodes(ctx) - {t.n} &&
            Frame(m, FilledMem(m1, t, path, s), Nodes(t) + PathNodes(ctx))
  {
    var (path, s) := Leftmost(Top, t.right);
    FilledIsSuccessor(m, root, ctx, t);
    SuccessorZip(m, root, ctx, t);
    SuccessorFrame(m, root, ctx, t);
    FilledKeys(m, root, ctx, t);
    SameButOne(m, SuccessorMem(m, ctx, t, path, s), FilledMem(HookedMem(m, ctx, s.n), t, path, s), t.n,
               RootOf(Plug(ctx, t.(n := s.n))), SuccessorPath(path, s.n, t, ctx), s.right, Nodes(t) + PathNodes(ctx));
  }

  /** A node outside the tree does not matter. */
  lemma SameButOne(m: Mem, m2: Mem, m': Mem, x: Ptr, root: Ptr, ctx: Path, u: Shape, all: set<Ptr>)
    requires Zip(m2, root, ctx, u) && Frame(m, m2, all)
    requires m'.Keys == m.Keys && forall z :: z in m && z != x ==> m'[z] == m2[z]
    requires x !in Nodes(u) + PathNodes(ctx) && x in all
    ensures Zip(m', root, ctx, u) && Frame(m, m', all)
  {
    ZipFrame(m2, m', root, ctx, u);
  }

  /** Unlink a node with two children. */
  method UnlinkSuccessor(old': Ptr, m0: Mem, root0: Ptr, ghost ctx: Path, ghost t: Shape)
    returns (m: Mem, root: Ptr, child: Ptr, parent: Ptr, color: Color)
    requires Zip(m0, root0, ctx, t) && t.Node? && t.n == old' && t.left.Node? && t.right.Node?
    ensures var (path, s) := Leftmost(Top, t.right);
            var c1 := SuccessorPath(path, s.n, t, ctx);
            Zip(m, root, c1, s.right) && child == RootOf(s.right) && parent == ParentOf(c1) && color == s.color &&
            Nodes(s.right) + PathNodes(c1) == Nodes(t) + PathNodes(ctx) - {old'}
    ensures Frame(m0, m, Nodes(t) + PathNodes(ctx))
  {
    var node := FindSuccessor(old', m0, root0, ctx, t);
    ghost var (path, s) := Leftmost(Top, t.right);
    HookedReads(m0, root0, ctx, t);
    m, root := HookSuccessor(old', node, m0, root0, ctx, t);
    m, child, parent, color := FillSuccessor(old', node, m, t, path, s);
    SuccessorDone(m0, root0, ctx, t);
  }

  method Erase(node: Ptr, m0: Mem, root0: Ptr, ghost ctx: Path, ghost t: Shape) returns (m: Mem, root: Ptr)
    requires Zip(m0, root0, ctx, t) && t.Node? && t.n == node && RedBlack(Plug(ctx, t))
    ensures Linked(m, root, RbTree.Erase(ctx, t))
    ensures Frame(m0, m, Nodes(t) + PathNodes(ctx))
  {
    m, root := m0, root0;
    ZipReads(m, root, ctx, t);
    ReplaceReads(m, root, ctx, t);
    var child: Ptr, parent: Ptr, color: Color;
    ghost var c1: Path, u: Shape;
    EraseSpot(ctx, t);
    if m[node].left == NULL {
      child := m[node].right;
      m, root, parent, color := UnlinkSimple(node, child, m, root, ctx, t, t.right);
      c1, u := ctx, t.right;
    } else if m[node].right == NULL {
      child := m[node].left;
      m, root, parent, color := UnlinkSimple(node, child, m, root, ctx, t, t.left);
      c1, u := ctx, t.left;
    } else {
      m, root, child, parent, color := UnlinkSuccessor(node, m, root, ctx, t);
      ghost var (path, s) := Leftmost(Top, t.right);
      c1, u := SuccessorPath(path, s.n, t, ctx), s.right;
    }
    if color == Black {
      m, root := EraseColor(child, parent, m, root, c1, u);
    } else {
      ZipTop(m, root, c1, u);
    }
  }
}
