/**
  Red-black trees as values: the shapes that cmn/rbtree.c builds out of linked nodes, and the
  two rebalancing loops written as functions on a zipper (a subtree together with the path of
  frames from its parent up to the root).

  The source spells every rebalancing case twice, once per hand. Here a `Side` stands for the
  hand, so each pair of mirrored branches is one branch.
 */
module RbTree {
  import opened Common

  datatype Color = Red | Black

  datatype Side = L | R {
    function Other(): Side { if L? then R else L }
  }

  datatype Tree<N> = Leaf | Node(left: Tree<N>, n: N, color: Color, right: Tree<N>) {
    function Child(s: Side): Tree<N>
      requires Node?
    {
      if s.L? then left else right
    }

    predicate IsRed() { Node? && color.Red? }

    function Blacken(): Tree<N> { if Node? then this.(color := Black) else this }
  }

  /** The frames above a subtree: `side` is the side of `n` on which the hole lies. */
  datatype Ctx<N> = Top | Step(side: Side, n: N, color: Color, sib: Tree<N>, up: Ctx<N>)

  function Build<N>(s: Side, t: Tree<N>, n: N, c: Color, sib: Tree<N>): Tree<N> {
    if s.L? then Node(t, n, c, sib) else Node(sib, n, c, t)
  }

  function Plug<N>(ctx: Ctx<N>, t: Tree<N>): Tree<N> {
    match ctx
    case Top => t
    case Step(s, n, c, sib, up) => Plug(up, Build(s, t, n, c, sib))
  }

  function Inorder<N>(t: Tree<N>): seq<N> {
    match t
    case Leaf => []
    case Node(l, n, _, r) => Inorder(l) + [n] + Inorder(r)
  }

  /** What an in-order walk meets before and after the hole of a context. */
  function Before<N>(ctx: Ctx<N>): seq<N> {
    match ctx
    case Top => []
    case Step(s, n, _, sib, up) => if s.L? then Before(up) else Before(up) + Inorder(sib) + [n]
  }

  function After<N>(ctx: Ctx<N>): seq<N> {
    match ctx
    case Top => []
    case Step(s, n, _, sib, up) => if s.L? then [n] + Inorder(sib) + After(up) else After(up)
  }

  function Depth<N>(ctx: Ctx<N>): nat {
    match ctx
    case Top => 0
    case Step(_, _, _, _, up) => 1 + Depth(up)
  }

  lemma Regroup<N>(a: seq<N>, b: seq<N>, c: seq<N>, d: seq<N>, e: seq<N>)
    ensures a + (b + c + d) + e == a + b + (c + d + e) == (a + b + c) + d + e
  {
  }

  lemma {:induction false} InorderPlug<N>(ctx: Ctx<N>, t: Tree<N>)
    ensures Inorder(Plug(ctx, t)) == Before(ctx) + Inorder(t) + After(ctx)
  {
    match ctx
    case Top =>
    case Step(s, n, c, sib, up) =>
      InorderPlug(up, Build(s, t, n, c, sib));
      if s.L? {
        Regroup(Before(up), Inorder(t), [n], Inorder(sib), After(up));
      } else {
        Regroup(Before(up), Inorder(sib), [n], Inorder(t), After(up));
      }
  }

  lemma InorderSwap<N>(ctx: Ctx<N>, t: Tree<N>, u: Tree<N>)
    requires Inorder(t) == Inorder(u)
    ensures Inorder(Plug(ctx, t)) == Inorder(Plug(ctx, u)) == Inorder(Plug(ctx, u).Blacken())
  {
    InorderPlug(ctx, t);
    InorderPlug(ctx, u);
  }

  /** A rotation does not disturb the in-order sequence. */
  lemma InorderRotate<N>(s: Side, a: Tree<N>, x: N, cx: Color, b: Tree<N>, y: N, cy: Color, c: Tree<N>, dx: Color,
                         dy: Color)
    ensures Inorder(Build(s, Build(s, a, x, cx, b), y, cy, c)) == Inorder(Build(s, a, x, dx, Build(s, b, y, dy, c)))
  {
    if s.L? {
      Turned(Inorder(a), [x], Inorder(b), [y], Inorder(c));
    } else {
      Turned(Inorder(c), [y], Inorder(b), [x], Inorder(a));
    }
  }

  lemma Turned<N>(a: seq<N>, x: seq<N>, b: seq<N>, y: seq<N>, c: seq<N>)
    ensures (a + x + b) + y + c == a + x + (b + y + c)
  {
  }

  lemma InorderDouble<N>(s: Side, a: Tree<N>, x: N, cx: Color, b: Tree<N>, z: N, cz: Color, c: Tree<N>, dx: Color,
                         dy: Color, dz: Color)
    requires b.Node?
    ensures Inorder(Build(s, Build(s, a, x, cx, b), z, cz, c))
         == Inorder(Build(s, Build(s, a, x, dx, b.Child(s)), b.n, dy, Build(s, b.Child(s.Other()), z, dz, c)))
  {
    var Node(l, y, cy, r) := b;
    var in', out := b.Child(s), b.Child(s.Other());
    InorderRotate(s, a, x, cx, in', y, cy, out, cx, cy);
    InorderRotate(s, Build(s, a, x, dx, in'), y, dy, out, z, cz, c, dy, dz);
    InorderUnder(s, Build(s, a, x, cx, b), Build(s, Build(s, a, x, dx, in'), y, dy, out), z, cz, c);
  }

  lemma InorderUnder<N>(s: Side, t: Tree<N>, u: Tree<N>, n: N, c: Color, sib: Tree<N>)
    requires Inorder(t) == Inorder(u)
    ensures Inorder(Build(s, t, n, c, sib)) == Inorder(Build(s, u, n, c, sib))
  {
  }

  // ---------------------------------------------------------------- the red-black rules

  /** Black nodes on the leftmost path; by balance, on every path. */
  function BlackHeight<N>(t: Tree<N>): nat {
    match t
    case Leaf => 0
    case Node(l, _, c, _) => BlackHeight(l) + if c.Black? then 1 else 0
  }

  /** Equal black heights everywhere and no red node with a red child. */
  predicate Balanced<N>(t: Tree<N>) {
    match t
    case Leaf => true
    case Node(l, _, c, r) =>
      Balanced(l) && Balanced(r) && BlackHeight(l) == BlackHeight(r) &&
      (c.Red? ==> !l.IsRed() && !r.IsRed())
  }

  lemma BalancedBuild<N>(s: Side, t: Tree<N>, n: N, c: Color, sib: Tree<N>)
    requires Balanced(t) && Balanced(sib) && BlackHeight(t) == BlackHeight(sib)
    requires c.Red? ==> !t.IsRed() && !sib.IsRed()
    ensures Balanced(Build(s, t, n, c, sib))
    ensures BlackHeight(Build(s, t, n, c, sib)) == BlackHeight(t) + if c.Black? then 1 else 0
  {
  }

  predicate RedBlack<N>(t: Tree<N>) { Balanced(t) && !t.IsRed() }

  /** The frames obey the rules around a hole of black height `h`, and the root is black. */
  predicate Around<N>(ctx: Ctx<N>, h: nat) {
    match ctx
    case Top => true
    case Step(_, _, c, sib, up) =>
      Balanced(sib) && BlackHeight(sib) == h &&
      (c.Red? ==> !sib.IsRed() && up.Step? && up.color.Black?) &&
      Around(up, h + if c.Black? then 1 else 0)
  }

  predicate Joins<N>(ctx: Ctx<N>, t: Tree<N>) {
    t.IsRed() ==> ctx.Step? && ctx.color.Black?
  }

  lemma {:induction false} PlugRedBlack<N>(ctx: Ctx<N>, t: Tree<N>)
    ensures RedBlack(Plug(ctx, t)) <==> Balanced(t) && Around(ctx, BlackHeight(t)) && Joins(ctx, t)
  {
    match ctx
    case Top =>
    case Step(s, n, c, sib, up) => PlugRedBlack(up, Build(s, t, n, c, sib));
  }

  function Height<N>(t: Tree<N>): nat {
    match t
    case Leaf => 0
    case Node(l, _, _, r) => 1 + if Height(l) < Height(r) then Height(r) else Height(l)
  }

  lemma {:induction false} HeightVersusBlackHeight<N>(t: Tree<N>)
    requires Balanced(t)
    ensures Height(t) <= 2 * BlackHeight(t) + if t.IsRed() then 1 else 0
    ensures Pow2(BlackHeight(t)) <= |Inorder(t)| + 1
  {
    match t
    case Leaf =>
    case Node(l, _, _, r) =>
      HeightVersusBlackHeight(l);
      HeightVersusBlackHeight(r);
  }

  lemma {:induction false} Pow2Square(h: nat, b: nat)
    requires h <= 2 * b
    ensures Pow2(h) <= Pow2(b) * Pow2(b)
  {
    if b == 0 {
    } else if h < 2 {
      Pow2Square(0, b - 1);
      var p := Pow2(b - 1);
      assert Pow2(b) * Pow2(b) == 4 * (p * p);
    } else {
      Pow2Square(h - 2, b - 1);
      var p := Pow2(b - 1);
      assert Pow2(b) * Pow2(b) == 4 * (p * p);
      assert Pow2(h) == 4 * Pow2(h - 2);
    }
  }

  lemma SquareMonotone(p: nat, m: nat)
    requires p <= m
    ensures p * p <= m * m
  {
    assert p * p <= m * p;
  }

  /** The height h of a red-black tree of n nodes satisfies 2^h <= (n+1)^2, that is,
      h <= 2 log2(n+1). */
  lemma HeightBound<N>(t: Tree<N>)
    requires RedBlack(t)
    ensures Pow2(Height(t)) <= (|Inorder(t)| + 1) * (|Inorder(t)| + 1)
  {
    HeightVersusBlackHeight(t);
    Pow2Square(Height(t), BlackHeight(t));
    SquareMonotone(Pow2(BlackHeight(t)), |Inorder(t)| + 1);
  }

  // ---------------------------------------------------------------- insertion

  /** What rb_insert_color makes of a red subtree `t` that may sit below a red parent. */
  function InsertFix<N>(ctx: Ctx<N>, t: Tree<N>): Tree<N>
    requires t.Node?
  {
    match ctx
    case Step(s, p, Red, sib, Step(s2, g, _, uncle, up)) =>
      if uncle.IsRed() then
        InsertFix(up, Build(s2, Build(s, t, p, Black, sib), g, Red, uncle.Blacken()))
      else if s == s2 then
        Plug(up, Build(s2, t, p, Black, Build(s2, sib, g, Red, uncle))).Blacken()
      else
        Plug(up, Build(s2, Build(s2, sib, p, Red, t.Child(s2)), t.n, Black,
                       Build(s2, t.Child(s), g, Red, uncle))).Blacken()
    case _ => Plug(ctx, t).Blacken()
  }

  /** The loop invariant of rb_insert_color: all rules hold but, perhaps, red-under-red at `t`. */
  predicate InsertReady<N>(ctx: Ctx<N>, t: Tree<N>) {
    t.IsRed() && Balanced(t) && Around(ctx, BlackHeight(t))
  }

  lemma {:induction false} InsertFixInorder<N>(ctx: Ctx<N>, t: Tree<N>)
    requires t.Node?
    ensures Inorder(InsertFix(ctx, t)) == Inorder(Plug(ctx, t))
  {
    match ctx
    case Step(s, p, Red, sib, Step(s2, g, cg, uncle, up)) =>
      var was := Build(s2, Build(s, t, p, Red, sib), g, cg, uncle);
      if uncle.IsRed() {
        var u := Build(s2, Build(s, t, p, Black, sib), g, Red, uncle.Blacken());
        InsertFixInorder(up, u);
        InorderSwap(up, u, was);
      } else if s == s2 {
        InorderRotate(s2, t, p, Red, sib, g, cg, uncle, Black, Red);
        InorderSwap(up, was, Build(s2, t, p, Black, Build(s2, sib, g, Red, uncle)));
      } else {
        InorderDouble(s2, sib, p, Red, t, g, cg, uncle, Red, Black, Red);
        InorderSwap(up, was, Build(s2, Build(s2, sib, p, Red, t.Child(s2)), t.n, Black,
                                   Build(s2, t.Child(s), g, Red, uncle)));
      }
    case _ =>
  }

  /** The shape in which a round that rotates leaves the tree, seen from the red node that the
      round ends at; `s2` is the side of the grandparent on which the parent was. */
  function InsertRotated<N>(ctx: Ctx<N>, t: Tree<N>): (Ctx<N>, Tree<N>)
    requires t.Node? && ctx.Step? && ctx.up.Step?
  {
    var Step(s, p, _, sib, Step(s2, g, _, uncle, up)) := ctx;
    if s == s2 then
      (Step(s2, p, Black, Build(s2, sib, g, Red, uncle), up), t)
    else
      (Step(s2, t.n, Black, Build(s2, t.Child(s), g, Red, uncle), up), Build(s2, sib, p, Red, t.Child(s2)))
  }

  function InsertRecolored<N>(ctx: Ctx<N>, t: Tree<N>): Tree<N>
    requires ctx.Step? && ctx.up.Step?
  {
    var Step(s, p, _, sib, Step(s2, g, _, uncle, up)) := ctx;
    Build(s2, Build(s, t, p, Black, sib), g, Red, uncle.Blacken())
  }

  function InsertNext<N>(ctx: Ctx<N>, t: Tree<N>): (Ctx<N>, Tree<N>)
    requires t.Node? && ctx.Step? && ctx.up.Step?
  {
    if ctx.up.sib.IsRed() then (ctx.up.up, InsertRecolored(ctx, t)) else InsertRotated(ctx, t)
  }

  /** One round of rb_insert_color keeps its invariant and does not change the outcome. */
  lemma InsertRound<N>(ctx: Ctx<N>, t: Tree<N>)
    requires InsertReady(ctx, t) && ctx.Step? && ctx.color.Red?
    ensures ctx.up.Step?
    ensures var (ctx', t') := InsertNext(ctx, t);
            InsertReady(ctx', t') && InsertFix(ctx, t) == InsertFix(ctx', t') && Depth(ctx') < Depth(ctx)
  {
    var Step(s, p, _, sib, Step(s2, g, _, uncle, up)) := ctx;
    assert Around(ctx.up, BlackHeight(t));
    if uncle.IsRed() {
      BalancedBuild(s, t, p, Black, sib);
      BalancedBuild(s2, Build(s, t, p, Black, sib), g, Red, uncle.Blacken());
    } else if s == s2 {
      BalancedBuild(s2, sib, g, Red, uncle);
    } else {
      BalancedBuild(s2, sib, p, Red, t.Child(s2));
      BalancedBuild(s2, t.Child(s), g, Red, uncle);
    }
  }

  /** Insertion ends in a tree that keeps every red-black rule. */
  lemma {:induction false} InsertFixRedBlack<N>(ctx: Ctx<N>, t: Tree<N>)
    requires InsertReady(ctx, t)
    ensures RedBlack(InsertFix(ctx, t))
    decreases Depth(ctx)
  {
    if ctx.Step? && ctx.color.Red? {
      InsertRound(ctx, t);
      InsertFixRedBlack(InsertNext(ctx, t).0, InsertNext(ctx, t).1);
    } else if ctx.Step? {
      PlugRedBlack(ctx, t);
    }
  }

  // ---------------------------------------------------------------- erasure

  /** What __rb_erase_color makes of a subtree `t` whose paths are one black node short. */
  function EraseFix<N>(ctx: Ctx<N>, t: Tree<N>): Tree<N>
    decreases Depth(ctx), if t.IsRed() then 0 else 1, 1
  {
    if t.IsRed() || ctx.Top? then
      Plug(ctx, t.Blacken())
    else if ctx.sib.IsRed() then
      assert Depth(RedSiblingTurned(ctx).up) == Depth(ctx);
      EraseFixBlackSibling(RedSiblingTurned(ctx), t)
    else
      EraseFixBlackSibling(ctx, t)
  }

  /** The part of a round that runs once the sibling is black. A missing sibling is impossible
      in a tree that is only one black node short, so that case stands for no behaviour. */
  function EraseFixBlackSibling<N>(ctx: Ctx<N>, t: Tree<N>): Tree<N>
    requires ctx.Step? && !t.IsRed()
    decreases Depth(ctx) - (if ctx.color.Red? then 1 else 0), 1, 0
  {
    if ctx.sib.Leaf? then
      Plug(ctx, t)
    else if !ctx.sib.left.IsRed() && !ctx.sib.right.IsRed() then
      EraseFix(ctx.up, Build(ctx.side, t, ctx.n, ctx.color, ctx.sib.(color := Red)))
    else
      Plug(ctx.up, EraseTurned(ctx, t)).Blacken()
  }

  /** The view after a red sibling has been turned above the parent. */
  function RedSiblingTurned<N>(ctx: Ctx<N>): Ctx<N>
    requires ctx.Step? && ctx.sib.Node?
  {
    var Step(s, p, _, o, up) := ctx;
    Step(s, p, Red, o.Child(s), Step(s, o.n, Black, o.Child(s.Other()), up))
  }

  /** The subtree at the parent after the last rotation of __rb_erase_color. */
  function EraseTurned<N>(ctx: Ctx<N>, t: Tree<N>): Tree<N>
    requires ctx.Step? && ctx.sib.Node? && (ctx.sib.left.IsRed() || ctx.sib.right.IsRed())
  {
    var Step(s, p, c, o, up) := ctx;
    var near, far := o.Child(s), o.Child(s.Other());
    if far.IsRed() then
      Build(s, Build(s, t, p, Black, near), o.n, c, far.Blacken())
    else
      Build(s, Build(s, t, p, Black, near.Child(s)), near.n, c, Build(s, near.Child(s.Other()), o.n, Black, far))
  }

  /** The loop invariant of __rb_erase_color: everything around `t` expects one more black node
      than `t` has, and no other rule is broken except possibly at the root of `t`. */
  predicate EraseReady<N>(ctx: Ctx<N>, t: Tree<N>) {
    Balanced(t.Blacken()) && Around(ctx, BlackHeight(t) + 1)
  }

  lemma {:induction false} EraseFixInorder<N>(ctx: Ctx<N>, t: Tree<N>)
    ensures Inorder(EraseFix(ctx, t)) == Inorder(Plug(ctx, t))
    decreases Depth(ctx), if t.IsRed() then 0 else 1, 1
  {
    if t.IsRed() || ctx.Top? {
      InorderSwap(ctx, t, t.Blacken());
    } else if ctx.sib.IsRed() {
      var Step(s, p, c, o, up) := ctx;
      assert Depth(RedSiblingTurned(ctx).up) == Depth(ctx);
      EraseFixBlackSiblingInorder(RedSiblingTurned(ctx), t);
      InorderRotate(s, t, p, Red, o.Child(s), o.n, Black, o.Child(s.Other()), c, Red);
      InorderSwap(up, Build(s, Build(s, t, p, Red, o.Child(s)), o.n, Black, o.Child(s.Other())),
                  Build(s, t, p, c, o));
    } else {
      EraseFixBlackSiblingInorder(ctx, t);
    }
  }

  lemma {:induction false} EraseFixBlackSiblingInorder<N>(ctx: Ctx<N>, t: Tree<N>)
    requires ctx.Step? && !t.IsRed()
    ensures Inorder(EraseFixBlackSibling(ctx, t)) == Inorder(Plug(ctx, t))
    decreases Depth(ctx) - (if ctx.color.Red? then 1 else 0), 1, 0
  {
    var Step(s, p, c, o, up) := ctx;
    var was := Build(s, t, p, c, o);
    if o.Leaf? {
    } else if !o.left.IsRed() && !o.right.IsRed() {
      EraseFixInorder(up, Build(s, t, p, c, o.(color := Red)));
      InorderSwap(up, Build(s, t, p, c, o.(color := Red)), was);
    } else {
      var near, far := o.Child(s), o.Child(s.Other());
      if far.IsRed() {
        InorderRotate(s, t, p, Black, near, o.n, c, far, c, o.color);
      } else {
        InorderDouble(s.Other(), far, o.n, o.color, near, p, c, t, Black, c, Black);
      }
      InorderSwap(up, was, EraseTurned(ctx, t));
    }
  }

  lemma {:induction false} EraseFixRedBlack<N>(ctx: Ctx<N>, t: Tree<N>)
    requires EraseReady(ctx, t)
    ensures RedBlack(EraseFix(ctx, t))
    decreases Depth(ctx), if t.IsRed() then 0 else 1, 1
  {
    if t.IsRed() || ctx.Top? {
      PlugRedBlack(ctx, t.Blacken());
    } else if ctx.sib.IsRed() {
      RedSiblingReady(ctx, t);
      assert Depth(RedSiblingTurned(ctx).up) == Depth(ctx);
      EraseFixBlackSiblingRedBlack(RedSiblingTurned(ctx), t);
    } else {
      EraseFixBlackSiblingRedBlack(ctx, t);
    }
  }

  /** A red sibling can be rotated out of the way: the new sibling is black and present. */
  lemma RedSiblingReady<N>(ctx: Ctx<N>, t: Tree<N>)
    requires EraseReady(ctx, t) && !t.IsRed() && ctx.Step? && ctx.sib.IsRed()
    ensures ctx.color.Black? && EraseReady(RedSiblingTurned(ctx), t)
    ensures RedSiblingTurned(ctx).sib.Node? && !RedSiblingTurned(ctx).sib.IsRed()
  {
    assert Around(RedSiblingTurned(ctx).up, BlackHeight(t) + 1);
  }

  lemma {:induction false} EraseFixBlackSiblingRedBlack<N>(ctx: Ctx<N>, t: Tree<N>)
    requires ctx.Step? && !t.IsRed() && !ctx.sib.IsRed() && EraseReady(ctx, t)
    ensures RedBlack(EraseFixBlackSibling(ctx, t))
    decreases Depth(ctx) - (if ctx.color.Red? then 1 else 0), 1, 0
  {
    var Step(s, p, c, o, up) := ctx;
    if !o.left.IsRed() && !o.right.IsRed() {
      MoveUpReady(ctx, t);
      EraseFixRedBlack(up, Build(s, t, p, c, o.(color := Red)));
    } else {
      var near, far := o.Child(s), o.Child(s.Other());
      assert Balanced(near) && Balanced(far);
      if far.IsRed() {
        BalancedBuild(s, t, p, Black, near);
        BalancedBuild(s, Build(s, t, p, Black, near), o.n, c, far.Blacken());
      } else {
        BalancedBuild(s, t, p, Black, near.Child(s));
        BalancedBuild(s, near.Child(s.Other()), o.n, Black, far);
        BalancedBuild(s, Build(s, t, p, Black, near.Child(s)), near.n, c,
                      Build(s, near.Child(s.Other()), o.n, Black, far));
      }
      BlackenTop(up, EraseTurned(ctx, t));
    }
  }

  lemma MoveUpReady<N>(ctx: Ctx<N>, t: Tree<N>)
    requires EraseReady(ctx, t) && !t.IsRed() && ctx.Step? && ctx.sib.Node? && !ctx.sib.IsRed()
    requires !ctx.sib.left.IsRed() && !ctx.sib.right.IsRed()
    ensures EraseReady(ctx.up, Build(ctx.side, t, ctx.n, ctx.color, ctx.sib.(color := Red)))
  {
    var Step(s, p, c, o, up) := ctx;
    BalancedBuild(s, t, p, Black, o.(color := Red));
  }

  /** One round of __rb_erase_color: the view it works on once the sibling is black, and what a
      round that does not end the loop passes on. */
  lemma EraseRound<N>(ctx: Ctx<N>, t: Tree<N>)
    requires EraseReady(ctx, t) && ctx.Step? && !t.IsRed()
    ensures ctx.sib.Node?
    ensures var c := if ctx.sib.IsRed() then RedSiblingTurned(ctx) else ctx;
            c.sib.Node? && !c.sib.IsRed() && EraseFix(ctx, t) == EraseFixBlackSibling(c, t) &&
            (!c.sib.left.IsRed() && !c.sib.right.IsRed() ==>
               var t' := Build(c.side, t, c.n, c.color, c.sib.(color := Red));
               EraseReady(c.up, t') && EraseFix(ctx, t) == EraseFix(c.up, t') &&
               (Depth(c.up) < Depth(ctx) || (Depth(c.up) == Depth(ctx) && t'.IsRed())))
  {
    assert Balanced(ctx.sib);
    if ctx.sib.IsRed() {
      RedSiblingReady(ctx, t);
      assert Depth(RedSiblingTurned(ctx).up) == Depth(ctx);
    }
    var c := if ctx.sib.IsRed() then RedSiblingTurned(ctx) else ctx;
    if !c.sib.left.IsRed() && !c.sib.right.IsRed() { MoveUpReady(c, t); }
  }

  /** Painting the root black after the last rotation leaves a red-black tree. */
  lemma BlackenTop<N>(ctx: Ctx<N>, t: Tree<N>)
    requires Balanced(t) && Around(ctx, BlackHeight(t))
    requires ctx.Top? || Joins(ctx, t)
    ensures RedBlack(Plug(ctx, t).Blacken())
  {
    if ctx.Step? { PlugRedBlack(ctx, t); }
  }

  // ---------------------------------------------------------------- rb_erase as a whole

  /** Walk to the leftmost node of `t`, the frames passed stacked on `path`. */
  function Leftmost<N>(path: Ctx<N>, t: Tree<N>): (r: (Ctx<N>, Tree<N>))
    requires t.Node?
    ensures r.1.Node? && r.1.left.Leaf?
    decreases t
  {
    if t.left.Leaf? then (path, t) else Leftmost(Step(L, t.n, t.color, t.right, path), t.left)
  }

  function Append<N>(a: Ctx<N>, b: Ctx<N>): Ctx<N> {
    match a
    case Top => b
    case Step(s, n, c, sib, up) => Step(s, n, c, sib, Append(up, b))
  }

  /** Put `child` where a node of colour `c` was. */
  function Splice<N>(ctx: Ctx<N>, child: Tree<N>, c: Color): Tree<N> {
    if c.Black? then EraseFix(ctx, child) else Plug(ctx, child)
  }

  /** What rb_erase leaves of the tree when it removes the root of the subtree `t`. */
  function Erase<N>(ctx: Ctx<N>, t: Tree<N>): Tree<N>
    requires t.Node?
  {
    var (c, u, color) := Spot(ctx, t);
    Splice(c, u, color)
  }

  lemma {:induction false} LeftmostPlug<N>(path: Ctx<N>, t: Tree<N>)
    requires t.Node?
    ensures var (p, m) := Leftmost(path, t);
            Plug(p, m) == Plug(path, t) && Before(p) == Before(path)
    decreases t
  {
    if t.left.Leaf? {
    } else {
      LeftmostPlug(Step(L, t.n, t.color, t.right, path), t.left);
    }
  }

  lemma {:induction false} AppendPlug<N>(a: Ctx<N>, b: Ctx<N>, t: Tree<N>)
    ensures Plug(Append(a, b), t) == Plug(b, Plug(a, t))
  {
    match a
    case Top =>
    case Step(s, n, c, sib, up) => AppendPlug(up, b, Build(s, t, n, c, sib));
  }

  lemma SpliceInorder<N>(ctx: Ctx<N>, child: Tree<N>, c: Color)
    ensures Inorder(Splice(ctx, child, c)) == Inorder(Plug(ctx, child))
  {
    EraseFixInorder(ctx, child);
  }

  /** A black node with at most one child leaves its place one black node short. */
  lemma SpliceReady<N>(ctx: Ctx<N>, m: Tree<N>, child: Tree<N>)
    requires m.Node? && RedBlack(Plug(ctx, m))
    requires (m.left.Leaf? && child == m.right) || (m.right.Leaf? && child == m.left)
    ensures m.color.Black? ==> EraseReady(ctx, child)
    ensures RedBlack(Splice(ctx, child, m.color))
  {
    PlugRedBlack(ctx, m);
    if m.color.Black? {
      EraseFixRedBlack(ctx, child);
    } else {
      PlugRedBlack(ctx, child);
    }
  }

  /** The place at which erasing the root of `t` really removes a node. */
  function Spot<N>(ctx: Ctx<N>, t: Tree<N>): (Ctx<N>, Tree<N>, Color)
    requires t.Node?
  {
    if t.left.Leaf? then (ctx, t.right, t.color)
    else if t.right.Leaf? then (ctx, t.left, t.color)
    else
      var (path, m) := Leftmost(Top, t.right);
      (Append(path, Step(R, m.n, t.color, t.left, ctx)), m.right, m.color)
  }

  lemma EraseSpot<N>(ctx: Ctx<N>, t: Tree<N>)
    requires t.Node? && RedBlack(Plug(ctx, t))
    ensures var (c, u, color) := Spot(ctx, t);
            (color.Black? ==> EraseReady(c, u)) && RedBlack(Splice(c, u, color))
  {
    if t.left.Leaf? {
      SpliceReady(ctx, t, t.right);
    } else if t.right.Leaf? {
      SpliceReady(ctx, t, t.left);
    } else {
      var (path, m) := Leftmost(Top, t.right);
      LeftmostPlug<N>(Top, t.right);
      AppendPlug(path, Step(R, m.n, t.color, t.left, ctx), m);
      PlugRedBlack(ctx, t);
      PlugRedBlack(ctx, t.(n := m.n));
      SpliceReady(Append(path, Step(R, m.n, t.color, t.left, ctx)), m, m.right);
    }
  }

  /** Erasing keeps every red-black rule. */
  lemma EraseRedBlack<N>(ctx: Ctx<N>, t: Tree<N>)
    requires t.Node? && RedBlack(Plug(ctx, t))
    ensures RedBlack(Erase(ctx, t))
  {
    EraseSpot(ctx, t);
  }

  /** Erasing removes exactly the erased node from the in-order sequence. */
  lemma EraseInorder<N>(ctx: Ctx<N>, t: Tree<N>)
    requires t.Node?
    ensures Inorder(Plug(ctx, t)) == (Before(ctx) + Inorder(t.left)) + [t.n] + (Inorder(t.right) + After(ctx))
    ensures Inorder(Erase(ctx, t)) == (Before(ctx) + Inorder(t.left)) + (Inorder(t.right) + After(ctx))
  {
    InorderPlug(ctx, t);
    RemoveGroup(Before(ctx), Inorder(t.left), [t.n], Inorder(t.right), After(ctx));
    if t.left.Leaf? {
      SpliceInorder(ctx, t.right, t.color);
      InorderPlug(ctx, t.right);
    } else if t.right.Leaf? {
      SpliceInorder(ctx, t.left, t.color);
      InorderPlug(ctx, t.left);
    } else {
      SuccessorInorder(ctx, t);
    }
  }

  lemma RemoveGroup<N>(a: seq<N>, b: seq<N>, c: seq<N>, d: seq<N>, e: seq<N>)
    ensures a + (b + c + d) + e == (a + b) + c + (d + e)
    ensures b == [] ==> a + d + e == (a + b) + (d + e)
    ensures d == [] ==> a + b + e == (a + b) + (d + e)
  {
  }

  lemma SuccessorInorder<N>(ctx: Ctx<N>, t: Tree<N>)
    requires t.Node? && t.left.Node? && t.right.Node?
    ensures Inorder(Erase(ctx, t)) == (Before(ctx) + Inorder(t.left)) + (Inorder(t.right) + After(ctx))
  {
    var (path, m) := Leftmost(Top, t.right);
    LeftmostPlug<N>(Top, t.right);
    var frame := Step(R, m.n, t.color, t.left, ctx);
    SpliceInorder(Append(path, frame), m.right, m.color);
    AppendPlug(path, frame, m.right);
    InorderPlug(frame, Plug(path, m.right));
    InorderPlug(path, m.right);
    InorderPlug(path, m);
    assert Inorder(t.right) == [m.n] + Inorder(Plug(path, m.right));
    SuccessorGroup(Before(ctx), Inorder(t.left), [m.n], Inorder(Plug(path, m.right)), After(ctx));
  }

  lemma SuccessorGroup<N>(a: seq<N>, b: seq<N>, c: seq<N>, d: seq<N>, e: seq<N>)
    ensures (a + b + c) + d + e == (a + b) + ((c + d) + e)
  {
  }
}
