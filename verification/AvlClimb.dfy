/** The climb from a changed subtree to the root: what one step does to the
    links and balances, for a subtree that has grown or shrunk by one level. */
module AvlClimb {
  import opened Common
  import opened AvlShape
  import opened AvlRotation

  /** Balances apart, the two memories are the same. */
  ghost predicate SameLinks(m: Mem, m': Mem) {
    m'.Keys == m.Keys && forall n :: n in m ==> m'[n] == m[n].(balance := m'[n].balance)
  }

  lemma {:induction false} SameLinksTree(m: Mem, m': Mem, t: Tree, p: Entry?, d: Side)
    requires SameLinks(m, m') && Linked(m, t, p, d)
    ensures Linked(m', t, p, d)
  {
    if t.Node? {
      SameLinksTree(m, m', t.l, t.n, 0);
      SameLinksTree(m, m', t.r, t.n, 1);
    }
  }

  lemma {:induction false} SameLinksCtx(m: Mem, m': Mem, c: Ctx, hole: Entry?, root: Entry?)
    requires SameLinks(m, m') && LinkedCtx(m, c, hole, root)
    ensures LinkedCtx(m', c, hole, root)
    decreases c
  {
    if c.Down? {
      SameLinksTree(m, m', c.sib, c.n, 1 - c.d);
      SameLinksCtx(m, m', c.up, c.n, root);
    }
  }

  lemma SameLinksWhole(m: Mem, m': Mem, c: Ctx, t: Tree, root: Entry?)
    requires SameLinks(m, m') && Whole(m, c, t, root)
    ensures Whole(m', c, t, root)
  {
    SameLinksTree(m, m', t, Parent(c), SideOf(c));
    SameLinksCtx(m, m', c, Root(t), root);
  }

  /** `t` is a valid AVL tree over memory `m`. */
  ghost predicate Exact(m: Mem, t: Tree, root: Entry?) {
    Whole(m, Top, t, root) && Balanced(m, t)
  }

  lemma ExactNodes(m: Mem, t: Tree, root: Entry?)
    requires Exact(m, t, root)
    ensures Nodes(t) == m.Keys
  {
  }

  /** Memory `m'` is `m` with the balance of `n` set to `b`. */
  ghost predicate Retuned(m: Mem, m': Mem, n: Entry, b: int) {
    && m'.Keys == m.Keys && n in m && m'[n] == m[n].(balance := b)
    && forall x :: x in m && x != n ==> m'[x] == m[x]
  }

  /** A subtree and a context that fit together make a valid tree. */
  lemma CloseUp(m: Mem, c: Ctx, t: Tree, root: Entry?)
    requires Whole(m, c, t, root) && Balanced(m, t) && BalancedCtx(m, c, Height(t))
    ensures Exact(m, Plug(c, t), root)
  {
    PlugNodes(c, t);
    PlugLinked(m, c, t, root);
    PlugBalanced(m, c, t);
  }

  lemma OpenUp(m: Mem, c: Ctx, t: Tree, root: Entry?)
    requires Exact(m, Plug(c, t), root)
    ensures Whole(m, c, t, root) && Balanced(m, t) && BalancedCtx(m, c, Height(t))
  {
    PlugNodes(c, t);
    PlugLinked(m, c, t, root);
    PlugBalanced(m, c, t);
  }

  /** The subtree one level up, with the links unchanged and the balance of its root possibly not. */
  lemma StepFrame(m: Mem, m': Mem, c: Ctx, t: Tree, root: Entry?, h: int)
    requires c.Down? && Apart(c, t) && c.n in m
    requires Balanced(m, t) && BalancedCtx(m, c, h)
    requires c.n in m' && Retuned(m, m', c.n, m'[c.n].balance)
    ensures BalancedCtx(m', c.up, 1 + Max(h, Height(c.sib)))
    ensures Balanced(m', t) && Balanced(m', c.sib)
  {
    FrameTree(m, m', t, c.n, c.d);
    FrameTree(m, m', c.sib, c.n, 1 - c.d);
    FrameCtx(m, m', c.up, c.n, root, 1 + Max(h, Height(c.sib)));
  }

  /** The step of the climb to the parent `c.n`, whose balance has been set to the exact value. */
  lemma StepUp(m: Mem, m': Mem, c: Ctx, t: Tree, root: Entry?, h: int, b: int)
    requires c.Down? && Whole(m, c, t, root)
    requires Balanced(m, t) && BalancedCtx(m, c, h)
    requires Retuned(m, m', c.n, b)
    requires -1 <= b <= 1 && b == (if c.d == 0 then Height(c.sib) - Height(t) else Height(t) - Height(c.sib))
    ensures Whole(m', c.up, Join(c.d, t, c.n, c.sib), root) && Balanced(m', Join(c.d, t, c.n, c.sib))
    ensures Height(Join(c.d, t, c.n, c.sib)) == 1 + Max(Height(t), Height(c.sib))
    ensures BalancedCtx(m', c.up, 1 + Max(h, Height(c.sib)))
  {
    StepFrame(m, m', c, t, root, h);
    JoinBalanced(m', c.d, t, c.n, c.sib);
    SameLinksWhole(m, m', c, t, root);
    DownWhole(m', c.up, c.d, t, c.n, c.sib, root);
  }

  /** The same step when the balance is left alone, for a rotation to fix. */
  lemma LookUp(m: Mem, c: Ctx, t: Tree, root: Entry?, h: int)
    requires c.Down? && Whole(m, c, t, root)
    requires Balanced(m, t) && BalancedCtx(m, c, h)
    ensures Whole(m, c.up, Join(c.d, t, c.n, c.sib), root)
    ensures Height(Join(c.d, t, c.n, c.sib)) == 1 + Max(Height(t), Height(c.sib))
    ensures BalancedCtx(m, c.up, 1 + Max(h, Height(c.sib))) && Balanced(m, c.sib)
  {
    DownWhole(m, c.up, c.d, t, c.n, c.sib, root);
    JoinBalanced(m, c.d, t, c.n, c.sib);
  }

  // ------------------------------------------------------- growing subtrees

  /** The subtree `t` in the hole of `c` is one level taller than `c` has accounted for.
      It is a lone leaf or taller on one side. */
  ghost predicate Grown(m: Mem, c: Ctx, t: Tree, root: Entry?) {
    && t.Node? && Whole(m, c, t, root)
    && Balanced(m, t) && BalancedCtx(m, c, Height(t) - 1)
    && (Height(t) == 1 || Height(t.l) != Height(t.r))
  }

  lemma GrownEnds(m: Mem, c: Ctx, t: Tree, root: Entry?)
    requires Grown(m, c, t, root) && c.Top?
    ensures Exact(m, Plug(c, t), root)
  {
  }

  lemma GrownEvens(m: Mem, m': Mem, c: Ctx, t: Tree, root: Entry?)
    requires Grown(m, c, t, root) && c.Down? && m[c.n].balance + Heavy(c.d) == 0
    requires Retuned(m, m', c.n, 0)
    ensures Exact(m', Plug(c, t), root)
  {
    hide Whole, Exact, Balanced, Height, Nodes, Linked, LinkedCtx, Distinct, DistinctCtx, InOrder;
    var h := Height(t) - 1;
    StepUp(m, m', c, t, root, h, 0);
    assert Height(Join(c.d, t, c.n, c.sib)) == 1 + Max(h, Height(c.sib));
    CloseUp(m', c.up, Join(c.d, t, c.n, c.sib), root);
  }

  lemma GrownClimbs(m: Mem, m': Mem, c: Ctx, t: Tree, root: Entry?)
    requires Grown(m, c, t, root) && c.Down? && m[c.n].balance == 0
    requires Retuned(m, m', c.n, Heavy(c.d))
    ensures Grown(m', c.up, Join(c.d, t, c.n, c.sib), root)
  {
    hide Whole, Exact, Balanced, Height, Nodes, Linked, LinkedCtx, Distinct, DistinctCtx, InOrder;
    var h := Height(t) - 1;
    StepUp(m, m', c, t, root, h, Heavy(c.d));
    assert Height(Join(c.d, t, c.n, c.sib)) - 1 == 1 + Max(h, Height(c.sib));
  }

  lemma GrownTilts(m: Mem, c: Ctx, t: Tree, root: Entry?)
    requires Grown(m, c, t, root) && c.Down? && m[c.n].balance == Heavy(c.d)
    ensures var x := Join(c.d, t, c.n, c.sib);
            && Whole(m, c.up, x, root) && Tilted(m, x, c.d)
            && BalancedCtx(m, c.up, Height(x) - 1)
            && m[c.n].child.At(c.d) == t.n && t.n in m && m[t.n].balance != 0
  {
    hide Nodes, Distinct, DistinctCtx, InOrder, CtxNodes;
    var h := Height(t) - 1;
    LookUp(m, c, t, root, h);
    assert Height(Join(c.d, t, c.n, c.sib)) - 1 == 1 + Max(h, Height(c.sib));
  }

  /** A rotation that restores the height accounted for makes the tree valid again. */
  lemma RotationEnds(m: Mem, m': Mem, c: Ctx, x: Tree, x': Tree, root': Entry?, shorter: bool)
    requires Rotated(m, m', c, x, x', root', shorter)
    requires BalancedCtx(m, c, Height(x'))
    ensures Exact(m', Plug(c, x'), root') && InOrder(Plug(c, x')) == InOrder(Plug(c, x))
  {
    CloseUp(m', c, x', root');
    PlugInOrder(c, x);
    PlugInOrder(c, x');
  }

  /** Linking a new leaf into the hole of a valid tree. */
  lemma Sprout(m: Mem, m': Mem, c: Ctx, node: Entry, root: Entry?, root': Entry?)
    requires Exact(m, Plug(c, Leaf), root) && node !in m
    requires m'.Keys == m.Keys + {node}
    requires m'[node] == Links(Pair(null, null), Parent(c), SideOf(c), 0)
    requires forall n :: n in m && n != Parent(c) ==> m'[n] == m[n]
    requires Repointed(m, m', Parent(c), SideOf(c), root, node, root')
    ensures Grown(m', c, Node(Leaf, node, Leaf), root')
  {
    hide Exact, Plug, Nodes, CtxNodes, Distinct, DistinctCtx, Linked, LinkedCtx, Height, Balanced, BalancedCtx;
    OpenUp(m, c, Leaf, root);
    LoneNode(m', c, node);
    RepointAll(m, m', c, null, root, node, root');
  }

  /** A new element by itself. */
  lemma LoneNode(m: Mem, c: Ctx, node: Entry)
    requires node in m && m[node] == Links(Pair(null, null), Parent(c), SideOf(c), 0)
    ensures var t := Node(Leaf, node, Leaf);
      && Nodes(t) == {node} && Nodes(Leaf) == {} && Distinct(t) && Height(t) == 1 && Height(Leaf) == 0
      && Linked(m, t, Parent(c), SideOf(c)) && Balanced(m, t)
  {
    assert Nodes(Leaf) == {} && Height(Leaf) == 0;
    assert Linked(m, Leaf, node, 0) && Linked(m, Leaf, node, 1) && Balanced(m, Leaf);
  }

  lemma SproutOrder(c: Ctx, node: Entry)
    ensures InOrder(Plug(c, Node(Leaf, node, Leaf))) == Before(c) + [node] + After(c)
    ensures |InOrder(Plug(c, Node(Leaf, node, Leaf)))| == |InOrder(Plug(c, Leaf))| + 1
  {
    PlugInOrder(c, Node(Leaf, node, Leaf));
    PlugInOrder(c, Leaf);
  }

  // ----------------------------------------------------- shrinking subtrees

  /** The subtree `t` in the hole of `c` is one level shorter than `c` has accounted for. */
  ghost predicate Shrunk(m: Mem, c: Ctx, t: Tree, root: Entry?) {
    Whole(m, c, t, root) && Balanced(m, t) && BalancedCtx(m, c, Height(t) + 1)
  }

  lemma ShrunkEnds(m: Mem, c: Ctx, t: Tree, root: Entry?)
    requires Shrunk(m, c, t, root) && c.Top?
    ensures Exact(m, Plug(c, t), root)
  {
  }

  lemma ShrunkStops(m: Mem, m': Mem, c: Ctx, t: Tree, root: Entry?)
    requires Shrunk(m, c, t, root) && c.Down? && m[c.n].balance == 0
    requires Retuned(m, m', c.n, -Heavy(c.d))
    ensures Exact(m', Plug(c, t), root)
  {
    hide Whole, Exact, Balanced, Height, Nodes, Linked, LinkedCtx, Distinct, DistinctCtx, InOrder;
    StepUp(m, m', c, t, root, Height(t) + 1, -Heavy(c.d));
    CloseUp(m', c.up, Join(c.d, t, c.n, c.sib), root);
  }

  lemma ShrunkClimbs(m: Mem, m': Mem, c: Ctx, t: Tree, root: Entry?)
    requires Shrunk(m, c, t, root) && c.Down? && m[c.n].balance == Heavy(c.d)
    requires Retuned(m, m', c.n, 0)
    ensures Shrunk(m', c.up, Join(c.d, t, c.n, c.sib), root)
  {
    hide Whole, Exact, Balanced, Height, Nodes, Linked, LinkedCtx, Distinct, DistinctCtx, InOrder;
    var h := Height(t) + 1;
    StepUp(m, m', c, t, root, h, 0);
    assert Height(Join(c.d, t, c.n, c.sib)) + 1 == 1 + Max(h, Height(c.sib));
  }

  lemma ShrunkTilts(m: Mem, c: Ctx, t: Tree, root: Entry?)
    requires Shrunk(m, c, t, root) && c.Down? && m[c.n].balance == -Heavy(c.d)
    ensures var x := Join(c.d, t, c.n, c.sib);
            && Whole(m, c.up, x, root) && Tilted(m, x, 1 - c.d)
            && BalancedCtx(m, c.up, Height(x))
            && c.sib.Node? && m[c.n].child.At(1 - c.d) == c.sib.n
  {
    hide Nodes, Apart, InOrder, CtxNodes, Linked;
    LookUp(m, c, t, root, Height(t) + 1);
  }

  lemma RotationShrinks(m: Mem, m': Mem, c: Ctx, x: Tree, x': Tree, root': Entry?)
    requires Rotated(m, m', c, x, x', root', true) && BalancedCtx(m, c, Height(x))
    ensures Shrunk(m', c, x', root') && InOrder(Plug(c, x')) == InOrder(Plug(c, x))
  {
    PlugInOrder(c, x);
    PlugInOrder(c, x');
  }
}
