/** Removing an element with two children: a neighbour in order takes its place,
    and a placeholder takes the neighbour's place. */
module AvlSwap {
  import opened Common
  import opened AvlShape
  import opened AvlRotation
  import opened AvlClimb

  /** Sequence `s'` is `s` with one occurrence of `x` taken out. */
  ghost predicate IsWithout(s': seq<Entry>, s: seq<Entry>, x: Entry) {
    exists i :: 0 <= i < |s| && s[i] == x && s' == s[..i] + s[i + 1..]
  }

  lemma WithoutMiddle(a: seq<Entry>, x: Entry, b: seq<Entry>)
    ensures IsWithout(a + b, a + [x] + b, x)
  {
    var s := a + [x] + b;
    assert s[|a|] == x && a + b == s[..|a|] + s[|a| + 1..];
  }

  /** Every step of `c` goes to side `d`. */
  ghost predicate Spine(c: Ctx, d: Side) {
    c.Down? ==> c.d == d && Spine(c.up, d)
  }

  /** The entry at the top of `c` with `hole` in its hole. */
  ghost function TopOf(c: Ctx, hole: Entry?): Entry? {
    match c
    case Top => hole
    case Down(up, _, n, _) => TopOf(up, n)
  }

  lemma {:induction false} ComposeNodes(a: Ctx, b: Ctx)
    ensures CtxNodes(Compose(a, b)) == CtxNodes(a) + CtxNodes(b)
    ensures DistinctCtx(Compose(a, b)) <==> DistinctCtx(a) && DistinctCtx(b) && CtxNodes(a) !! CtxNodes(b)
    decreases a
  {
    if a.Down? {
      ComposeNodes(a.up, b);
    }
  }

  lemma {:induction false} TopInside(c: Ctx, hole: Entry?)
    ensures c.Down? ==> TopOf(c, hole) in CtxNodes(c)
    decreases c
  {
    if c.Down? {
      TopInside(c.up, c.n);
    }
  }

  lemma {:induction false} PlugTop(c: Ctx, t: Tree)
    requires t.Node? || c.Down?
    ensures Root(Plug(c, t)) == TopOf(c, Root(t))
    decreases c
  {
    if c.Down? {
      PlugTop(c.up, Join(c.d, t, c.n, c.sib));
    }
  }

  /** Entry `n` of the context `a` after the swap: the top of `a` has another parent,
      and the hole of `a` holds another entry. */
  ghost predicate Rebased(m: Mem, m': Mem, a: Ctx, n: Entry, hole': Entry?, p': Entry?) {
    && n in m && n in m'
    && m'[n] == Links(if n == Parent(a) then m[n].child.With(SideOf(a), hole') else m[n].child,
                      if n == TopOf(a, null) then p' else m[n].parent, m[n].which, m[n].balance)
  }

  lemma {:induction false} RebaseLinks(m: Mem, m': Mem, a: Ctx, b: Ctx, b': Ctx, hole: Entry?, hole': Entry?,
                                       root: Entry?, root': Entry?)
    requires LinkedCtx(m, Compose(a, b), hole, root) && DistinctCtx(a)
    requires LinkedCtx(m', b', TopOf(a, hole'), root') && b.Down? && b'.Down? && b.d == b'.d
    requires forall n :: n in CtxNodes(a) ==> Rebased(m, m', a, n, hole', Parent(b'))
    ensures LinkedCtx(m', Compose(a, b'), hole', root')
    decreases a
  {
    hide InOrder, Balanced, Height, Distinct, Linked;
    if a.Down? {
      var up := a.up;
      assert a.n in CtxNodes(a) && Rebased(m, m', a, a.n, hole', Parent(b'));
      TopInside(up, a.n);
      assert LinkedCtx(m, Compose(up, b), a.n, root);
      assert up.Down? ==> m[up.n].child.At(up.d) == a.n;
      forall n | n in CtxNodes(up) ensures Rebased(m, m', up, n, a.n, Parent(b')) {
        assert Rebased(m, m', a, n, hole', Parent(b'));
        assert TopOf(up, a.n) == TopOf(up, null);
      }
      RebaseLinks(m, m', up, b, b', a.n, a.n, root, root');
      forall n | n in Nodes(a.sib) ensures m'[n] == m[n] {
        assert Rebased(m, m', a, n, hole', Parent(b'));
      }
      FrameTree(m, m', a.sib, a.n, 1 - a.d);
    }
  }

  // --------------------------------------------------------------- balances

  ghost predicate SameBalances(m: Mem, m': Mem, s: set<Entry>) {
    forall n :: n in s && n in m ==> n in m' && m'[n].balance == m[n].balance
  }

  lemma {:induction false} BalancesTree(m: Mem, m': Mem, t: Tree)
    requires SameBalances(m, m', Nodes(t)) && Balanced(m, t)
    ensures Balanced(m', t)
  {
    if t.Node? {
      BalancesTree(m, m', t.l);
      BalancesTree(m, m', t.r);
    }
  }

  lemma {:induction false} BalancesCtx(m: Mem, m': Mem, c: Ctx, h: int)
    requires SameBalances(m, m', CtxNodes(c)) && BalancedCtx(m, c, h)
    ensures BalancedCtx(m', c, h)
    decreases c
  {
    if c.Down? {
      BalancesTree(m, m', c.sib);
      BalancesCtx(m, m', c.up, 1 + Max(h, Height(c.sib)));
    }
  }

  /** The same context with another entry next to the hole, of the same balance. */
  lemma {:induction false} RebaseBalance(m: Mem, m': Mem, a: Ctx, up: Ctx, d: Side, n: Entry, n': Entry, r: Tree,
                                         h: int)
    requires BalancedCtx(m, Compose(a, Down(up, d, n, r)), h)
    requires SameBalances(m, m', CtxNodes(a)) && SameBalances(m, m', CtxNodes(up)) && SameBalances(m, m', Nodes(r))
    requires n in m && n' in m' && m'[n'].balance == m[n].balance
    ensures BalancedCtx(m', Compose(a, Down(up, d, n', r)), h)
    decreases a
  {
    if a.Down? {
      BalancesTree(m, m', a.sib);
      RebaseBalance(m, m', a.up, up, d, n, n', r, 1 + Max(h, Height(a.sib)));
    } else {
      BalancesTree(m, m', r);
      BalancesCtx(m, m', up, 1 + Max(h, Height(r)));
    }
  }

  // ------------------------------------------------------------------ order

  lemma {:induction false} SpineOrder(a: Ctx, d: Side)
    requires Spine(a, d)
    ensures if d == 0 then Before(a) == [] else After(a) == []
    decreases a
  {
    if a.Down? {
      SpineOrder(a.up, d);
    }
  }

  // ------------------------------------------------------------------- swap

  /** The entry `d` with two children; its place `c0`; the neighbour `node` reached by going
      to side `left` once and then along `spine`; the neighbour's other subtree `y`. */
  datatype Site = Site(c0: Ctx, left: Side, d: Entry, r: Tree, spine: Ctx, node: Entry, y: Tree) {
    /** The place of `node` before the swap. */
    ghost function Old(): Ctx { Compose(spine, Down(c0, left, d, r)) }
    /** The place of the placeholder after the swap. */
    ghost function New(): Ctx { Compose(spine, Down(c0, left, node, r)) }
    ghost function Whole0(): Tree { Plug(Old(), Join(left, y, node, Leaf)) }
  }

  /** The writes of the swap. */
  ghost predicate SwapWrites(m: Mem, m': Mem, k: Site, tmp: Entry, root: Entry?, root': Entry?) {
    var p, l0, q := Parent(k.c0), TopOf(k.spine, null), Parent(k.spine);
    && m'.Keys == m.Keys - {k.d} + {tmp} && k.node in m && k.d in m && k.node != k.d
    && m'[tmp] == m[k.node].(parent := if k.spine.Top? then k.node else m[k.node].parent)
    && m'[k.node] == m[k.d].(child := if k.spine.Top? then m[k.d].child.With(k.left, tmp) else m[k.d].child)
    && (forall n :: n in m && n != k.d && n != k.node ==>
        m'[n] == Links(if n == p then m[n].child.With(SideOf(k.c0), k.node)
                       else if n == q then m[n].child.With(1 - k.left, tmp) else m[n].child,
                       if n == Root(k.r) || n == l0 then k.node else if n == Root(k.y) then tmp else m[n].parent,
                       m[n].which, m[n].balance))
    && root' == if p == null then k.node else root
  }

  /** The first part of those writes: `k.node` is in the place of `k.d`, and the placeholder is still to be linked. */
  ghost predicate MoveWrites(m: Mem, m': Mem, k: Site, tmp: Entry, root: Entry?, root': Entry?) {
    var p, l0 := Parent(k.c0), TopOf(k.spine, null);
    && m'.Keys == m.Keys - {k.d} + {tmp} && k.node in m && k.d in m && k.node != k.d
    && m'[tmp] == m[k.node].(parent := if k.spine.Top? then k.node else m[k.node].parent)
    && m'[k.node] == m[k.d].(child := if k.spine.Top? then m[k.d].child.With(k.left, tmp) else m[k.d].child)
    && (forall n :: n in m && n != k.d && n != k.node ==>
          m'[n] == Links(if n == p then m[n].child.With(SideOf(k.c0), k.node) else m[n].child,
                         if n == Root(k.r) || n == l0 then k.node else m[n].parent, m[n].which, m[n].balance))
    && root' == if p == null then k.node else root
  }

  /** Where the entries of a site are. */
  ghost predicate Laid(m: Mem, k: Site) {
    && DistinctCtx(k.c0) && DistinctCtx(k.spine) && Distinct(k.r) && Distinct(k.y)
    && k.d != k.node
    && k.d !in CtxNodes(k.c0) + CtxNodes(k.spine) + Nodes(k.r) + Nodes(k.y)
    && k.node !in CtxNodes(k.c0) + CtxNodes(k.spine) + Nodes(k.r) + Nodes(k.y)
    && CtxNodes(k.c0) !! CtxNodes(k.spine) !! Nodes(k.r) !! Nodes(k.y)
    && m.Keys == CtxNodes(k.c0) + CtxNodes(k.spine) + Nodes(k.r) + Nodes(k.y) + {k.d, k.node}
  }

  lemma SiteLaid(m: Mem, k: Site, root: Entry?)
    requires Exact(m, k.Whole0(), root)
    ensures Laid(m, k)
  {
    OpenUp(m, k.Old(), Join(k.left, k.y, k.node, Leaf), root);
    JoinDistinct(k.left, k.y, k.node, Leaf);
    ComposeNodes(k.spine, Down(k.c0, k.left, k.d, k.r));
    assert Nodes(Leaf) == {};
  }

  lemma SiteLinked(m: Mem, k: Site, root: Entry?)
    requires Exact(m, k.Whole0(), root)
    ensures Balanced(m, k.y) && BalancedCtx(m, k.Old(), Height(k.y) + 1)
    ensures Linked(m, k.y, k.node, k.left)
    ensures k.node in m && m[k.node].child.At(k.left) == Root(k.y) && m[k.node].child.At(1 - k.left) == null
    ensures m[k.node].parent == Parent(k.Old()) && (k.Old().Down? ==> m[k.node].which == SideOf(k.Old()))
    ensures LinkedCtx(m, k.Old(), k.node, root)
  {
    var t := Join(k.left, k.y, k.node, Leaf);
    OpenUp(m, k.Old(), t, root);
    JoinBalanced(m, k.left, k.y, k.node, Leaf);
    JoinLinked(m, k.left, k.y, k.node, Leaf, Parent(k.Old()), SideOf(k.Old()));
    assert Height(Leaf) == 0;
    assert Height(t) == Height(k.y) + 1;
  }

  lemma {:induction false} ComposeLinked(m: Mem, a: Ctx, b: Ctx, hole: Entry?, root: Entry?)
    requires LinkedCtx(m, Compose(a, b), hole, root)
    ensures LinkedCtx(m, b, TopOf(a, hole), root)
    decreases a
  {
    if a.Down? {
      ComposeLinked(m, a.up, b, a.n, root);
    }
  }

  /** What the swap does to each part of the tree. */
  ghost predicate SwapParts(m: Mem, m': Mem, k: Site, tmp: Entry, root: Entry?, root': Entry?) {
    && Agree(m, m', CtxNodes(k.c0) - {Parent(k.c0)}) && DistinctCtx(k.c0)
    && Repointed(m, m', Parent(k.c0), SideOf(k.c0), root, k.node, root')
    && Agree(m, m', Nodes(k.r) - {Root(k.r)}) && Distinct(k.r)
    && (k.r.Node? ==> k.r.n in m && k.r.n in m' && m'[k.r.n] == m[k.r.n].(parent := k.node))
    && Agree(m, m', Nodes(k.y) - {Root(k.y)}) && Distinct(k.y)
    && (k.y.Node? ==> k.y.n in m && k.y.n in m' && m'[k.y.n] == m[k.y.n].(parent := tmp))
    && (forall n :: n in CtxNodes(k.spine) ==> Rebased(m, m', k.spine, n, tmp, k.node)) && DistinctCtx(k.spine)
  }

  lemma SwapSpine(m: Mem, m': Mem, k: Site, tmp: Entry, root: Entry?, root': Entry?)
    requires Laid(m, k) && tmp !in m && Spine(k.spine, 1 - k.left)
    requires SwapWrites(m, m', k, tmp, root, root')
    ensures forall n :: n in CtxNodes(k.spine) ==> Rebased(m, m', k.spine, n, tmp, k.node)
  {
    forall n | n in CtxNodes(k.spine) ensures Rebased(m, m', k.spine, n, tmp, k.node) {
      assert k.c0.Down? ==> k.c0.n in CtxNodes(k.c0);
      assert k.r.Node? ==> k.r.n in Nodes(k.r);
      assert k.y.Node? ==> k.y.n in Nodes(k.y);
      assert n in m && n != k.d && n != k.node && n !in CtxNodes(k.c0) && n !in Nodes(k.r) && n !in Nodes(k.y);
    }
  }

  lemma SwapAbove(m: Mem, m': Mem, k: Site, tmp: Entry, root: Entry?, root': Entry?)
    requires Laid(m, k) && tmp !in m
    requires SwapWrites(m, m', k, tmp, root, root')
    ensures Agree(m, m', CtxNodes(k.c0) - {Parent(k.c0)})
    ensures Repointed(m, m', Parent(k.c0), SideOf(k.c0), root, k.node, root')
  {
    TopInside(k.spine, null);
    assert k.c0.Down? ==> k.c0.n in CtxNodes(k.c0);
    assert k.spine.Down? ==> k.spine.n in CtxNodes(k.spine);
    assert k.r.Node? ==> k.r.n in Nodes(k.r);
    assert k.y.Node? ==> k.y.n in Nodes(k.y);
  }

  /** A subtree `t` beside the path keeps everything but the parent of its root. */
  lemma SwapBeside(m: Mem, m': Mem, k: Site, t: Tree, tmp: Entry, root: Entry?, root': Entry?)
    requires Laid(m, k) && tmp !in m && (t == k.r || t == k.y)
    requires SwapWrites(m, m', k, tmp, root, root')
    ensures Agree(m, m', Nodes(t) - {Root(t)})
    ensures t.Node? ==> t.n in m && t.n in m' && m'[t.n] == m[t.n].(parent := if t == k.r then k.node else tmp)
  {
    hide Nodes, CtxNodes, Distinct, DistinctCtx;
    TopInside(k.spine, null);
    OwnMembers(k.c0, k.r);
    OwnMembers(k.spine, k.y);
  }

  lemma SwapSplits(m: Mem, m': Mem, k: Site, tmp: Entry, root: Entry?, root': Entry?)
    requires Laid(m, k) && tmp !in m && Spine(k.spine, 1 - k.left)
    requires SwapWrites(m, m', k, tmp, root, root')
    ensures SwapParts(m, m', k, tmp, root, root')
  {
    SwapSpine(m, m', k, tmp, root, root');
    SwapAbove(m, m', k, tmp, root, root');
    SwapBeside(m, m', k, k.r, tmp, root, root');
    SwapBeside(m, m', k, k.y, tmp, root, root');
    assert k.y.Node? ==> k.y.n in Nodes(k.y);
  }

  /** After the swap everything above the neighbour's old place is linked. */
  lemma SwapBase(m: Mem, m': Mem, k: Site, tmp: Entry, root: Entry?, root': Entry?)
    requires LinkedCtx(m, k.Old(), k.node, root)
    requires SwapParts(m, m', k, tmp, root, root')
    requires k.d in m && k.node in m'
    requires m'[k.node] == m[k.d].(child := if k.spine.Top? then m[k.d].child.With(k.left, tmp) else m[k.d].child)
    ensures LinkedCtx(m', Down(k.c0, k.left, k.node, k.r), TopOf(k.spine, tmp), root')
  {
    ComposeLinked(m, k.spine, Down(k.c0, k.left, k.d, k.r), k.node, root);
    assert k.spine.Down? ==> TopOf(k.spine, tmp) == TopOf(k.spine, k.node);
    Rehang(m, m', k.r, k.d, 1 - k.left, k.node, 1 - k.left);
    RepointAll(m, m', k.c0, k.d, root, k.node, root');
  }

  lemma {:induction false} ComposePlace(a: Ctx, b: Ctx, b': Ctx)
    requires b.Down? && b'.Down? && b.d == b'.d
    ensures SideOf(Compose(a, b)) == SideOf(Compose(a, b'))
    ensures Parent(Compose(a, b)) == if a.Top? then b.n else a.n
  {
  }

  /** After the swap the placeholder hangs where the neighbour was. */
  lemma SwapHangs(m: Mem, m': Mem, k: Site, tmp: Entry, root: Entry?, root': Entry?)
    requires Exact(m, k.Whole0(), root) && tmp !in m && Spine(k.spine, 1 - k.left)
    requires SwapWrites(m, m', k, tmp, root, root')
    ensures Hangs(m', k.New(), Join(k.left, k.y, tmp, Leaf), root')
  {
    SiteLaid(m, k, root);
    SiteLinked(m, k, root);
    SwapSplits(m, m', k, tmp, root, root');
    SwapBase(m, m', k, tmp, root, root');
    var base, base' := Down(k.c0, k.left, k.d, k.r), Down(k.c0, k.left, k.node, k.r);
    RebaseLinks(m, m', k.spine, base, base', k.node, tmp, root, root');
    Rehang(m, m', k.y, k.node, k.left, tmp, k.left);
    ComposePlace(k.spine, base, base');
    ComposePlace(k.spine, base', base);
    assert Linked(m', Leaf, tmp, 1 - k.left);
    JoinLinked(m', k.left, k.y, tmp, Leaf, Parent(k.New()), SideOf(k.New()));
  }

  lemma SwapApart(m: Mem, m': Mem, k: Site, tmp: Entry)
    requires Laid(m, k) && tmp !in m && m'.Keys == m.Keys - {k.d} + {tmp}
    ensures Apart(k.New(), Join(k.left, k.y, tmp, Leaf))
    ensures Nodes(Join(k.left, k.y, tmp, Leaf)) + CtxNodes(k.New()) == m'.Keys
  {
    ComposeNodes(k.spine, Down(k.c0, k.left, k.node, k.r));
    JoinDistinct(k.left, k.y, tmp, Leaf);
    assert Nodes(Leaf) == {};
  }

  lemma SwapBalances(m: Mem, m': Mem, k: Site, tmp: Entry, root: Entry?, root': Entry?)
    requires Laid(m, k) && tmp !in m && SwapWrites(m, m', k, tmp, root, root')
    requires Balanced(m, k.y) && BalancedCtx(m, k.Old(), Height(k.y) + 1)
    ensures Balanced(m', k.y) && BalancedCtx(m', k.New(), Height(k.y) + 1)
  {
    BalancesTree(m, m', k.y);
    RebaseBalance(m, m', k.spine, k.c0, k.left, k.d, k.node, k.r, Height(k.y) + 1);
  }

  lemma LeftNeighbour(x: seq<Entry>, s: seq<Entry>, n: Entry, d: Entry, q: seq<Entry>, y: seq<Entry>)
    ensures IsWithout(x + (s + [n] + q) + y, x + ((s + [n]) + [d] + q) + y, d)
  {
    WithoutMiddle(x + s + [n], d, q + y);
    assert x + s + [n] + (q + y) == x + (s + [n] + q) + y;
    assert x + s + [n] + [d] + (q + y) == x + ((s + [n]) + [d] + q) + y;
  }

  lemma RightNeighbour(x: seq<Entry>, s: seq<Entry>, n: Entry, d: Entry, q: seq<Entry>, y: seq<Entry>)
    ensures IsWithout(x + (q + [n] + s) + y, x + (q + [d] + ([n] + s)) + y, d)
  {
    WithoutMiddle(x + q, d, [n] + s + y);
    assert x + q + ([n] + s + y) == x + (q + [n] + s) + y;
    assert x + q + [d] + ([n] + s + y) == x + (q + [d] + ([n] + s)) + y;
  }

  /** Without the placeholder, what is on side `left` of `k.d` lacks only `k.node`. */
  lemma SpineWithout(spine: Ctx, left: Side, y: Tree, node: Entry)
    requires Spine(spine, 1 - left)
    ensures var s := InOrder(Plug(spine, y));
            InOrder(Plug(spine, Join(left, y, node, Leaf))) == if left == 0 then s + [node] else [node] + s
  {
    assert InOrder(Leaf) == [];
    PlugInOrder(spine, Join(left, y, node, Leaf));
    PlugInOrder(spine, y);
    SpineOrder(spine, 1 - left);
    JoinOrder(left, y, node, Leaf);
    SpineEnds(Before(spine), InOrder(y), After(spine), node, left);
  }

  lemma SpineEnds(a: seq<Entry>, s: seq<Entry>, b: seq<Entry>, x: Entry, left: Side)
    ensures b == [] ==> a + (s + [x] + []) + b == (a + s + b) + [x]
    ensures a == [] ==> a + ([] + [x] + s) + b == [x] + (a + s + b)
  {
  }

  /** Without the placeholder, the swapped tree has the old order without `k.d`. */
  lemma SwapOrder(k: Site)
    requires Spine(k.spine, 1 - k.left)
    ensures IsWithout(InOrder(Plug(k.New(), k.y)), InOrder(k.Whole0()), k.d)
  {
    PlugCompose(k.spine, Down(k.c0, k.left, k.d, k.r), Join(k.left, k.y, k.node, Leaf));
    PlugCompose(k.spine, Down(k.c0, k.left, k.node, k.r), k.y);
    SpineWithout(k.spine, k.left, k.y, k.node);
    NeighbourOrder(k.c0, k.left, Plug(k.spine, Join(k.left, k.y, k.node, Leaf)), Plug(k.spine, k.y), k.node, k.d, k.r);
  }

  lemma NeighbourOrder(c0: Ctx, left: Side, l: Tree, l': Tree, n: Entry, d: Entry, r: Tree)
    requires InOrder(l) == if left == 0 then InOrder(l') + [n] else [n] + InOrder(l')
    ensures IsWithout(InOrder(Plug(c0, Join(left, l', n, r))), InOrder(Plug(c0, Join(left, l, d, r))), d)
  {
    PlugInOrder(c0, Join(left, l, d, r));
    PlugInOrder(c0, Join(left, l', n, r));
    JoinOrder(left, l, d, r);
    JoinOrder(left, l', n, r);
    if left == 0 {
      LeftNeighbour(Before(c0), InOrder(l'), n, d, InOrder(r), After(c0));
    } else {
      RightNeighbour(Before(c0), InOrder(l'), n, d, InOrder(r), After(c0));
    }
  }

  /** The pointers the code reads at a site. */
  ghost predicate Aimed(m: Mem, k: Site) {
    && k.d in m && k.node in m
    && m[k.d].parent == Parent(k.c0) && (k.c0.Down? ==> m[k.d].which == k.c0.d && k.c0.n in m)
    && m[k.d].child.At(k.left) == TopOf(k.spine, k.node) && m[k.d].child.At(1 - k.left) == Root(k.r)
    && m[k.node].child.At(k.left) == Root(k.y) && m[k.node].child.At(1 - k.left) == null
    && m[k.node].parent == (if k.spine.Top? then k.d else k.spine.n)
    && m[k.node].which == (if k.spine.Top? then k.left else 1 - k.left)
  }

  lemma SiteAimed(m: Mem, k: Site, root: Entry?)
    requires Exact(m, k.Whole0(), root) && Spine(k.spine, 1 - k.left)
    ensures Aimed(m, k)
  {
    SiteLinked(m, k, root);
    ComposeLinked(m, k.spine, Down(k.c0, k.left, k.d, k.r), k.node, root);
    assert k.spine.Top? ==> k.Old() == Down(k.c0, k.left, k.d, k.r);
    assert k.c0.Down? ==> LinkedCtx(m, k.c0, k.d, root);
  }

  /** The entries the swap writes are different from each other. */
  ghost predicate Spaced(m: Mem, k: Site) {
    var p, l0, q := Parent(k.c0), TopOf(k.spine, null), Parent(k.spine);
    && k.d != k.node && k.node in m && k.d in m
    && (p != null ==> p in m && p != k.d && p != k.node && p != l0 && p != q && p != Root(k.r) && p != Root(k.y))
    && (l0 == null <==> q == null)
    && (l0 != null ==> l0 in m && l0 != k.d && l0 != k.node && l0 != Root(k.r) && l0 != Root(k.y))
    && (q != null ==> q in m && q != k.d && q != k.node && q != Root(k.r) && q != Root(k.y))
    && (k.r.Node? ==> k.r.n in m && k.r.n != k.d && k.r.n != k.node && k.r.n != Root(k.y))
    && (k.y.Node? ==> k.y.n in m && k.y.n != k.d && k.y.n != k.node)
  }

  lemma SiteSpaced(m: Mem, k: Site)
    requires Laid(m, k)
    ensures Spaced(m, k)
  {
    TopInside(k.spine, null);
    assert k.c0.Down? ==> k.c0.n in CtxNodes(k.c0);
    assert k.spine.Down? ==> k.spine.n in CtxNodes(k.spine);
    assert k.r.Node? ==> k.r.n in Nodes(k.r);
    assert k.y.Node? ==> k.y.n in Nodes(k.y);
  }

  // ---------------------------------------------------------------- unlink

  /** Entry `x`, with at most the one subtree `y`, hangs in the hole of `c`, and `c` accounts for its height. */
  ghost predicate Loose(m: Mem, c: Ctx, d: Side, y: Tree, x: Entry, root: Entry?) {
    && Whole(m, c, Join(d, y, x, Leaf), root)
    && Balanced(m, y) && BalancedCtx(m, c, Height(y) + 1)
  }

  lemma SwapWhole(m: Mem, m': Mem, k: Site, tmp: Entry, root: Entry?, root': Entry?)
    requires Exact(m, k.Whole0(), root) && tmp !in m && Spine(k.spine, 1 - k.left)
    requires SwapWrites(m, m', k, tmp, root, root')
    ensures Whole(m', k.New(), Join(k.left, k.y, tmp, Leaf), root')
  {
    SiteLaid(m, k, root);
    SwapApart(m, m', k, tmp);
    SwapHangs(m, m', k, tmp, root, root');
  }

  /** The swap leaves the placeholder loose. */
  lemma SwapLoose(m: Mem, m': Mem, k: Site, tmp: Entry, root: Entry?, root': Entry?)
    requires Exact(m, k.Whole0(), root) && tmp !in m && Spine(k.spine, 1 - k.left)
    requires SwapWrites(m, m', k, tmp, root, root')
    ensures Loose(m', k.New(), k.left, k.y, tmp, root')
  {
    hide Exact, Whole, Balanced, BalancedCtx, SwapWrites, Laid, Spine, Height;
    SiteLaid(m, k, root);
    SiteLinked(m, k, root);
    SwapBalances(m, m', k, tmp, root, root');
    SwapWhole(m, m', k, tmp, root, root');
  }

  /** An entry with a missing child is loose where it is. */
  lemma LeafyLoose(m: Mem, c: Ctx, d: Side, y: Tree, x: Entry, root: Entry?)
    requires Exact(m, Plug(c, Join(d, y, x, Leaf)), root)
    ensures Loose(m, c, d, y, x, root)
  {
    var t := Join(d, y, x, Leaf);
    OpenUp(m, c, t, root);
    JoinBalanced(m, d, y, x, Leaf);
    assert Height(Leaf) == 0;
    assert Height(t) == Height(y) + 1;
  }

  /** Taking it out takes it out of the order. */
  lemma LeafyOrder(c: Ctx, d: Side, y: Tree, x: Entry)
    ensures IsWithout(InOrder(Plug(c, y)), InOrder(Plug(c, Join(d, y, x, Leaf))), x)
  {
    PlugInOrder(c, Join(d, y, x, Leaf));
    PlugInOrder(c, y);
    JoinOrder(d, y, x, Leaf);
    assert InOrder(Leaf) == [];
    assert InOrder(y) + [x] + [] == InOrder(y) + [x] && [] + [x] + InOrder(y) == [x] + InOrder(y);
    LeafyMiddle(Before(c), InOrder(y), x, After(c));
  }

  lemma LeafyMiddle(a: seq<Entry>, s: seq<Entry>, x: Entry, b: seq<Entry>)
    ensures IsWithout(a + s + b, a + (s + [x]) + b, x)
    ensures IsWithout(a + s + b, a + ([x] + s) + b, x)
  {
    WithoutMiddle(a + s, x, b);
    assert a + s + [x] + b == a + (s + [x]) + b;
    WithoutMiddle(a, x, s + b);
    assert a + (s + b) == a + s + b;
    assert a + [x] + (s + b) == a + ([x] + s) + b;
  }

  lemma LoosePointers(m: Mem, c: Ctx, d: Side, y: Tree, x: Entry, root: Entry?)
    requires Loose(m, c, d, y, x, root)
    ensures x in m && m[x].parent == Parent(c)
    ensures c.Down? ==> m[x].which == c.d && c.n in m && c.n != x && c.n != Root(y)
    ensures m[x].child.At(d) == Root(y) && m[x].child.At(1 - d) == null
    ensures y.Node? ==> y.n in m && y.n != x
  {
    JoinLinked(m, d, y, x, Leaf, Parent(c), SideOf(c));
    JoinDistinct(d, y, x, Leaf);
    assert c.Down? ==> c.n in CtxNodes(c);
    assert y.Node? ==> y.n in Nodes(y);
  }

  lemma UnlinkFrame(m: Mem, m': Mem, c: Ctx, d: Side, y: Tree, x: Entry)
    requires Apart(c, Join(d, y, x, Leaf)) && Nodes(Join(d, y, x, Leaf)) + CtxNodes(c) == m.Keys
    requires m'.Keys == m.Keys - {x}
    requires forall n :: n in m && n != x && n != Parent(c) && n != Root(y) ==> m'[n] == m[n]
    ensures Apart(c, y) && Nodes(y) + CtxNodes(c) == m'.Keys
    ensures Agree(m, m', Nodes(y) - {Root(y)}) && Agree(m, m', CtxNodes(c) - {Parent(c)})
  {
    JoinDistinct(d, y, x, Leaf);
    assert Nodes(Leaf) == {};
    assert c.Down? ==> c.n in CtxNodes(c);
    assert y.Node? ==> y.n in Nodes(y);
  }

  lemma UnlinkShrinks(m: Mem, m': Mem, c: Ctx, d: Side, y: Tree, x: Entry, root: Entry?, root': Entry?)
    requires Loose(m, c, d, y, x, root) && m'.Keys == m.Keys - {x} && x in m
    requires forall n :: n in m && n != x && n != Parent(c) && n != Root(y) ==> m'[n] == m[n]
    requires y.Node? ==> y.n in m && y.n in m' && m'[y.n] == m[y.n].(parent := Parent(c), which := m[x].which)
    requires Repointed(m, m', Parent(c), SideOf(c), root, Root(y), root')
    ensures Shrunk(m', c, y, root')
  {
    LoosePointers(m, c, d, y, x, root);
    UnlinkFrame(m, m', c, d, y, x);
    JoinLinked(m, d, y, x, Leaf, Parent(c), SideOf(c));
    Rehang(m, m', y, x, d, Parent(c), m[x].which);
    RepointAll(m, m', c, x, root, Root(y), root');
  }
}
