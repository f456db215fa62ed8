/** What the two rotations of an AVL tree do to the links, the balances, the
    order and the height.  Everything is stated for one side `left`; the other
    side is the mirror image. */
module AvlRotation {
  import opened Common
  import opened AvlShape

  /** The balance of an element whose `left` side is one taller. */
  ghost function Heavy(left: Side): int { if left == 0 then -1 else 1 }

  /** Tree `t` hangs in the hole of `c`: the links are exact. */
  ghost predicate Hangs(m: Mem, c: Ctx, t: Tree, root: Entry?) {
    && Linked(m, t, Parent(c), SideOf(c))
    && LinkedCtx(m, c, Root(t), root)
  }

  /** No element occurs twice in `t` and `c` together. */
  ghost predicate Apart(c: Ctx, t: Tree) {
    Distinct(t) && DistinctCtx(c) && Nodes(t) !! CtxNodes(c)
  }

  /** Exact balances of everything outside the hole survive, whatever the height of the hole. */
  ghost predicate KeepsCtxBalance(m: Mem, m': Mem, c: Ctx) {
    forall h: int :: BalancedCtx(m, c, h) ==> BalancedCtx(m', c, h)
  }

  /** Child `s` of `p` (the root pointer if `p` is null) is now `hole'`. */
  ghost predicate Repointed(m: Mem, m': Mem, p: Entry?, s: Side, root: Entry?, hole': Entry?, root': Entry?) {
    && (p == null ==> root' == hole')
    && (p != null ==> root' == root && p in m && p in m' && m'[p] == m[p].(child := m[p].child.With(s, hole')))
  }

  /** Element `x`, if any, now hangs as child `d` of `p`. */
  ghost predicate Rehung(m: Mem, m': Mem, x: Entry?, p: Entry, d: Side) {
    x != null ==> x in m && x in m' && m'[x] == m[x].(parent := p, which := d)
  }

  lemma RepointAll(m: Mem, m': Mem, c: Ctx, hole: Entry?, root: Entry?, hole': Entry?, root': Entry?)
    requires LinkedCtx(m, c, hole, root) && DistinctCtx(c)
    requires Agree(m, m', CtxNodes(c) - {Parent(c)})
    requires Repointed(m, m', Parent(c), SideOf(c), root, hole', root')
    ensures LinkedCtx(m', c, hole', root') && KeepsCtxBalance(m, m', c)
  {
    forall h: int ensures LinkedCtx(m', c, hole', root') && (BalancedCtx(m, c, h) ==> BalancedCtx(m', c, h)) {
      Repoint(m, m', c, hole, root, hole', root', h);
    }
    Repoint(m, m', c, hole, root, hole', root', 0);
  }

  lemma JoinDistinct(d: Side, a: Tree, n: Entry, b: Tree)
    ensures Nodes(Join(d, a, n, b)) == Nodes(a) + {n} + Nodes(b)
    ensures Distinct(Join(d, a, n, b))
       <==> n !in Nodes(a) && n !in Nodes(b) && Nodes(a) !! Nodes(b) && Distinct(a) && Distinct(b)
  {
  }

  lemma JoinOrder(d: Side, a: Tree, n: Entry, b: Tree)
    ensures InOrder(Join(d, a, n, b))
         == if d == 0 then InOrder(a) + [n] + InOrder(b) else InOrder(b) + [n] + InOrder(a)
  {
  }

  lemma JoinBalanced(m: Mem, d: Side, a: Tree, n: Entry, b: Tree)
    ensures Height(Join(d, a, n, b)) == 1 + Max(Height(a), Height(b))
    ensures Balanced(m, Join(d, a, n, b))
       <==> && n in m && -1 <= m[n].balance <= 1
            && m[n].balance == (if d == 0 then Height(b) - Height(a) else Height(a) - Height(b))
            && Balanced(m, a) && Balanced(m, b)
  {
  }

  lemma JoinLinked(m: Mem, d: Side, a: Tree, n: Entry, b: Tree, p: Entry?, s: Side)
    ensures Linked(m, Join(d, a, n, b), p, s)
       <==> && n in m
            && m[n].child.At(d) == Root(a) && m[n].child.At(1 - d) == Root(b)
            && m[n].parent == p && (p != null ==> m[n].which == s)
            && Linked(m, a, n, d) && Linked(m, b, n, 1 - d)
  {
  }

  // ------------------------------------------------------- single rotation

  ghost function Tall(left: Side, a: Tree, child: Entry, b: Tree, node: Entry, d: Tree): Tree {
    Join(left, Join(left, a, child, b), node, d)
  }

  ghost function Single(left: Side, a: Tree, child: Entry, b: Tree, node: Entry, d: Tree): Tree {
    Join(left, a, child, Join(left, b, node, d))
  }

  lemma SingleShape(c: Ctx, left: Side, a: Tree, child: Entry, b: Tree, node: Entry, d: Tree)
    requires Apart(c, Tall(left, a, child, b, node, d))
    ensures Apart(c, Single(left, a, child, b, node, d))
    ensures Nodes(Single(left, a, child, b, node, d)) == Nodes(Tall(left, a, child, b, node, d))
    ensures InOrder(Single(left, a, child, b, node, d)) == InOrder(Tall(left, a, child, b, node, d))
  {
    hide Nodes, CtxNodes, Distinct, DistinctCtx, InOrder, Join;
    JoinDistinct(left, a, child, b);
    JoinDistinct(left, Join(left, a, child, b), node, d);
    JoinDistinct(left, b, node, d);
    JoinDistinct(left, a, child, Join(left, b, node, d));
    JoinOrder(left, a, child, b);
    JoinOrder(left, Join(left, a, child, b), node, d);
    JoinOrder(left, b, node, d);
    JoinOrder(left, a, child, Join(left, b, node, d));
  }

  /** The link writes of the single rotation at `node`, child `s` of `p`;
      `b` is the subtree that changes parents. */
  ghost predicate SingleWrites(m: Mem, m': Mem, p: Entry?, s: Side, left: Side, child: Entry, b: Entry?, node: Entry,
                               root: Entry?, root': Entry?) {
    && m'.Keys == m.Keys && node in m && child in m
    && (forall n :: n in m && n != node && n != child && n != b && n != p ==> m'[n] == m[n])
    && m'[child] == Links(m[child].child.With(1 - left, node), m[node].parent, m[node].which, m'[child].balance)
    && m'[node] == Links(m[node].child.With(left, b), child, 1 - left, m'[node].balance)
    && Rehung(m, m', b, node, left)
    && Repointed(m, m', p, s, root, child, root')
  }

  lemma SingleFrame(m: Mem, m': Mem, c: Ctx, left: Side, a: Tree, child: Entry, b: Tree,
                    node: Entry, d: Tree, root: Entry?, root': Entry?)
    requires Apart(c, Tall(left, a, child, b, node, d))
    requires Nodes(Tall(left, a, child, b, node, d)) + CtxNodes(c) == m.Keys
    requires SingleWrites(m, m', Parent(c), SideOf(c), left, child, Root(b), node, root, root')
    ensures Agree(m, m', Nodes(a)) && Agree(m, m', Nodes(d)) && Agree(m, m', Nodes(b) - {Root(b)})
    ensures Agree(m, m', CtxNodes(c) - {Parent(c)})
    ensures Distinct(b) && DistinctCtx(c)
  {
    hide Nodes, CtxNodes, Distinct, DistinctCtx, Join;
    JoinDistinct(left, a, child, b);
    JoinDistinct(left, Join(left, a, child, b), node, d);
    OwnMembers(c, b);
  }

  lemma OwnMembers(c: Ctx, t: Tree)
    ensures c.Down? ==> c.n in CtxNodes(c)
    ensures t.Node? ==> t.n in Nodes(t)
  {
  }

  lemma SingleLinks(m: Mem, m': Mem, c: Ctx, left: Side, a: Tree, child: Entry, b: Tree,
                    node: Entry, d: Tree, root: Entry?, root': Entry?)
    requires Apart(c, Tall(left, a, child, b, node, d))
    requires Nodes(Tall(left, a, child, b, node, d)) + CtxNodes(c) == m.Keys
    requires Hangs(m, c, Tall(left, a, child, b, node, d), root)
    requires SingleWrites(m, m', Parent(c), SideOf(c), left, child, Root(b), node, root, root')
    ensures Hangs(m', c, Single(left, a, child, b, node, d), root')
    ensures KeepsCtxBalance(m, m', c)
    ensures Balanced(m, a) ==> Balanced(m', a)
    ensures Balanced(m, b) ==> Balanced(m', b)
    ensures Balanced(m, d) ==> Balanced(m', d)
  {
    SingleFrame(m, m', c, left, a, child, b, node, d, root, root');
    JoinLinked(m, left, a, child, b, node, left);
    JoinLinked(m, left, Join(left, a, child, b), node, d, Parent(c), SideOf(c));
    FrameTree(m, m', a, child, left);
    FrameTree(m, m', d, node, 1 - left);
    Rehang(m, m', b, child, 1 - left, node, left);
    RepointAll(m, m', c, node, root, child, root');
    JoinLinked(m', left, b, node, d, child, 1 - left);
    JoinLinked(m', left, a, child, Join(left, b, node, d), Parent(c), SideOf(c));
  }

  lemma SingleBalance(m: Mem, m': Mem, left: Side, a: Tree, child: Entry, b: Tree, node: Entry, d: Tree)
    requires Balanced(m', a) && Balanced(m', b) && Balanced(m', d)
    requires Balanced(m, Join(left, a, child, b)) && m[child].balance != -Heavy(left)
    requires Height(Join(left, a, child, b)) == Height(d) + 2
    requires node in m' && child in m'
    requires m'[child].balance == m[child].balance - Heavy(left)
    requires m'[node].balance == Heavy(left) - m[child].balance
    ensures Balanced(m', Single(left, a, child, b, node, d))
    ensures Height(Single(left, a, child, b, node, d))
         == Height(Tall(left, a, child, b, node, d)) - (if m[child].balance == Heavy(left) then 1 else 0)
  {
    JoinBalanced(m, left, a, child, b);
    JoinBalanced(m, left, Join(left, a, child, b), node, d);
    JoinBalanced(m', left, b, node, d);
    JoinBalanced(m', left, a, child, Join(left, b, node, d));
  }

  // ------------------------------------------------------- double rotation
  // A double rotation is a single rotation at `child` towards the other side,
  // with `node` as part of the context, followed by one at `node`.

  lemma DownApart(c: Ctx, left: Side, x: Tree, node: Entry, d: Tree)
    ensures Apart(c, Join(left, x, node, d)) <==> Apart(Down(c, left, node, d), x)
  {
    JoinDistinct(left, x, node, d);
  }

  lemma DownHangs(m: Mem, c: Ctx, left: Side, x: Tree, node: Entry, d: Tree, root: Entry?)
    ensures Hangs(m, c, Join(left, x, node, d), root) <==> Hangs(m, Down(c, left, node, d), x, root)
  {
    JoinLinked(m, left, x, node, d, Parent(c), SideOf(c));
  }

  ghost function Bent(left: Side, a: Tree, child: Entry, gl: Tree, gchild: Entry, gr: Tree, node: Entry, d: Tree)
    : Tree
  {
    Join(left, Join(left, a, child, Join(left, gl, gchild, gr)), node, d)
  }

  ghost function Double(left: Side, a: Tree, child: Entry, gl: Tree, gchild: Entry, gr: Tree, node: Entry, d: Tree)
    : Tree
  {
    Join(left, Join(left, a, child, gl), gchild, Join(left, gr, node, d))
  }

  lemma DoubleShape(c: Ctx, left: Side, a: Tree, child: Entry, gl: Tree, gchild: Entry, gr: Tree, node: Entry, d: Tree)
    requires Apart(c, Bent(left, a, child, gl, gchild, gr, node, d))
    ensures Apart(c, Double(left, a, child, gl, gchild, gr, node, d))
    ensures Nodes(Double(left, a, child, gl, gchild, gr, node, d))
            == Nodes(Bent(left, a, child, gl, gchild, gr, node, d))
    ensures InOrder(Double(left, a, child, gl, gchild, gr, node, d))
            == InOrder(Bent(left, a, child, gl, gchild, gr, node, d))
  {
    var x := Tall(1 - left, gr, gchild, gl, child, a);
    var x' := Single(1 - left, gr, gchild, gl, child, a);
    DownApart(c, left, x, node, d);
    SingleShape(Down(c, left, node, d), 1 - left, gr, gchild, gl, child, a);
    DownApart(c, left, x', node, d);
    SingleShape(c, left, Join(left, a, child, gl), gchild, gr, node, d);
  }

  /** The writes of the double rotation at `node`, child `s` of `p`. */
  ghost predicate DoubleWrites(m: Mem, m': Mem, p: Entry?, s: Side, left: Side, child: Entry, gl: Entry?, gchild: Entry,
                               gr: Entry?, node: Entry, root: Entry?, root': Entry?) {
    && m'.Keys == m.Keys && node in m && child in m && gchild in m
    && (forall n :: n in m && n != node && n != child && n != gchild && n != gl && n != gr && n != p ==> m'[n] == m[n])
    && m'[gchild] == Links(m[gchild].child.With(left, child).With(1 - left, node), m[node].parent, m[node].which, 0)
    && m'[child] == Links(m[child].child.With(1 - left, gl), gchild, left, m'[child].balance)
    && m'[node] == Links(m[node].child.With(left, gr), gchild, 1 - left, m'[node].balance)
    && Rehung(m, m', gl, child, 1 - left)
    && Rehung(m, m', gr, node, left)
    && Repointed(m, m', p, s, root, gchild, root')
  }

  /** The memory after the first half of the double rotation. */
  ghost function Midway(m: Mem, m': Mem, left: Side, child: Entry, gl: Entry?, gchild: Entry, node: Entry): Mem
    requires node in m && child in m && gchild in m && child in m'
    requires gl != null ==> gl in m'
  {
    var m1 := m[gchild := m[gchild].(child := m[gchild].child.With(left, child), parent := node,
                                     which := m[child].which)]
               [child := m'[child]]
               [node := m[node].(child := m[node].child.With(left, gchild))];
    if gl != null then m1[gl := m'[gl]] else m1
  }

  /** The elements a double rotation writes are different from each other. */
  ghost predicate Separate(p: Entry?, child: Entry, gl: Entry?, gchild: Entry, gr: Entry?, node: Entry) {
    && child != gchild && child != node && gchild != node
    && p != child && p != gchild && p != node && (p != null ==> p != gl && p != gr)
    && gl != child && gl != gchild && gl != node && (gl != null ==> gl != gr)
    && gr != child && gr != gchild && gr != node
  }

  lemma MidwayWrites(m: Mem, m': Mem, p: Entry?, s: Side, left: Side, child: Entry, gl: Entry?, gchild: Entry,
                     gr: Entry?, node: Entry, root: Entry?, root': Entry?)
    requires DoubleWrites(m, m', p, s, left, child, gl, gchild, gr, node, root, root')
    requires Separate(p, child, gl, gchild, gr, node)
    requires m[child].parent == node && m[child].which == left
    ensures SingleWrites(m, Midway(m, m', left, child, gl, gchild, node), node, left, 1 - left, gchild, gl, child,
                         root, root)
    ensures SingleWrites(Midway(m, m', left, child, gl, gchild, node), m', p, s, left, gchild, gr, node, root, root')
  {
  }

  lemma BentSeparate(m: Mem, c: Ctx, left: Side, a: Tree, child: Entry, gl: Tree, gchild: Entry, gr: Tree,
                     node: Entry, d: Tree, root: Entry?)
    requires Apart(c, Bent(left, a, child, gl, gchild, gr, node, d))
    requires Hangs(m, c, Bent(left, a, child, gl, gchild, gr, node, d), root)
    ensures Separate(Parent(c), child, Root(gl), gchild, Root(gr), node)
    ensures node in m && child in m && gchild in m && m[child].parent == node && m[child].which == left
  {
    var g := Join(left, gl, gchild, gr);
    JoinDistinct(left, gl, gchild, gr);
    JoinDistinct(left, a, child, g);
    JoinDistinct(left, Join(left, a, child, g), node, d);
    JoinLinked(m, left, Join(left, a, child, g), node, d, Parent(c), SideOf(c));
    JoinLinked(m, left, a, child, g, node, left);
    JoinLinked(m, left, gl, gchild, gr, child, 1 - left);
    assert c.Down? ==> c.n in CtxNodes(c);
    assert gl.Node? ==> gl.n in Nodes(gl);
    assert gr.Node? ==> gr.n in Nodes(gr);
  }

  lemma FrameCtxBalance(m: Mem, m': Mem, c: Ctx)
    requires Agree(m, m', CtxNodes(c))
    ensures KeepsCtxBalance(m, m', c)
  {
    forall h: int ensures BalancedCtx(m, c, h) ==> BalancedCtx(m', c, h) {
      FrameCtx(m, m', c, null, null, h);
    }
  }

  /** Tree `t` in the hole of `c` is the whole of memory `m`, with exact links and no repeats. */
  ghost predicate Whole(m: Mem, c: Ctx, t: Tree, root: Entry?) {
    Apart(c, t) && Nodes(t) + CtxNodes(c) == m.Keys && Hangs(m, c, t, root)
  }

  lemma DownWhole(m: Mem, c: Ctx, left: Side, x: Tree, node: Entry, d: Tree, root: Entry?)
    ensures Whole(m, c, Join(left, x, node, d), root) <==> Whole(m, Down(c, left, node, d), x, root)
  {
    JoinDistinct(left, x, node, d);
    DownApart(c, left, x, node, d);
    DownHangs(m, c, left, x, node, d, root);
    assert Nodes(Join(left, x, node, d)) + CtxNodes(c) == Nodes(x) + CtxNodes(Down(c, left, node, d));
  }

  lemma SingleWhole(m: Mem, m': Mem, c: Ctx, left: Side, a: Tree, child: Entry, b: Tree,
                    node: Entry, d: Tree, root: Entry?, root': Entry?)
    requires Whole(m, c, Tall(left, a, child, b, node, d), root)
    requires SingleWrites(m, m', Parent(c), SideOf(c), left, child, Root(b), node, root, root')
    ensures Whole(m', c, Single(left, a, child, b, node, d), root')
    ensures KeepsCtxBalance(m, m', c)
    ensures Balanced(m, a) ==> Balanced(m', a)
    ensures Balanced(m, b) ==> Balanced(m', b)
    ensures Balanced(m, d) ==> Balanced(m', d)
  {
    SingleShape(c, left, a, child, b, node, d);
    SingleLinks(m, m', c, left, a, child, b, node, d, root, root');
  }

  /** The single rotation at `child`, seen from the context of `node`. */
  lemma FirstHalf(m: Mem, m': Mem, c: Ctx, left: Side, a: Tree, child: Entry, gl: Tree, gchild: Entry, gr: Tree,
                  node: Entry, d: Tree, root: Entry?, x: Tree, x': Tree)
    requires x == Tall(1 - left, gr, gchild, gl, child, a) && x' == Single(1 - left, gr, gchild, gl, child, a)
    requires Whole(m, c, Join(left, x, node, d), root)
    requires SingleWrites(m, m', node, left, 1 - left, gchild, Root(gl), child, root, root)
    ensures Whole(m', c, Join(left, x', node, d), root)
    ensures Balanced(m, a) ==> Balanced(m', a)
    ensures Balanced(m, gl) ==> Balanced(m', gl)
    ensures Balanced(m, gr) ==> Balanced(m', gr)
  {
    DownWhole(m, c, left, x, node, d, root);
    SingleWhole(m, m', Down(c, left, node, d), 1 - left, gr, gchild, gl, child, a, root, root);
    DownWhole(m', c, left, x', node, d, root);
  }

  lemma FirstHalfOutside(m: Mem, m': Mem, c: Ctx, left: Side, a: Tree, child: Entry, gl: Tree, gchild: Entry, gr: Tree,
                         node: Entry, d: Tree, root: Entry?)
    requires Apart(c, Bent(left, a, child, gl, gchild, gr, node, d))
    requires Nodes(Bent(left, a, child, gl, gchild, gr, node, d)) + CtxNodes(c) == m.Keys
    requires SingleWrites(m, m', node, left, 1 - left, gchild, Root(gl), child, root, root)
    ensures Balanced(m, d) ==> Balanced(m', d)
    ensures KeepsCtxBalance(m, m', c)
  {
    var g := Join(left, gl, gchild, gr);
    JoinDistinct(left, gl, gchild, gr);
    JoinDistinct(left, a, child, g);
    JoinDistinct(left, Join(left, a, child, g), node, d);
    assert gl.Node? ==> gl.n in Nodes(gl);
    FrameTree(m, m', d, node, 1 - left);
    FrameCtxBalance(m, m', c);
  }

  lemma HalfWay(m: Mem, m': Mem, c: Ctx, left: Side, a: Tree, child: Entry, gl: Tree, gchild: Entry, gr: Tree,
                node: Entry, d: Tree, root: Entry?, root': Entry?, x: Tree, x': Tree) returns (m1: Mem)
    requires x == Tall(1 - left, gr, gchild, gl, child, a) && x' == Single(1 - left, gr, gchild, gl, child, a)
    requires Whole(m, c, Join(left, x, node, d), root)
    requires DoubleWrites(m, m', Parent(c), SideOf(c), left, child, Root(gl), gchild, Root(gr), node, root, root')
    requires Balanced(m, a) && Balanced(m, gl) && Balanced(m, gr) && Balanced(m, d)
    ensures SingleWrites(m1, m', Parent(c), SideOf(c), left, gchild, Root(gr), node, root, root')
    ensures Whole(m1, c, Join(left, x', node, d), root) && KeepsCtxBalance(m, m1, c)
    ensures child in m1 && m1[child].balance == m'[child].balance
    ensures Balanced(m1, a) && Balanced(m1, gl) && Balanced(m1, gr) && Balanced(m1, d)
  {
    assert x == Join(left, a, child, Join(left, gl, gchild, gr));
    BentSeparate(m, c, left, a, child, gl, gchild, gr, node, d, root);
    MidwayWrites(m, m', Parent(c), SideOf(c), left, child, Root(gl), gchild, Root(gr), node, root, root');
    m1 := Midway(m, m', left, child, Root(gl), gchild, node);
    FirstHalf(m, m1, c, left, a, child, gl, gchild, gr, node, d, root, x, x');
    FirstHalfOutside(m, m1, c, left, a, child, gl, gchild, gr, node, d, root);
  }

  lemma DoubleWhole(m: Mem, m': Mem, c: Ctx, left: Side, a: Tree, child: Entry, gl: Tree, gchild: Entry, gr: Tree,
                    node: Entry, d: Tree, root: Entry?, root': Entry?, x: Tree, x': Tree)
    requires x == Tall(1 - left, gr, gchild, gl, child, a) && x' == Single(1 - left, gr, gchild, gl, child, a)
    requires Whole(m, c, Join(left, x, node, d), root)
    requires DoubleWrites(m, m', Parent(c), SideOf(c), left, child, Root(gl), gchild, Root(gr), node, root, root')
    requires Balanced(m, a) && Balanced(m, gl) && Balanced(m, gr) && Balanced(m, d)
    requires -1 <= m'[child].balance <= 1
    requires m'[child].balance == (if left == 0 then Height(gl) - Height(a) else Height(a) - Height(gl))
    ensures Whole(m', c, Single(left, Join(left, a, child, gl), gchild, gr, node, d), root')
    ensures KeepsCtxBalance(m, m', c)
    ensures Balanced(m', Join(left, a, child, gl)) && Balanced(m', gr) && Balanced(m', d)
  {
    var m1 := HalfWay(m, m', c, left, a, child, gl, gchild, gr, node, d, root, root', x, x');
    assert x' == Join(left, Join(left, a, child, gl), gchild, gr);
    JoinBalanced(m1, left, a, child, gl);
    SingleWhole(m1, m', c, left, Join(left, a, child, gl), gchild, gr, node, d, root, root');
  }

  // ----------------------------------------------------- the two rotations

  /** A rotation at the root of `t`, hanging in `c`, turned `t` into `t'`. */
  ghost predicate Rotated(m: Mem, m': Mem, c: Ctx, t: Tree, t': Tree, root': Entry?, shorter: bool) {
    && t'.Node? && Whole(m', c, t', root') && Balanced(m', t')
    && KeepsCtxBalance(m, m', c)
    && Nodes(t') == Nodes(t) && InOrder(t') == InOrder(t)
    && Height(t') == Height(t) - (if shorter then 1 else 0)
  }

  /** The tree to rotate: two levels too tall on side `left`, exact below its root. */
  ghost predicate Tilted(m: Mem, t: Tree, left: Side) {
    && t.Node? && Balanced(m, t.l) && Balanced(m, t.r)
    && Height(Sub(t, left)) == Height(Sub(t, 1 - left)) + 2
  }

  lemma SingleRotation(m: Mem, m': Mem, c: Ctx, left: Side, a: Tree, child: Entry, b: Tree,
                       node: Entry, d: Tree, root: Entry?, root': Entry?)
    requires Whole(m, c, Tall(left, a, child, b, node, d), root)
    requires Tilted(m, Tall(left, a, child, b, node, d), left)
    requires child in m && m[child].balance != -Heavy(left)
    requires SingleWrites(m, m', Parent(c), SideOf(c), left, child, Root(b), node, root, root')
    requires m'[child].balance == m[child].balance - Heavy(left)
    requires m'[node].balance == Heavy(left) - m[child].balance
    ensures Rotated(m, m', c, Tall(left, a, child, b, node, d), Single(left, a, child, b, node, d), root',
                    m[child].balance == Heavy(left))
  {
    JoinBalanced(m, left, a, child, b);
    SingleShape(c, left, a, child, b, node, d);
    SingleWhole(m, m', c, left, a, child, b, node, d, root, root');
    SingleBalance(m, m', left, a, child, b, node, d);
  }

  lemma DoubleHeights(m: Mem, left: Side, a: Tree, child: Entry, gl: Tree, gchild: Entry, gr: Tree,
                      node: Entry, d: Tree)
    requires Tilted(m, Bent(left, a, child, gl, gchild, gr, node, d), left)
    requires child in m && gchild in m && m[child].balance == -Heavy(left)
    ensures Balanced(m, a) && Balanced(m, gl) && Balanced(m, gr) && Balanced(m, d)
    ensures Height(gl) - Height(a) == (if m[gchild].balance == -Heavy(left) then -1 else 0)
    ensures Height(d) - Height(gr) == (if m[gchild].balance == Heavy(left) then 1 else 0)
    ensures Height(a) == Height(d)
    ensures Height(Bent(left, a, child, gl, gchild, gr, node, d)) == Height(d) + 3
  {
    var g := Join(left, gl, gchild, gr);
    JoinBalanced(m, left, gl, gchild, gr);
    JoinBalanced(m, left, a, child, g);
    JoinBalanced(m, left, Join(left, a, child, g), node, d);
  }

  lemma DoubleRotation(m: Mem, m': Mem, c: Ctx, left: Side, a: Tree, child: Entry, gl: Tree, gchild: Entry, gr: Tree,
                       node: Entry, d: Tree, root: Entry?, root': Entry?)
    requires Whole(m, c, Bent(left, a, child, gl, gchild, gr, node, d), root)
    requires Tilted(m, Bent(left, a, child, gl, gchild, gr, node, d), left)
    requires child in m && gchild in m && m[child].balance == -Heavy(left)
    requires DoubleWrites(m, m', Parent(c), SideOf(c), left, child, Root(gl), gchild, Root(gr), node, root, root')
    requires m'[child].balance == if m[gchild].balance == -Heavy(left) then Heavy(left) else 0
    requires m'[node].balance == if m[gchild].balance == Heavy(left) then -Heavy(left) else 0
    ensures Rotated(m, m', c, Bent(left, a, child, gl, gchild, gr, node, d),
                    Double(left, a, child, gl, gchild, gr, node, d), root', true)
  {
    hide InOrder, Linked, LinkedCtx, Distinct, Nodes, Balanced, Height, Apart, Hangs;
    DoubleHeights(m, left, a, child, gl, gchild, gr, node, d);
    DoubleShape(c, left, a, child, gl, gchild, gr, node, d);
    DoubleWhole(m, m', c, left, a, child, gl, gchild, gr, node, d, root, root',
                Tall(1 - left, gr, gchild, gl, child, a), Single(1 - left, gr, gchild, gl, child, a));
    JoinBalanced(m', left, a, child, gl);
    JoinBalanced(m', left, gr, node, d);
    JoinBalanced(m', left, Join(left, a, child, gl), gchild, Join(left, gr, node, d));
  }

  // --------------------------------- what the code sees before it rotates

  lemma TallPointers(m: Mem, c: Ctx, left: Side, a: Tree, child: Entry, b: Tree, node: Entry, d: Tree, root: Entry?)
    requires Whole(m, c, Tall(left, a, child, b, node, d), root)
    ensures node in m && child in m && m[node].child.At(left) == child && m[child].child.At(1 - left) == Root(b)
    ensures m[node].parent == Parent(c) && (c.Down? ==> c.n in m && m[node].which == c.d)
    ensures node != child && Parent(c) != node && Parent(c) != child
    ensures b.Node? ==> b.n in m && b.n != node && b.n != child && b.n != Parent(c)
  {
    JoinDistinct(left, a, child, b);
    JoinDistinct(left, Join(left, a, child, b), node, d);
    JoinLinked(m, left, a, child, b, node, left);
    JoinLinked(m, left, Join(left, a, child, b), node, d, Parent(c), SideOf(c));
    assert c.Down? ==> c.n in CtxNodes(c);
    assert b.Node? ==> b.n in Nodes(b);
  }

  lemma BentPointers(m: Mem, c: Ctx, left: Side, a: Tree, child: Entry, gl: Tree, gchild: Entry, gr: Tree,
                     node: Entry, d: Tree, root: Entry?)
    requires Whole(m, c, Bent(left, a, child, gl, gchild, gr, node, d), root)
    ensures Separate(Parent(c), child, Root(gl), gchild, Root(gr), node)
    ensures gchild in m && m[gchild].child.At(left) == Root(gl) && m[gchild].child.At(1 - left) == Root(gr)
    ensures (gl.Node? ==> gl.n in m) && (gr.Node? ==> gr.n in m)
  {
    BentSeparate(m, c, left, a, child, gl, gchild, gr, node, d, root);
    var g := Join(left, gl, gchild, gr);
    JoinLinked(m, left, Join(left, a, child, g), node, d, Parent(c), SideOf(c));
    JoinLinked(m, left, a, child, g, node, left);
    JoinLinked(m, left, gl, gchild, gr, child, 1 - left);
  }
}
