/** Destroying a tree in post-order without rebalancing: what is left of the tree
    between two calls. */
module AvlRaze {
  import opened Common
  import opened AvlShape
  import opened AvlRotation
  import opened AvlClimb

  /** What a caller passes from one call to the next: nothing yet, the place of the
      element handed out last, or the root has been handed out. */
  datatype Cookie = Start | Below(parent: Entry, child: Side) | Done

  ghost function CookieOf(c: Ctx): Cookie {
    if c.Top? then Done else Below(c.n, c.d)
  }

  /** The elements still to be handed out when the subtree in the hole of `c` is gone. */
  ghost function Pending(c: Ctx): seq<Entry> {
    match c
    case Top => []
    case Down(up, d, n, sib) => PostOrder(sib) + [n] + Pending(up)
  }

  /** Everything to the left of the hole has been destroyed; what is right of it is intact. */
  ghost predicate Half(m: Mem, c: Ctx) {
    match c
    case Top => true
    case Down(up, d, n, sib) => (d == 1 ==> sib == Leaf) && Balanced(m, sib) && Half(m, up)
  }

  /** The state between calls: `last`, the element handed out last, was in the hole of `c`.
      Nothing is said of the memory of `last`, which the caller may have freed. */
  ghost predicate Razing(m: Mem, c: Ctx, last: Entry?, root: Entry?) {
    DistinctCtx(c) && m.Keys == CtxNodes(c) && LinkedCtx(m, c, last, root) && Half(m, c)
  }

  /** As Razing, with the subtree `t` still in the hole of `c`. */
  ghost predicate Facing(m: Mem, c: Ctx, t: Tree, root: Entry?) {
    Whole(m, c, t, root) && Half(m, c) && Balanced(m, t)
  }

  lemma {:induction false} HalfFrame(m: Mem, m': Mem, c: Ctx)
    requires forall n :: n in CtxNodes(c) && n in m ==> n in m' && m'[n] == m[n]
    requires Half(m, c)
    ensures Half(m', c)
  {
    if c.Down? {
      HalfFrame(m, m', c.up);
      BalancedKept(m, m', c.sib);
    }
  }

  lemma {:induction false} BalancedKept(m: Mem, m': Mem, t: Tree)
    requires forall n :: n in Nodes(t) && n in m ==> n in m' && m'[n] == m[n]
    requires Balanced(m, t)
    ensures Balanced(m', t)
  {
    if t.Node? {
      BalancedKept(m, m', t.l);
      BalancedKept(m, m', t.r);
    }
  }

  /** Handing out the parent once both its subtrees are gone. */
  lemma RazeUp(m: Mem, m': Mem, c: Ctx, last: Entry?, root: Entry?)
    requires c.Down? && c.sib == Leaf && Razing(m, c, last, root)
    requires m'.Keys == CtxNodes(c.up) && forall n :: n in m' ==> m'[n] == m[n]
    ensures Razing(m', c.up, c.n, root) && Pending(c) == [c.n] + Pending(c.up)
  {
    HalfFrame(m, m', c.up);
    FrameCtx(m, m', c.up, c.n, root, 0);
    assert PostOrder(Leaf) == [];
  }

  /** Turning from a destroyed left subtree to the right one. */
  lemma RazeAcross(m: Mem, m': Mem, c: Ctx, last: Entry?, root: Entry?)
    requires c.Down? && c.d == 0 && c.sib.Node? && Razing(m, c, last, root)
    requires m'.Keys == m.Keys && (forall n :: n in m && n != c.n ==> m'[n] == m[n])
    requires m'[c.n] == m[c.n].(child := m[c.n].child.With(0, null))
    ensures Facing(m', Down(c.up, 1, c.n, Leaf), c.sib, root)
  {
    HalfFrame(m, m', c.up);
    BalancedKept(m, m', c.sib);
    FrameCtx(m, m', c.up, c.n, root, 0);
    FrameTree(m, m', c.sib, c.n, 1);
    assert Nodes(Leaf) == {};
    assert Linked(m', Leaf, c.n, 0) && Balanced(m', Leaf);
  }

  lemma PendingAcross(c: Ctx)
    requires c.Down?
    ensures Pending(c) == PostOrder(c.sib) + Pending(Down(c.up, 1, c.n, Leaf))
  {
    assert PostOrder(Leaf) == [];
    assert Pending(Down(c.up, 1, c.n, Leaf)) == [c.n] + Pending(c.up);
  }

  /** One step down to the left. */
  lemma RazeDown(m: Mem, c: Ctx, t: Tree, root: Entry?)
    requires t.Node? && Facing(m, c, t, root)
    ensures Facing(m, Down(c, 0, t.n, t.r), t.l, root)
    ensures PostOrder(t) + Pending(c) == PostOrder(t.l) + Pending(Down(c, 0, t.n, t.r))
  {
    assert t == Join(0, t.l, t.n, t.r);
    DownWhole(m, c, 0, t.l, t.n, t.r, root);
    Regroup(PostOrder(t.l), PostOrder(t.r), [t.n], Pending(c));
  }

  lemma Regroup(a: seq<Entry>, b: seq<Entry>, x: seq<Entry>, rest: seq<Entry>)
    ensures (a + b + x) + rest == a + (b + x + rest)
  {
  }

  /** With no left child, balance leaves at most one element on the right. */
  lemma RazeHere(m: Mem, c: Ctx, t: Tree, root: Entry?)
    requires t.Node? && t.l == Leaf && Facing(m, c, t, root)
    ensures t.r.Node? ==> t.r == Node(Leaf, t.r.n, Leaf)
  {
    assert Height(t.l) == 0 && Height(t.r) <= 1;
    if t.r.Node? {
      assert Height(t.r) == 1 + Max(Height(t.r.l), Height(t.r.r));
    }
  }

  /** The step to a right child whose parent has no left one. */
  lemma RazeAside(m: Mem, c: Ctx, t: Tree, root: Entry?)
    requires t.Node? && t.l == Leaf && Facing(m, c, t, root)
    ensures Facing(m, Down(c, 1, t.n, Leaf), t.r, root)
    ensures PostOrder(t) + Pending(c) == PostOrder(t.r) + Pending(Down(c, 1, t.n, Leaf))
  {
    hide Whole, Nodes, Distinct, Linked;
    assert t == Join(1, t.r, t.n, Leaf);
    DownWhole(m, c, 1, t.r, t.n, Leaf, root);
    assert PostOrder(Leaf) == [] && Balanced(m, Leaf);
    Regroup(PostOrder(t.r), [], [t.n], Pending(c));
  }

  /** Handing out a lone element. */
  lemma RazeLeaf(m: Mem, m': Mem, c: Ctx, n: Entry, root: Entry?)
    requires Facing(m, c, Node(Leaf, n, Leaf), root)
    requires m'.Keys == CtxNodes(c) && forall x :: x in m' ==> m'[x] == m[x]
    ensures Razing(m', c, n, root) && PostOrder(Node(Leaf, n, Leaf)) + Pending(c) == [n] + Pending(c)
  {
    HalfFrame(m, m', c);
    FrameCtx(m, m', c, n, root, 0);
    assert PostOrder(Leaf) == [];
    assert PostOrder(Node(Leaf, n, Leaf)) == [n];
  }

  lemma {:induction false} PostOrderMembers(t: Tree)
    ensures Elems(PostOrder(t)) == Nodes(t) && |PostOrder(t)| == |InOrder(t)|
  {
    if t.Node? {
      PostOrderMembers(t.l);
      PostOrderMembers(t.r);
      ElemsJoin(PostOrder(t.l), PostOrder(t.r), t.n);
    }
  }

  lemma ElemsJoin(a: seq<Entry>, b: seq<Entry>, x: Entry)
    ensures Elems(a + b + [x]) == Elems(a) + {x} + Elems(b)
  {
    var s := a + b + [x];
    assert s[|s| - 1] == x;
    forall n | n in Elems(a) + Elems(b) ensures n in Elems(s) {
      assert n in a + b;
    }
  }

  lemma {:induction false} PendingMembers(c: Ctx)
    ensures Elems(Pending(c)) == CtxNodes(c)
  {
    if c.Down? {
      PendingMembers(c.up);
      PostOrderMembers(c.sib);
      var a, b := PostOrder(c.sib), Pending(c.up);
      var s := a + [c.n] + b;
      assert s[|a|] == c.n;
      forall n | n in Elems(a) + Elems(b) ensures n in Elems(s) {
        assert n in a || n in b;
      }
    }
  }

  ghost predicate Inside(a: seq<Entry>, s: set<Entry>) {
    forall n :: n in a ==> n in s
  }

  lemma TakeFirst(a: seq<Entry>, b: seq<Entry>, s: set<Entry>)
    requires b != [] && Inside(b, s)
    ensures (a + [b[0]]) + b[1..] == a + b && Inside(b[1..], s)
  {
  }

  lemma PostOrderInside(t: Tree)
    ensures Inside(PostOrder(t), Nodes(t))
  {
    PostOrderMembers(t);
    forall n | n in PostOrder(t) ensures n in Nodes(t) {
      assert n in Elems(PostOrder(t));
    }
  }

  // -------------------------------------------------- what the order promises

  /** Every element of `s` comes after its children, as `m` links them. */
  ghost predicate ChildrenFirst(m: Mem, s: seq<Entry>) {
    forall i :: 0 <= i < |s| ==> s[i] in m && Earlier(m[s[i]].child.zero, s[..i]) && Earlier(m[s[i]].child.one, s[..i])
  }

  ghost predicate Earlier(child: Entry?, s: seq<Entry>) {
    child != null ==> child in s
  }

  lemma ChildrenFirstJoin(m: Mem, a: seq<Entry>, b: seq<Entry>, x: Entry)
    requires ChildrenFirst(m, a) && ChildrenFirst(m, b) && x in m
    requires Earlier(m[x].child.zero, a + b) && Earlier(m[x].child.one, a + b)
    ensures ChildrenFirst(m, a + b + [x])
  {
    var s := a + b + [x];
    forall i | 0 <= i < |s|
      ensures s[i] in m && Earlier(m[s[i]].child.zero, s[..i]) && Earlier(m[s[i]].child.one, s[..i])
    {
      if i < |a| {
        assert s[i] == a[i] && s[..i] == a[..i];
      } else if i < |a| + |b| {
        assert s[i] == b[i - |a|] && s[..i] == a + b[..i - |a|];
      } else {
        assert s[i] == x && s[..i] == a + b;
      }
    }
  }

  lemma {:induction false} PostOrderChildrenFirst(m: Mem, t: Tree, p: Entry?, d: Side)
    requires Linked(m, t, p, d)
    ensures ChildrenFirst(m, PostOrder(t))
  {
    if t.Node? {
      PostOrderChildrenFirst(m, t.l, t.n, 0);
      PostOrderChildrenFirst(m, t.r, t.n, 1);
      RootIn(t.l);
      RootIn(t.r);
      ChildrenFirstJoin(m, PostOrder(t.l), PostOrder(t.r), t.n);
    }
  }

  lemma RootIn(t: Tree)
    ensures Earlier(Root(t), PostOrder(t))
  {
    if t.Node? {
      var s := PostOrder(t.l) + PostOrder(t.r) + [t.n];
      assert s[|s| - 1] == t.n;
    }
  }

  /** Every element occurs exactly once. */
  lemma {:induction false} PostOrderOnce(t: Tree)
    requires Distinct(t)
    ensures NoRepeats(PostOrder(t))
  {
    if t.Node? {
      PostOrderOnce(t.l);
      PostOrderOnce(t.r);
      PostOrderInside(t.l);
      PostOrderInside(t.r);
      OnceJoin(PostOrder(t.l), PostOrder(t.r), t.n, Nodes(t.l), Nodes(t.r));
    }
  }

  lemma OnceJoin(a: seq<Entry>, b: seq<Entry>, x: Entry, sa: set<Entry>, sb: set<Entry>)
    requires NoRepeats(a) && NoRepeats(b) && Inside(a, sa) && Inside(b, sb) && sa !! sb && x !in sa && x !in sb
    ensures NoRepeats(a + b + [x])
  {
    var s := a + b + [x];
    forall i, j | 0 <= i < j < |s| ensures s[i] != s[j] {
      assert s[i] in if i < |a| then a else b;
      if j < |a| + |b| {
        assert s[j] in if j < |a| then a else b;
      }
    }
  }
}
