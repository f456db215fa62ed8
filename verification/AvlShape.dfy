/** The element type of the fileset trees, the shape of a tree of such elements,
    and what it means for the link fields of the elements to represent a shape. */
module AvlShape {
  import opened Common

  /** Index of a child in its parent's child array: 0 is left, 1 is right. */
  type Side = i: int | 0 <= i <= 1

  /** A two-element array indexed by Side. */
  datatype Pair<T> = Pair(zero: T, one: T) {
    function At(i: Side): T { if i == 0 then zero else one }
    function With(i: Side, v: T): Pair<T> { if i == 0 then Pair(v, one) else Pair(zero, v) }
  }

  datatype Kind = File | Dir | LeafDir

  /** For what an entry was made: a file to come, or a leaf directory. */
  datatype Wave = ForFiles | ForLeafDirs

  /** The tree links embedded in an entry: its children, its parent, which child
      of the parent it is, and its balance. */
  datatype Links = Links(child: Pair<Entry?>, parent: Entry?, which: Side, balance: int)

  /** A fileset entry.  `index` is the sort key and `link` belongs to the tree the
      entry is in; the other fields belong to the fileset. */
  class Entry {
    const index: int
    const kind: Kind
    /** The directory it is in, none for the root, and its number there. */
    const parent: Entry?
    const serial: nat
    ghost const wave: Wave
    var link: Links
    var free: bool
    var present: bool
    var busy: bool
    /** Some thread waits for this entry to be released. */
    var waiting: bool
    var openCount: int

    constructor (index: int, kind: Kind, free: bool, present: bool, parent: Entry?, serial: nat, ghost wave: Wave)
      ensures this.index == index && this.kind == kind
      ensures this.parent == parent && this.serial == serial && this.wave == wave
      ensures this.free == free && this.present == present && !busy && !waiting && openCount == 0
    {
      this.index, this.kind := index, kind;
      this.parent, this.serial, this.wave := parent, serial, wave;
      link := Links(Pair(null, null), null, 0, 0);
      this.free, this.present, busy, waiting, openCount := free, present, false, false, 0;
    }
  }

  type Mem = map<Entry, Links>

  ghost function Snap(s: set<Entry>): Mem
    reads s`link
  {
    map n | n in s :: n.link
  }

  // ---------------------------------------------------------------- shapes

  datatype Tree = Leaf | Node(l: Tree, n: Entry, r: Tree)

  /** The tree with subtree `a` on side `d` of `n` and `b` on the other side. */
  ghost function Join(d: Side, a: Tree, n: Entry, b: Tree): Tree {
    if d == 0 then Node(a, n, b) else Node(b, n, a)
  }

  ghost function Sub(t: Tree, d: Side): Tree
    requires t.Node?
  {
    if d == 0 then t.l else t.r
  }

  ghost function Root(t: Tree): Entry? {
    if t.Leaf? then null else t.n
  }

  ghost function Nodes(t: Tree): set<Entry> {
    match t
    case Leaf => {}
    case Node(l, n, r) => Nodes(l) + {n} + Nodes(r)
  }

  ghost function InOrder(t: Tree): seq<Entry> {
    match t
    case Leaf => []
    case Node(l, n, r) => InOrder(l) + [n] + InOrder(r)
  }

  ghost function PostOrder(t: Tree): seq<Entry> {
    match t
    case Leaf => []
    case Node(l, n, r) => PostOrder(l) + PostOrder(r) + [n]
  }

  ghost function Height(t: Tree): nat {
    match t
    case Leaf => 0
    case Node(l, _, r) => 1 + Max(Height(l), Height(r))
  }

  /** No element occurs twice. */
  ghost predicate Distinct(t: Tree) {
    match t
    case Leaf => true
    case Node(l, n, r) =>
      && n !in Nodes(l) && n !in Nodes(r) && Nodes(l) !! Nodes(r)
      && Distinct(l) && Distinct(r)
  }

  // -------------------------------------------------------------- contexts

  /** A tree with a hole: the hole is child `d` of `n`, whose other child is `sib`. */
  datatype Ctx = Top | Down(up: Ctx, d: Side, n: Entry, sib: Tree)

  ghost function Plug(c: Ctx, t: Tree): Tree {
    match c
    case Top => t
    case Down(up, d, n, sib) => Plug(up, Join(d, t, n, sib))
  }

  /** Context `inner` placed in the hole of `outer`. */
  ghost function Compose(inner: Ctx, outer: Ctx): Ctx {
    match inner
    case Top => outer
    case Down(up, d, n, sib) => Down(Compose(up, outer), d, n, sib)
  }

  /** The length of the path from the root to the hole. */
  ghost function Depth(c: Ctx): nat {
    if c.Top? then 0 else 1 + Depth(c.up)
  }

  ghost function Parent(c: Ctx): Entry? {
    if c.Top? then null else c.n
  }

  ghost function SideOf(c: Ctx): Side {
    if c.Top? then 0 else c.d
  }

  ghost function CtxNodes(c: Ctx): set<Entry> {
    match c
    case Top => {}
    case Down(up, _, n, sib) => CtxNodes(up) + {n} + Nodes(sib)
  }

  ghost predicate DistinctCtx(c: Ctx) {
    match c
    case Top => true
    case Down(up, _, n, sib) =>
      && n !in CtxNodes(up) && n !in Nodes(sib) && Nodes(sib) !! CtxNodes(up)
      && Distinct(sib) && DistinctCtx(up)
  }

  /** The elements in order before the hole. */
  ghost function Before(c: Ctx): seq<Entry> {
    match c
    case Top => []
    case Down(up, d, n, sib) => if d == 0 then Before(up) else Before(up) + (InOrder(sib) + [n])
  }

  /** The elements in order after the hole. */
  ghost function After(c: Ctx): seq<Entry> {
    match c
    case Top => []
    case Down(up, d, n, sib) => if d == 0 then ([n] + InOrder(sib)) + After(up) else After(up)
  }

  // ------------------------------------------- what the link fields must be

  /** The links of the elements of `t` represent `t` hanging as child `d` of `p`. */
  ghost predicate Linked(m: Mem, t: Tree, p: Entry?, d: Side) {
    match t
    case Leaf => true
    case Node(l, n, r) =>
      && n in m
      && m[n].child == Pair(Root(l), Root(r))
      && m[n].parent == p
      && (p != null ==> m[n].which == d)
      && Linked(m, l, n, 0)
      && Linked(m, r, n, 1)
  }

  /** Every balance field of `t` is the exact height difference, and within one of zero. */
  ghost predicate Balanced(m: Mem, t: Tree) {
    match t
    case Leaf => true
    case Node(l, n, r) =>
      && n in m
      && m[n].balance == Height(r) - Height(l)
      && -1 <= m[n].balance <= 1
      && Balanced(m, l)
      && Balanced(m, r)
  }

  /** The links of the elements of `c` represent `c` with `hole` hanging in the
      hole, in a tree whose root pointer is `root`. */
  ghost predicate LinkedCtx(m: Mem, c: Ctx, hole: Entry?, root: Entry?) {
    match c
    case Top => root == hole
    case Down(up, d, n, sib) =>
      && n in m
      && m[n].child.At(d) == hole
      && m[n].child.At(1 - d) == Root(sib)
      && m[n].parent == Parent(up)
      && (up.Down? ==> m[n].which == SideOf(up))
      && Linked(m, sib, n, 1 - d)
      && LinkedCtx(m, up, n, root)
  }

  /** Every balance field of `c` is exact, and within one of zero, when the
      subtree in the hole has height `h`. */
  ghost predicate BalancedCtx(m: Mem, c: Ctx, h: int) {
    match c
    case Top => true
    case Down(up, d, n, sib) =>
      && n in m
      && m[n].balance == (if d == 0 then Height(sib) - h else h - Height(sib))
      && -1 <= m[n].balance <= 1
      && Balanced(m, sib)
      && BalancedCtx(m, up, 1 + Max(h, Height(sib)))
  }

  ghost predicate Agree(m: Mem, m': Mem, s: set<Entry>) {
    forall n :: n in s ==> (n in m <==> n in m') && (n in m ==> m[n] == m'[n])
  }

  // ------------------------------------------------------ plugging lemmas

  lemma {:induction false} PlugNodes(c: Ctx, t: Tree)
    ensures Nodes(Plug(c, t)) == CtxNodes(c) + Nodes(t)
    ensures Distinct(Plug(c, t)) <==> Distinct(t) && DistinctCtx(c) && Nodes(t) !! CtxNodes(c)
    decreases c
  {
    if c.Down? {
      PlugNodes(c.up, Join(c.d, t, c.n, c.sib));
    }
  }

  lemma {:induction false} PlugInOrder(c: Ctx, t: Tree)
    ensures InOrder(Plug(c, t)) == Before(c) + InOrder(t) + After(c)
    decreases c
  {
    if c.Down? {
      PlugInOrder(c.up, Join(c.d, t, c.n, c.sib));
    }
  }

  lemma {:induction false} PlugLinked(m: Mem, c: Ctx, t: Tree, root: Entry?)
    ensures Linked(m, Plug(c, t), null, 0) && root == Root(Plug(c, t))
       <==> Linked(m, t, Parent(c), SideOf(c)) && LinkedCtx(m, c, Root(t), root)
    decreases c
  {
    if c.Down? {
      PlugLinked(m, c.up, Join(c.d, t, c.n, c.sib), root);
    }
  }

  lemma {:induction false} PlugBalanced(m: Mem, c: Ctx, t: Tree)
    ensures Balanced(m, Plug(c, t)) <==> Balanced(m, t) && BalancedCtx(m, c, Height(t))
    decreases c
  {
    if c.Down? {
      PlugBalanced(m, c.up, Join(c.d, t, c.n, c.sib));
    }
  }

  lemma {:induction false} PlugCompose(inner: Ctx, outer: Ctx, t: Tree)
    ensures Plug(Compose(inner, outer), t) == Plug(outer, Plug(inner, t))
    decreases inner
  {
    if inner.Down? {
      PlugCompose(inner.up, outer, Join(inner.d, t, inner.n, inner.sib));
    }
  }

  ghost function Elems(s: seq<Entry>): set<Entry> {
    set n | n in s
  }

  lemma {:induction false} InOrderMembers(t: Tree)
    ensures Elems(InOrder(t)) == Nodes(t)
  {
    if t.Node? {
      InOrderMembers(t.l);
      InOrderMembers(t.r);
      assert Elems(InOrder(t)) == Elems(InOrder(t.l)) + {t.n} + Elems(InOrder(t.r));
    }
  }

  lemma {:induction false} InOrderCount(t: Tree)
    requires Distinct(t)
    ensures |InOrder(t)| == |Nodes(t)|
  {
    if t.Node? {
      InOrderCount(t.l);
      InOrderCount(t.r);
      assert Nodes(t) == Nodes(t.l) + Nodes(t.r) + {t.n};
    }
  }

  ghost predicate NoRepeats(s: seq<Entry>) {
    forall i, j :: 0 <= i < j < |s| ==> s[i] != s[j]
  }

  lemma JoinNoRepeats(a: seq<Entry>, n: Entry, b: seq<Entry>)
    requires NoRepeats(a) && NoRepeats(b)
    requires n !in a && n !in b && Elems(a) !! Elems(b)
    ensures NoRepeats(a + [n] + b)
  {
    var s := a + [n] + b;
    forall i, j | 0 <= i < j < |s| ensures s[i] != s[j] {
      if i < |a| {
        assert s[i] == a[i] && a[i] in Elems(a);
        assert |a| < j ==> s[j] == b[j - |a| - 1] && s[j] in Elems(b);
      } else {
        assert s[j] == b[j - |a| - 1];
        assert |a| < i ==> s[i] == b[i - |a| - 1];
      }
    }
  }

  lemma {:induction false} InOrderNoRepeats(t: Tree)
    requires Distinct(t)
    ensures NoRepeats(InOrder(t))
  {
    if t.Node? {
      InOrderNoRepeats(t.l);
      InOrderNoRepeats(t.r);
      InOrderMembers(t.l);
      InOrderMembers(t.r);
      assert t.n !in Elems(InOrder(t.l)) && t.n !in Elems(InOrder(t.r));
      JoinNoRepeats(InOrder(t.l), t.n, InOrder(t.r));
    }
  }

  /** Every element of a tree sits somewhere in it. */
  lemma {:induction false} Locate(t: Tree, n: Entry) returns (c: Ctx, s: Tree)
    requires n in Nodes(t)
    ensures Plug(c, s) == t && s.Node? && s.n == n
  {
    if n == t.n {
      c, s := Top, t;
    } else if n in Nodes(t.l) {
      c, s := Locate(t.l, n);
      PlugCompose(c, Down(Top, 0, t.n, t.r), s);
      c := Compose(c, Down(Top, 0, t.n, t.r));
    } else {
      c, s := Locate(t.r, n);
      PlugCompose(c, Down(Top, 1, t.n, t.l), s);
      c := Compose(c, Down(Top, 1, t.n, t.l));
    }
  }

  // -------------------------------------------------------- framing lemmas

  lemma {:induction false} FrameTree(m: Mem, m': Mem, t: Tree, p: Entry?, d: Side)
    requires Agree(m, m', Nodes(t))
    ensures Linked(m, t, p, d) <==> Linked(m', t, p, d)
    ensures Balanced(m, t) <==> Balanced(m', t)
  {
    if t.Node? {
      FrameTree(m, m', t.l, t.n, 0);
      FrameTree(m, m', t.r, t.n, 1);
    }
  }

  lemma {:induction false} FrameCtx(m: Mem, m': Mem, c: Ctx, hole: Entry?, root: Entry?, h: int)
    requires Agree(m, m', CtxNodes(c))
    ensures LinkedCtx(m, c, hole, root) <==> LinkedCtx(m', c, hole, root)
    ensures BalancedCtx(m, c, h) <==> BalancedCtx(m', c, h)
    decreases c
  {
    if c.Down? {
      FrameTree(m, m', c.sib, c.n, 1 - c.d);
      FrameCtx(m, m', c.up, c.n, root, 1 + Max(h, Height(c.sib)));
    }
  }

  /** A subtree moved under another parent: only its root's upward links change. */
  lemma Rehang(m: Mem, m': Mem, t: Tree, p: Entry?, d: Side, p': Entry?, d': Side)
    requires Linked(m, t, p, d) && Distinct(t)
    requires Agree(m, m', Nodes(t) - {Root(t)})
    requires t.Node? ==> t.n in m' && m'[t.n] == m[t.n].(parent := p', which := d')
    ensures Linked(m', t, p', d')
    ensures Balanced(m, t) ==> Balanced(m', t)
  {
    if t.Node? {
      FrameTree(m, m', t.l, t.n, 0);
      FrameTree(m, m', t.r, t.n, 1);
    }
  }

  /** Another subtree hung in the hole: only the pointer at the hole changes. */
  lemma Repoint(m: Mem, m': Mem, c: Ctx, hole: Entry?, root: Entry?, hole': Entry?, root': Entry?, h: int)
    requires LinkedCtx(m, c, hole, root) && DistinctCtx(c)
    requires Agree(m, m', CtxNodes(c) - {Parent(c)})
    requires c.Top? ==> root' == hole'
    requires c.Down? ==> root' == root && c.n in m'
    requires c.Down? ==> m'[c.n] == m[c.n].(child := m[c.n].child.With(c.d, hole'))
    ensures LinkedCtx(m', c, hole', root')
    ensures BalancedCtx(m, c, h) ==> BalancedCtx(m', c, h)
  {
    if c.Down? {
      FrameTree(m, m', c.sib, c.n, 1 - c.d);
      FrameCtx(m, m', c.up, c.n, root, 1 + Max(h, Height(c.sib)));
    }
  }
}
