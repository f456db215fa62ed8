/** Order facts behind searching and walking an AVL tree, and the bound on its height. */
module AvlSearch {
  import opened Common
  import opened AvlShape
  import opened AvlRotation
  import opened AvlClimb

  /** Strictly increasing keys. */
  ghost predicate Sorted(s: seq<Entry>) {
    forall i, j :: 0 <= i < j < |s| ==> s[i].index < s[j].index
  }

  ghost predicate AllBelow(s: seq<Entry>, v: int) {
    forall i :: 0 <= i < |s| ==> s[i].index < v
  }

  ghost predicate AllAbove(s: seq<Entry>, v: int) {
    forall i :: 0 <= i < |s| ==> v < s[i].index
  }

  lemma SortedParts(a: seq<Entry>, x: Entry, b: seq<Entry>)
    requires Sorted(a + [x] + b)
    ensures AllBelow(a, x.index) && AllAbove(b, x.index)
  {
    var s := a + [x] + b;
    assert s[|a|] == x;
    forall i | 0 <= i < |a| ensures a[i].index < x.index {
      assert s[i] == a[i];
    }
    forall i | 0 <= i < |b| ensures x.index < b[i].index {
      assert s[|a| + 1 + i] == b[i];
    }
  }

  lemma Regroup(p: seq<Entry>, a: seq<Entry>, x: Entry, b: seq<Entry>, q: seq<Entry>)
    ensures p + (a + [x] + b) + q == (p + a) + [x] + (b + q)
  {
  }

  /** Everything in order before, or after, the root of the subtree in the hole. */
  lemma SortedAround(c: Ctx, t: Tree)
    requires t.Node? && Sorted(InOrder(Plug(c, t)))
    ensures AllBelow(Before(c) + InOrder(t.l), t.n.index) && AllAbove(InOrder(t.r) + After(c), t.n.index)
  {
    PlugInOrder(c, t);
    Regroup(Before(c), InOrder(t.l), t.n, InOrder(t.r), After(c));
    SortedParts(Before(c) + InOrder(t.l), t.n, InOrder(t.r) + After(c));
  }

  /** The search invariant: `v` can only be in the hole of `c`. */
  ghost predicate Narrowed(c: Ctx, v: int) {
    AllBelow(Before(c), v) && AllAbove(After(c), v)
  }

  lemma NarrowLeft(c: Ctx, t: Tree, v: int)
    requires t.Node? && Sorted(InOrder(Plug(c, t))) && Narrowed(c, v) && v < t.n.index
    ensures Narrowed(Down(c, 0, t.n, t.r), v)
  {
    SortedAround(c, t);
    var s := ([t.n] + InOrder(t.r)) + After(c);
    forall i | 0 <= i < |s| ensures v < s[i].index {
      assert 1 <= i ==> s[i] == (InOrder(t.r) + After(c))[i - 1];
    }
  }

  lemma NarrowRight(c: Ctx, t: Tree, v: int)
    requires t.Node? && Sorted(InOrder(Plug(c, t))) && Narrowed(c, v) && t.n.index < v
    ensures Narrowed(Down(c, 1, t.n, t.l), v)
  {
    SortedAround(c, t);
    var s := Before(c) + (InOrder(t.l) + [t.n]);
    forall i | 0 <= i < |s| ensures s[i].index < v {
      assert i < |s| - 1 ==> s[i] == (Before(c) + InOrder(t.l))[i];
    }
  }

  /** A search that narrows down to nothing proves absence. */
  lemma Absent(c: Ctx, v: int)
    requires Narrowed(c, v)
    ensures forall n :: n in InOrder(Plug(c, Leaf)) ==> n.index != v
  {
    PlugInOrder(c, Leaf);
    var s := Before(c) + After(c);
    assert InOrder(Plug(c, Leaf)) == s;
    forall n | n in s ensures n.index != v {
      var i :| 0 <= i < |s| && s[i] == n;
      assert |Before(c)| <= i ==> n == After(c)[i - |Before(c)|];
    }
  }

  /** A new entry put where the search ended keeps the keys increasing. */
  lemma SortedInsert(a: seq<Entry>, x: Entry, b: seq<Entry>)
    requires Sorted(a + b) && AllBelow(a, x.index) && AllAbove(b, x.index)
    ensures Sorted(a + [x] + b)
  {
    var s, o := a + [x] + b, a + b;
    forall i, j | 0 <= i < j < |s| ensures s[i].index < s[j].index {
      var i', j' := if i < |a| then i else i - 1, if j < |a| then j else j - 1;
      if i != |a| && j != |a| {
        assert s[i] == o[i'] && s[j] == o[j'];
      }
    }
  }

  // ----------------------------------------------------------------- walking

  /** The element next to position `i` of `s` on side `d`, or null at the end. */
  ghost function Beside(s: seq<Entry>, i: int, d: Side): Entry?
    requires 0 <= i < |s|
  {
    if d == 0 then (if i == 0 then null else s[i - 1]) else (if i == |s| - 1 then null else s[i + 1])
  }

  ghost function LastOf(s: seq<Entry>): Entry? { if s == [] then null else s[|s| - 1] }
  ghost function FirstOf(s: seq<Entry>): Entry? { if s == [] then null else s[0] }

  /** The end of the elements on side `d` of the hole of `c` that is nearest to the hole. */
  ghost function Near(c: Ctx, d: Side): Entry? {
    if d == 0 then LastOf(Before(c)) else FirstOf(After(c))
  }

  /** The neighbour of the root of `t` on side `d` is the near end of its subtree there,
      or of what lies beyond. */
  ghost function NextTo(c: Ctx, t: Tree, d: Side): Entry?
    requires t.Node?
  {
    var far := if d == 0 then LastOf(InOrder(t.l)) else FirstOf(InOrder(t.r));
    if far != null then far else Near(c, d)
  }

  lemma NextToIsBeside(c: Ctx, t: Tree, d: Side, i: int)
    requires t.Node? && Distinct(Plug(c, t))
    requires 0 <= i < |InOrder(Plug(c, t))| && InOrder(Plug(c, t))[i] == t.n
    ensures NextTo(c, t, d) == Beside(InOrder(Plug(c, t)), i, d)
  {
    hide Distinct, Beside, Before, After, Plug;
    PlugInOrder(c, t);
    InOrderNoRepeats(Plug(c, t));
    Regroup(Before(c), InOrder(t.l), t.n, InOrder(t.r), After(c));
    Pivot(Before(c), InOrder(t.l), t.n, InOrder(t.r), After(c), i);
  }

  /** The neighbours of the one place where `x` occurs. */
  lemma Pivot(p: seq<Entry>, a: seq<Entry>, x: Entry, b: seq<Entry>, q: seq<Entry>, i: int)
    requires var s := (p + a) + [x] + (b + q); NoRepeats(s) && 0 <= i < |s| && s[i] == x
    ensures var s := (p + a) + [x] + (b + q);
      && Beside(s, i, 0) == (if a != [] then LastOf(a) else LastOf(p))
      && Beside(s, i, 1) == (if b != [] then FirstOf(b) else FirstOf(q))
  {
    var s, k := (p + a) + [x] + (b + q), |p + a|;
    assert s[k] == x && i == k;
    assert k > 0 ==> s[k - 1] == (p + a)[k - 1];
    assert |b + q| > 0 ==> s[k + 1] == (b + q)[0];
  }

  /** Going up from side `1 - d` arrives at the neighbour on side `d`; going up from side `d` does not change it. */
  lemma NearUp(c: Ctx, d: Side)
    requires c.Down?
    ensures c.d != d ==> Near(c, d) == c.n
    ensures c.d == d ==> Near(c, d) == Near(c.up, d)
  {
  }

  /** The element at the end of `t` on side `d`. */
  ghost function EndOf(t: Tree, d: Side): Entry? {
    if d == 0 then FirstOf(InOrder(t)) else LastOf(InOrder(t))
  }

  lemma EndDown(t: Tree, d: Side)
    requires t.Node?
    ensures EndOf(t, d) == if Sub(t, d).Leaf? then t.n else EndOf(Sub(t, d), d)
  {
    var u := Sub(t, d);
    assert InOrder(t) == InOrder(t.l) + [t.n] + InOrder(t.r);
    if u.Node? {
      assert InOrder(u) == InOrder(u.l) + [u.n] + InOrder(u.r);
    }
  }

  // ------------------------------------------------------------------ height

  ghost function Fib(n: nat): nat {
    if n < 2 then n else Fib(n - 1) + Fib(n - 2)
  }

  lemma {:induction false} FibGrows(n: nat)
    ensures Fib(n) <= Fib(n + 1)
  {
    if n >= 2 {
      FibGrows(n - 1);
      FibGrows(n - 2);
    }
  }

  /** An AVL tree of height `h` has at least Fib(h + 2) - 1 elements. */
  lemma {:induction false} HeightBound(m: Mem, t: Tree)
    requires Balanced(m, t)
    ensures |InOrder(t)| >= Fib(Height(t) + 2) - 1
  {
    hide Linked;
    if t.Node? {
      HeightBound(m, t.l);
      HeightBound(m, t.r);
      FibStep(Height(t.l), Height(t.r));
      assert Height(t) == 1 + Max(Height(t.l), Height(t.r));
    }
  }

  lemma FibStep(a: nat, b: nat)
    requires -1 <= a - b <= 1
    ensures Fib(a + 2) + Fib(b + 2) >= Fib(Max(a, b) + 3)
  {
    var hi := Max(a, b);
    FibGrows(hi + 1);
    assert Fib(hi + 3) == Fib(hi + 2) + Fib(hi + 1);
  }

  lemma {:induction false} FibMonotone(a: nat, b: nat)
    requires a <= b
    ensures Fib(a) <= Fib(b)
    decreases b - a
  {
    if a < b {
      FibMonotone(a, b - 1);
      FibGrows(b - 1);
    }
  }

  /** A search that ends at an empty position has excluded every element. */
  lemma NowhereElse(c: Ctx, v: int)
    requires Narrowed(c, v)
    ensures forall n :: n in Nodes(Plug(c, Leaf)) ==> n.index != v
  {
    Absent(c, v);
    InOrderMembers(Plug(c, Leaf));
    forall n | n in Nodes(Plug(c, Leaf)) ensures n.index != v {
      assert n in Elems(InOrder(Plug(c, Leaf)));
    }
  }

  /** The neighbours of an empty position, by position in the order. */
  lemma NearIsBeside(c: Ctx)
    requires c.Down?
    ensures var s, k := InOrder(Plug(c, Leaf)), |Before(c)|;
      && c.d == 1 ==> 0 <= k - 1 < |s| && s[k - 1] == c.n && Beside(s, k - 1, 1) == Near(c, 1)
    ensures var s, k := InOrder(Plug(c, Leaf)), |Before(c)|;
      c.d == 0 ==> 0 <= k < |s| && s[k] == c.n && Beside(s, k, 0) == Near(c, 0)
  {
    PlugInOrder(c, Leaf);
    var s := InOrder(Plug(c, Leaf));
    assert s == Before(c) + After(c);
  }
}
