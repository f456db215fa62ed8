/** The AVL tree itself: an iterative, in-place implementation over elements
    with parent links, child indices and balances. */
module AvlTree {
  import opened Common
  import opened AvlShape
  import opened AvlRotation
  import opened AvlClimb
  import opened AvlSwap
  import opened AvlSearch
  import opened AvlRaze

  /** A position between elements, as returned by Find: child `child` of `node`,
      or the root of an empty tree when `node` is null. */
  datatype Index = Index(node: Entry?, child: Side)

  class Avl {
    var root: Entry?
    var count: nat
    ghost var shape: Tree
    ghost var elems: set<Entry>
    /** How many rotations have been made. */
    ghost var rotations: nat

    /** Links, balances and count are exact for the ghost shape, whose entries are `elems`. */
    ghost predicate Valid()
      reads this, elems`link
    {
      && Exact(Snap(elems), shape, root)
      && count == |InOrder(shape)|
    }

    /** The elements in order. */
    ghost function Contents(): seq<Entry>
      reads this
    {
      InOrder(shape)
    }

    constructor ()
      ensures Valid() && elems == {} && Contents() == []
    {
      root, count, shape, elems, rotations := null, 0, Leaf, {}, 0;
    }

    /** Records the outcome of an update. */
    method Settle(n: nat, ghost full: Tree, ghost s: set<Entry>)
      requires Exact(Snap(s), full, root) && n == |InOrder(full)|
      modifies this`count, this`shape, this`elems
      ensures Valid() && shape == full && elems == s
    {
      count, shape, elems := n, full, s;
    }

    /** The writes of a single rotation at `node`. */
    method TurnOnce(ghost s: set<Entry>, node: Entry, left: Side, child: Entry, childBal: int)
      requires node in s && child in s && node != child
      requires var p := node.link.parent; p != null ==> p in s && p != node && p != child
      requires var b := child.link.child.At(1 - left);
               b != null ==> b in s && b != node && b != child && b != node.link.parent
      modifies this`root, s`link
      ensures SingleWrites(old(Snap(s)), Snap(s), old(node.link.parent), old(node.link.which), left, child,
                           old(child.link.child.At(1 - left)), node, old(root), root)
      ensures child.link.balance == childBal && node.link.balance == -childBal
    {
      var right := 1 - left;
      var parent := node.link.parent;
      var whichChild := node.link.which;
      var cright := child.link.child.At(right);
      node.link := Links(node.link.child.With(left, cright), child, right, -childBal);
      if cright != null {
        cright.link := cright.link.(parent := node, which := left);
      }
      child.link := Links(child.link.child.With(right, node), parent, whichChild, childBal);
      if parent != null {
        parent.link := parent.link.(child := parent.link.child.With(whichChild, child));
      } else {
        root := child;
      }
    }

    /** The lower half of a double rotation: `gchild`'s children go to `node` and `child`,
        which go under `gchild`. */
    method Spread(ghost s: set<Entry>, node: Entry, left: Side, child: Entry, gchild: Entry)
      requires node in s && child in s && gchild in s
      requires gchild.link.child.zero != null ==> gchild.link.child.zero in s
      requires gchild.link.child.one != null ==> gchild.link.child.one in s
      requires Separate(null, child, gchild.link.child.At(left), gchild, gchild.link.child.At(1 - left), node)
      modifies s`link
      ensures var gl, gr := gchild.link.child.At(left), gchild.link.child.At(1 - left);
              && (forall n :: n in s && n != node && n != child && n != gl && n != gr ==> n.link == old(n.link))
              && Rehung(old(Snap(s)), Snap(s), gl, child, 1 - left)
              && Rehung(old(Snap(s)), Snap(s), gr, node, left)
              && child.link == Links(old(child.link.child).With(1 - left, gl), gchild, left,
                                     if gchild.link.balance == -Heavy(left) then Heavy(left) else 0)
              && node.link == Links(old(node.link.child).With(left, gr), gchild, 1 - left,
                                    if gchild.link.balance == Heavy(left) then -Heavy(left) else 0)
      ensures gchild.link == old(gchild.link)
    {
      var right := 1 - left;
      var leftHeavy := if left == 0 then -1 else 1;
      var rightHeavy := -leftHeavy;
      var gleft := gchild.link.child.At(left);
      var gright := gchild.link.child.At(right);
      var balance := gchild.link.balance;
      node.link := Links(node.link.child.With(left, gright), gchild, right,
                         if balance == leftHeavy then rightHeavy else 0);
      if gright != null {
        gright.link := gright.link.(parent := node, which := left);
      }
      child.link := Links(child.link.child.With(right, gleft), gchild, left,
                          if balance == rightHeavy then leftHeavy else 0);
      if gleft != null {
        gleft.link := gleft.link.(parent := child, which := right);
      }
    }

    /** The writes of a double rotation at `node`. */
    method TurnTwice(ghost s: set<Entry>, node: Entry, left: Side, child: Entry, gchild: Entry)
      requires node in s && child in s && gchild in s
      requires node.link.parent != null ==> node.link.parent in s
      requires gchild.link.child.zero != null ==> gchild.link.child.zero in s
      requires gchild.link.child.one != null ==> gchild.link.child.one in s
      requires Separate(node.link.parent, child, gchild.link.child.At(left), gchild, gchild.link.child.At(1 - left),
                        node)
      modifies this`root, s`link
      ensures DoubleWrites(old(Snap(s)), Snap(s), old(node.link.parent), old(node.link.which), left, child,
                           old(gchild.link.child.At(left)), gchild, old(gchild.link.child.At(1 - left)), node,
                           old(root), root)
      ensures child.link.balance == if old(gchild.link.balance) == -Heavy(left) then Heavy(left) else 0
      ensures node.link.balance == if old(gchild.link.balance) == Heavy(left) then -Heavy(left) else 0
    {
      var parent := node.link.parent;
      var whichChild := node.link.which;
      Spread(s, node, left, child, gchild);
      gchild.link := Links(gchild.link.child.With(left, child).With(1 - left, node), parent, whichChild, 0);
      if parent != null {
        parent.link := parent.link.(child := parent.link.child.With(whichChild, gchild));
      } else {
        root := gchild;
      }
    }

    /** A double rotation of the subtree in the hole of `c`. */
    method RotateTwice(ghost s: set<Entry>, node: Entry, left: Side, child: Entry, gchild: Entry,
                       ghost c: Ctx, ghost a: Tree, ghost gl: Tree, ghost gr: Tree, ghost d: Tree)
      requires Whole(Snap(s), c, Bent(left, a, child, gl, gchild, gr, node, d), root)
      requires Tilted(Snap(s), Bent(left, a, child, gl, gchild, gr, node, d), left)
      requires child in s && child.link.balance == -Heavy(left)
      modifies this`root, s`link
      ensures Rotated(old(Snap(s)), Snap(s), c, Bent(left, a, child, gl, gchild, gr, node, d),
                      Double(left, a, child, gl, gchild, gr, node, d), root, true)
    {
      hide Rotated, Tilted, Whole;
      ghost var m, root0 := Snap(s), root;
      TallPointers(m, c, left, a, child, Join(left, gl, gchild, gr), node, d, root);
      BentPointers(m, c, left, a, child, gl, gchild, gr, node, d, root);
      TurnTwice(s, node, left, child, gchild);
      DoubleRotation(m, Snap(s), c, left, a, child, gl, gchild, gr, node, d, root0, root);
    }

    /** Rotates at `node`, the root of `t` in the hole of `c`, whose new balance would be `balance`. */
    method Rotation(node: Entry, balance: int, ghost c: Ctx, ghost t: Tree)
      returns (shorter: bool, ghost t': Tree)
      requires balance == -2 || balance == 2
      requires t.Node? && t.n == node
      requires Whole(Snap(Nodes(t) + CtxNodes(c)), c, t, root)
      requires Tilted(Snap(Nodes(t) + CtxNodes(c)), t, if balance < 0 then 0 else 1)
      requires node.link.child.At(if balance < 0 then 0 else 1) != null
      modifies this`root, this`rotations, (Nodes(t) + CtxNodes(c))`link
      ensures rotations == old(rotations) + 1
      ensures Rotated(old(Snap(Nodes(t) + CtxNodes(c))), Snap(Nodes(t) + CtxNodes(c)), c, t, t', root, shorter)
      ensures shorter <==> old(node.link.child.At(if balance < 0 then 0 else 1).link.balance) != 0
    {
      hide Rotated;
      ghost var s := Nodes(t) + CtxNodes(c);
      ghost var m := Snap(s);
      ghost var root0 := root;
      rotations := rotations + 1;
      var left := if balance < 0 then 0 else 1;
      var right := 1 - left;
      var leftHeavy := if balance < 0 then -1 else 1;
      var rightHeavy := -leftHeavy;
      ghost var x, d := Sub(t, left), Sub(t, right);
      ghost var a, b := Sub(x, left), Sub(x, right);
      assert t == Tall(left, a, x.n, b, node, d);
      TallPointers(m, c, left, a, x.n, b, node, d, root);
      var child := node.link.child.At(left);
      var childBal := child.link.balance;
      if childBal != rightHeavy {
        childBal := childBal + rightHeavy;
        TurnOnce(s, node, left, child, childBal);
        SingleRotation(m, Snap(s), c, left, a, child, b, node, d, root0, root);
        return childBal == 0, Single(left, a, child, b, node, d);
      }
      var gchild := child.link.child.At(right);
      ghost var gl, gr := Sub(b, left), Sub(b, right);
      assert t == Bent(left, a, child, gl, b.n, gr, node, d);
      RotateTwice(s, node, left, child, gchild, c, a, gl, gr, d);
      return true, Double(left, a, child, gl, gchild, gr, node, d);
    }

    /** The rotation that ends the climb of an insertion. */
    method TurnGrown(ghost s: set<Entry>, cur: Entry, newBalance: int, ghost c: Ctx, ghost t: Tree)
      returns (ghost full: Tree)
      requires Grown(Snap(s), c, t, root) && c.Down? && c.n == cur && cur in s
      requires cur.link.balance == Heavy(c.d) && newBalance == 2 * Heavy(c.d)
      modifies this`root, this`rotations, s`link
      ensures Exact(Snap(s), full, root) && InOrder(full) == InOrder(Plug(c, t)) && rotations == old(rotations) + 1
    {
      hide Linked, Balanced, InOrder, Height, Distinct, DistinctCtx;
      ghost var m := Snap(s);
      ghost var x := Join(c.d, t, c.n, c.sib);
      GrownTilts(m, c, t, root);
      assert Nodes(x) + CtxNodes(c.up) == s;
      var shorter;
      ghost var x';
      shorter, x' := Rotation(cur, newBalance, c.up, x);
      RotationEnds(m, Snap(s), c.up, x, x', root, shorter);
      full := Plug(c.up, x');
    }

    /** The climb of an insertion: the subtree `t0` in the hole of `c0` has grown by one level. */
    method ClimbGrown(ghost s: set<Entry>, ghost c0: Ctx, ghost t0: Tree, parent0: Entry?, whichChild0: Side)
      returns (ghost full: Tree)
      requires Grown(Snap(s), c0, t0, root)
      requires parent0 == Parent(c0) && (c0.Down? ==> whichChild0 == c0.d)
      modifies this`root, this`rotations, s`link
      ensures Exact(Snap(s), full, root) && InOrder(full) == InOrder(Plug(c0, t0)) && rotations <= old(rotations) + 1
    {
      hide Linked, Balanced, InOrder, Height, Distinct, DistinctCtx, Exact;
      var parent, whichChild := parent0, whichChild0;
      ghost var c, t := c0, t0;
      full := Plug(c0, t0);
      while parent != null
        invariant Grown(Snap(s), c, t, root) && Plug(c, t) == full
        invariant parent == Parent(c) && (c.Down? ==> whichChild == c.d) && rotations == old(rotations)
        decreases c
      {
        ghost var m := Snap(s);
        var cur := parent;
        var oldBalance := cur.link.balance;
        var newBalance := oldBalance + if whichChild == 0 then -1 else 1;
        if newBalance == 0 {
          cur.link := cur.link.(balance := 0);
          GrownEvens(m, Snap(s), c, t, root);
          return;
        }
        if oldBalance != 0 {
          full := TurnGrown(s, cur, newBalance, c, t);
          return;
        }
        cur.link := cur.link.(balance := newBalance);
        GrownClimbs(m, Snap(s), c, t, root);
        parent := cur.link.parent;
        whichChild := cur.link.which;
        c, t := c.up, Join(c.d, t, c.n, c.sib);
      }
      GrownEnds(Snap(s), c, t, root);
    }

    /** Inserts `node` in the gap `where`, which is the hole of `gap`. */
    method Insert(node: Entry, where: Index, ghost gap: Ctx)
      requires Valid() && node !in elems
      requires Plug(gap, Leaf) == shape && where == Index(Parent(gap), SideOf(gap))
      modifies this, elems`link, node`link
      ensures Valid() && elems == old(elems) + {node}
      ensures Contents() == Before(gap) + [node] + After(gap) && rotations <= old(rotations) + 1
    {
      ghost var m0, root0 := Snap(elems), root;
      ghost var s := elems + {node};
      var parent, whichChild := where.node, where.child;
      PlugNodes(gap, Leaf);
      ExactNodes(m0, shape, root);
      assert parent != null ==> parent in elems;
      node.link := Links(Pair(null, null), parent, whichChild, 0);
      if parent != null {
        parent.link := parent.link.(child := parent.link.child.With(whichChild, node));
      } else {
        root := node;
      }
      Sprout(m0, Snap(s), gap, node, root0, root);
      SproutOrder(gap, node);
      ghost var full := ClimbGrown(s, gap, Node(Leaf, node, Leaf), parent, whichChild);
      Settle(count + 1, full, s);
    }

    /** A rotation in the climb of a removal, which goes on if the subtree is shorter still. */
    method TurnShrunk(ghost s: set<Entry>, node: Entry, newBalance: int, ghost c: Ctx, ghost t: Tree)
      returns (shorter: bool, ghost x': Tree)
      requires Shrunk(Snap(s), c, t, root) && c.Down? && c.n == node && node in s
      requires node.link.balance == -Heavy(c.d) && newBalance == -2 * Heavy(c.d)
      modifies this`root, this`rotations, s`link
      ensures InOrder(Plug(c.up, x')) == InOrder(Plug(c, t))
      ensures if shorter then Shrunk(Snap(s), c.up, x', root) else Exact(Snap(s), Plug(c.up, x'), root)
    {
      hide Linked, Balanced, InOrder, Height, Distinct, DistinctCtx, Exact, Shrunk;
      ghost var m := Snap(s);
      ghost var x := Join(c.d, t, c.n, c.sib);
      ShrunkTilts(m, c, t, root);
      assert Nodes(x) + CtxNodes(c.up) == s;
      shorter, x' := Rotation(node, newBalance, c.up, x);
      if shorter {
        RotationShrinks(m, Snap(s), c.up, x, x', root);
      } else {
        RotationEnds(m, Snap(s), c.up, x, x', root, shorter);
      }
    }

    /** The climb of a removal: the subtree `t0` in the hole of `c0` has shrunk by one level. */
    method ClimbShrunk(ghost s: set<Entry>, ghost c0: Ctx, ghost t0: Tree, parent0: Entry?, whichChild0: Side)
      returns (ghost full: Tree)
      requires Shrunk(Snap(s), c0, t0, root)
      requires parent0 == Parent(c0) && (c0.Down? ==> whichChild0 == c0.d)
      modifies this`root, this`rotations, s`link
      ensures Exact(Snap(s), full, root) && InOrder(full) == InOrder(Plug(c0, t0))
    {
      hide Linked, Balanced, InOrder, Height, Distinct, DistinctCtx, Exact;
      var parent, whichChild := parent0, whichChild0;
      ghost var c, t := c0, t0;
      while parent != null
        invariant Shrunk(Snap(s), c, t, root) && InOrder(Plug(c, t)) == InOrder(Plug(c0, t0))
        invariant parent == Parent(c) && (c.Down? ==> whichChild == c.d)
        decreases c
      {
        ghost var m := Snap(s);
        ghost var x := Join(c.d, t, c.n, c.sib);
        var node := parent;
        var oldBalance := node.link.balance;
        var newBalance := oldBalance - if whichChild == 0 then -1 else 1;
        parent := node.link.parent;
        whichChild := node.link.which;
        if oldBalance == 0 {
          node.link := node.link.(balance := newBalance);
          ShrunkStops(m, Snap(s), c, t, root);
          full := Plug(c, t);
          return;
        }
        if newBalance == 0 {
          node.link := node.link.(balance := newBalance);
          ShrunkClimbs(m, Snap(s), c, t, root);
          c, t := c.up, x;
        } else {
          var shorter;
          ghost var x';
          shorter, x' := TurnShrunk(s, node, newBalance, c, t);
          if !shorter {
            full := Plug(c.up, x');
            return;
          }
          c, t := c.up, x';
        }
      }
      ShrunkEnds(Snap(s), c, t, root);
      full := Plug(c, t);
    }

    /** Puts `node` in the place of `delete`, leaving its links in a placeholder. */
    method MoveUp(delete: Entry, node: Entry, left: Side, ghost s: set<Entry>, ghost k: Site) returns (tmp: Entry)
      requires k.d == delete && k.node == node && k.left == left && k.r.Node?
      requires Aimed(Snap(s), k) && Spaced(Snap(s), k)
      modifies this`root, s`link
      ensures fresh(tmp)
      ensures MoveWrites(old(Snap(s)), Snap(s - {delete} + {tmp}), k, tmp, old(root), root)
    {
      var right := 1 - left;
      tmp := new Entry(0, File, false, false, null, 0, ForFiles);
      tmp.link := node.link;
      node.link := delete.link;
      if node.link.child.At(left) == node {
        node.link := node.link.(child := node.link.child.With(left, tmp));
      }
      var parent := node.link.parent;
      if parent != null {
        parent.link := parent.link.(child := parent.link.child.With(node.link.which, node));
      } else {
        root := node;
      }
      var a, b := node.link.child.At(left), node.link.child.At(right);
      a.link := a.link.(parent := node);
      b.link := b.link.(parent := node);
    }

    /** Links the placeholder `tmp` in the old place of `k.node`; `m` and `root0` are what was before the swap. */
    method LinkPlaceholder(tmp: Entry, ghost s: set<Entry>, ghost k: Site, ghost m: Mem, ghost root0: Entry?)
      requires tmp in s && tmp !in m && Aimed(m, k) && Spaced(m, k) && MoveWrites(m, Snap(s), k, tmp, root0, root)
      modifies s`link
      ensures SwapWrites(m, Snap(s), k, tmp, root0, root)
    {
      var parent := tmp.link.parent;
      assert parent in Snap(s) && (k.y.Node? ==> k.y.n in Snap(s));
      parent.link := parent.link.(child := parent.link.child.With(tmp.link.which, tmp));
      var whichChild := if tmp.link.child.one != null then 1 else 0;
      var only := tmp.link.child.At(whichChild);
      if only != null {
        only.link := only.link.(parent := tmp);
      }
    }

    /** Puts `node` in the place of `delete` and a placeholder in the place of `node`. */
    method Swap(delete: Entry, node: Entry, left: Side, ghost s: set<Entry>, ghost k: Site) returns (tmp: Entry)
      requires k.d == delete && k.node == node && k.left == left && k.r.Node?
      requires Aimed(Snap(s), k) && Spaced(Snap(s), k)
      modifies this`root, s`link
      ensures fresh(tmp)
      ensures SwapWrites(old(Snap(s)), Snap(s - {delete} + {tmp}), k, tmp, old(root), root)
    {
      hide Aimed, Spaced, MoveWrites, SwapWrites;
      tmp := MoveUp(delete, node, left, s, k);
      LinkPlaceholder(tmp, s - {delete} + {tmp}, k, old(Snap(s)), old(root));
    }

    /** The in-order neighbour of `delete` on side `left`: once to the left, then to the right as far as possible. */
    method Neighbour(delete: Entry, left: Side, ghost s: set<Entry>, ghost c0: Ctx, ghost t0: Tree)
      returns (node: Entry, ghost k: Site)
      requires t0.Node? && t0.n == delete && Sub(t0, left).Node?
      requires Exact(Snap(s), Plug(c0, t0), root)
      ensures k == Site(c0, left, delete, Sub(t0, 1 - left), k.spine, node, k.y)
      ensures Spine(k.spine, 1 - left) && k.Whole0() == Plug(c0, t0)
    {
      hide Exact, Balanced, InOrder, Height, Distinct, DistinctCtx;
      ghost var m := Snap(s);
      ghost var base := Down(c0, left, delete, Sub(t0, 1 - left));
      ghost var spine, sub := Top, Sub(t0, left);
      OpenUp(m, c0, t0, root);
      node := delete.link.child.At(left);
      OpenUp(m, Compose(spine, base), sub, root);
      while node.link.child.At(1 - left) != null
        invariant sub.Node? && sub.n == node && Spine(spine, 1 - left)
        invariant Plug(Compose(spine, base), sub) == Plug(c0, t0)
        invariant Linked(m, sub, Parent(Compose(spine, base)), SideOf(Compose(spine, base)))
        decreases sub
      {
        node := node.link.child.At(1 - left);
        spine, sub := Down(spine, 1 - left, sub.n, Sub(sub, left)), Sub(sub, 1 - left);
        OpenUp(m, Compose(spine, base), sub, root);
      }
      k := Site(c0, left, delete, Sub(t0, 1 - left), spine, node, Sub(sub, left));
      assert sub == Join(left, k.y, node, Leaf);
    }

    /** Takes the loose entry `x` out of the tree. */
    method Unlink(x: Entry, ghost s: set<Entry>, ghost c: Ctx, ghost d: Side, ghost y: Tree)
      requires Loose(Snap(s), c, d, y, x, root)
      modifies this`root, (s - {x})`link
      ensures Shrunk(Snap(s - {x}), c, y, root)
    {
      ghost var m, root0 := Snap(s), root;
      LoosePointers(m, c, d, y, x, root);
      var parent := x.link.parent;
      var whichChild := x.link.which;
      var node := if x.link.child.zero != null then x.link.child.zero else x.link.child.one;
      if node != null {
        node.link := node.link.(parent := parent, which := whichChild);
      }
      if parent == null {
        root := node;
      } else {
        parent.link := parent.link.(child := parent.link.child.With(whichChild, node));
      }
      UnlinkShrinks(m, Snap(s - {x}), c, d, y, x, root0, root);
    }

    /** Swaps `data`, which has two children, with a neighbour; returns the loose placeholder. */
    method SwapOut(data: Entry, ghost s: set<Entry>, ghost c0: Ctx, ghost t0: Tree)
      returns (tmp: Entry, ghost c: Ctx, ghost d: Side, ghost y: Tree)
      requires t0.Node? && t0.n == data && t0.l.Node? && t0.r.Node?
      requires Exact(Snap(s), Plug(c0, t0), root)
      modifies this`root, s`link
      ensures fresh(tmp) && Loose(Snap(s - {data} + {tmp}), c, d, y, tmp, root)
      ensures IsWithout(InOrder(Plug(c, y)), InOrder(Plug(c0, t0)), data)
    {
      ghost var m, root0 := Snap(s), root;
      OpenUp(m, c0, t0, root);
      var left := if data.link.balance <= 0 then 0 else 1;
      var node;
      ghost var k;
      node, k := Neighbour(data, left, s, c0, t0);
      SiteAimed(m, k, root);
      SiteLaid(m, k, root);
      SiteSpaced(m, k);
      tmp := Swap(data, node, left, s, k);
      SwapLoose(m, Snap(s - {data} + {tmp}), k, tmp, root0, root);
      SwapOrder(k);
      c, d, y := k.New(), left, k.y;
    }

    /** Takes the loose entry `x` out and restores the balances up to the root. */
    method Detach(x: Entry, ghost s: set<Entry>, ghost c: Ctx, ghost d: Side, ghost y: Tree)
      returns (ghost full: Tree)
      requires Loose(Snap(s), c, d, y, x, root)
      modifies this`root, this`rotations, (s - {x})`link
      ensures Exact(Snap(s - {x}), full, root) && InOrder(full) == InOrder(Plug(c, y))
    {
      LoosePointers(Snap(s), c, d, y, x, root);
      var parent, whichChild := x.link.parent, x.link.which;
      Unlink(x, s, c, d, y);
      full := ClimbShrunk(s - {x}, c, y, parent, whichChild);
    }

    /** Takes `data`, the root of `t` in the hole of `c`, out of the tree. */
    method TakeOut(data: Entry, ghost s: set<Entry>, ghost c: Ctx, ghost t: Tree) returns (ghost full: Tree)
      requires t.Node? && t.n == data && data in s && Exact(Snap(s), Plug(c, t), root)
      modifies this`root, this`rotations, s`link
      ensures Exact(Snap(s - {data}), full, root) && IsWithout(InOrder(full), InOrder(Plug(c, t)), data)
    {
      OpenUp(Snap(s), c, t, root);
      if data.link.child.zero != null && data.link.child.one != null {
        var tmp;
        ghost var c', d, y;
        tmp, c', d, y := SwapOut(data, s, c, t);
        full := Detach(tmp, s - {data} + {tmp}, c', d, y);
        assert s - {data} + {tmp} - {tmp} == s - {data};
      } else {
        ghost var d := if t.l.Node? then 0 else 1;
        ghost var y := Sub(t, d);
        assert t == Join(d, y, data, Leaf);
        LeafyLoose(Snap(s), c, d, y, data, root);
        LeafyOrder(c, d, y, data);
        full := Detach(data, s, c, d, y);
      }
    }

    /** Removes `data` from the tree. */
    method Remove(data: Entry)
      requires Valid() && data in elems
      modifies this, elems`link
      ensures Valid() && elems == old(elems) - {data}
      ensures IsWithout(Contents(), old(Contents()), data)
    {
      ExactNodes(Snap(elems), shape, root);
      ghost var c, t := Locate(shape, data);
      ghost var full := TakeOut(data, elems, c, t);
      Settle(count - 1, full, elems - {data});
    }

    // ----------------------------------------------------------- searching

    /** Binary search for the key `value`. The search walks down to the place `gap`, where it finds the subtree
        `sub` with the key at its root, or nothing; `steps` counts the elements it looks at. */
    method Find(value: int) returns (found: Entry?, where: Index, ghost gap: Ctx, ghost sub: Tree, ghost steps: nat)
      requires Valid() && Sorted(Contents())
      ensures Plug(gap, sub) == shape && found == Root(sub)
      ensures found != null ==> found in elems && found.index == value && steps == Depth(gap) + 1
      ensures found == null ==> (forall n :: n in elems ==> n.index != value) && steps == Depth(gap)
      ensures found == null ==> where == Index(Parent(gap), SideOf(gap)) && Narrowed(gap, value)
      ensures Fib(steps + 2) <= count + 1
    {
      hide Balanced, InOrder, Distinct, DistinctCtx, Fib;
      ghost var m := Snap(elems);
      var node, prev, child: Side := root, null, 0;
      gap, sub, steps := Top, shape, 0;
      HeightBound(m, shape);
      while node != null
        invariant node == Root(sub) && prev == Parent(gap) && child == SideOf(gap) && steps == Depth(gap)
        invariant Plug(gap, sub) == shape && Hangs(m, gap, sub, root) && Narrowed(gap, value)
        invariant steps + Height(sub) <= Height(shape)
        decreases sub
      {
        prev := node;
        steps := steps + 1;
        assert Height(sub) == 1 + Max(Height(sub.l), Height(sub.r));
        if value == node.index {
          FibMonotone(steps + 2, Height(shape) + 2);
          return node, Index(null, 0), gap, sub, steps;
        }
        child := if value < node.index then 0 else 1;
        if value < node.index { NarrowLeft(gap, sub, value); } else { NarrowRight(gap, sub, value); }
        assert sub == Join(child, Sub(sub, child), node, Sub(sub, 1 - child));
        DownHangs(m, gap, child, Sub(sub, child), node, Sub(sub, 1 - child), root);
        gap, sub := Down(gap, child, node, Sub(sub, 1 - child)), Sub(sub, child);
        node := node.link.child.At(child);
      }
      FibMonotone(steps + 2, Height(shape) + 2);
      NowhereElse(gap, value);
      return null, Index(prev, child), gap, Leaf, steps;
    }

    /** The lowest, or highest, element: as far as possible to side `d`. */
    method End(d: Side) returns (last: Entry?)
      requires Valid()
      ensures last == if d == 0 then FirstOf(Contents()) else LastOf(Contents())
    {
      ghost var m, t, p, side: Side := Snap(elems), shape, null, 0;
      var node := root;
      last := null;
      while node != null
        invariant node == Root(t) && Linked(m, t, p, side)
        invariant t.Leaf? ==> last == EndOf(shape, d)
        invariant t.Node? ==> EndOf(t, d) == EndOf(shape, d)
        decreases t
      {
        EndDown(t, d);
        last := node;
        p, side, t := node, d, Sub(t, d);
        node := node.link.child.At(d);
      }
    }

    /** As far as possible to side `d` in the subtree `t0` at `start`. */
    method FarDown(start: Entry, d: Side, ghost t0: Tree, ghost p0: Entry, ghost side0: Side) returns (node: Entry)
      requires t0.Node? && t0.n == start && Linked(Snap(elems), t0, p0, side0)
      ensures node == EndOf(t0, d)
    {
      ghost var m, t, p, side: Side := Snap(elems), t0, p0, side0;
      node := start;
      EndDown(t, d);
      while node.link.child.At(d) != null
        invariant t.Node? && node == t.n && Linked(m, t, p, side) && EndOf(t, d) == EndOf(t0, d)
        decreases t
      {
        EndDown(t, d);
        p, side, t := node, d, Sub(t, d);
        node := node.link.child.At(d);
      }
      EndDown(t, d);
    }

    /** Up from `start`, in the hole of `c0`, to the first ancestor reached from side `right`. */
    method UpFrom(start: Entry, right: Side, ghost c0: Ctx) returns (node: Entry?)
      requires start in elems && LinkedCtx(Snap(elems), c0, start, root)
      requires start.link.parent == Parent(c0) && (c0.Down? ==> start.link.which == c0.d)
      ensures node == Near(c0, 1 - right)
    {
      ghost var m, c := Snap(elems), c0;
      var below := start;
      while true
        invariant below in elems && LinkedCtx(m, c, below, root) && Near(c, 1 - right) == Near(c0, 1 - right)
        invariant below.link.parent == Parent(c) && (c.Down? ==> below.link.which == c.d)
        decreases c
      {
        var wasChild := below.link.which;
        node := below.link.parent;
        if node == null {
          return;
        }
        NearUp(c, 1 - right);
        if wasChild == right {
          return;
        }
        below, c := node, c.up;
      }
    }

    /** The neighbour of `oldnode` on side `left`: the near end of its subtree there,
        or the first ancestor reached from the other side. */
    method Walk(oldnode: Entry, left: Side) returns (next: Entry?)
      requires Valid() && oldnode in elems
      ensures forall i :: 0 <= i < |Contents()| && Contents()[i] == oldnode ==> next == Beside(Contents(), i, left)
    {
      ghost var m := Snap(elems);
      ExactNodes(m, shape, root);
      ghost var c, t := Locate(shape, oldnode);
      OpenUp(m, c, t, root);
      var right := 1 - left;
      if oldnode.link.child.At(left) != null {
        next := FarDown(oldnode.link.child.At(left), right, Sub(t, left), oldnode, left);
      } else {
        next := UpFrom(oldnode, right, c);
      }
      assert next == NextTo(c, t, left);
      forall i | 0 <= i < |Contents()| && Contents()[i] == oldnode ensures next == Beside(Contents(), i, left) {
        NextToIsBeside(c, t, left, i);
      }
    }

    /** The element next to an insertion point, on side `direction`. */
    method Nearest(where: Index, direction: Side, ghost gap: Ctx) returns (near: Entry?)
      requires Valid() && Plug(gap, Leaf) == shape && where == Index(Parent(gap), SideOf(gap))
      ensures near == Near(gap, direction)
    {
      if where.node == null {
        return null;
      }
      NearUp(gap, direction);
      if where.child != direction {
        return where.node;
      }
      PlugNodes(gap, Leaf);
      ExactNodes(Snap(elems), shape, root);
      NearIsBeside(gap);
      near := Walk(where.node, direction);
      ghost var k := if direction == 1 then |Before(gap)| - 1 else |Before(gap)|;
      assert Contents()[k] == where.node;
    }

    /** Adds `node` at the place of its key; an equal key leaves the tree as it was. */
    method Add(node: Entry)
      requires Valid() && Sorted(Contents()) && node !in elems
      modifies this, elems`link, node`link
      ensures Valid() && Sorted(Contents())
      ensures (exists n :: n in old(elems) && n.index == node.index) ==>
        unchanged(this) && unchanged(old(elems)`link, node`link)
      ensures (forall n :: n in old(elems) ==> n.index != node.index) ==> elems == old(elems) + {node}
    {
      var found, where;
      ghost var gap, sub, steps;
      found, where, gap, sub, steps := Find(node.index);
      if found != null {
        return;
      }
      PlugInOrder(gap, Leaf);
      assert Before(gap) + InOrder(Leaf) + After(gap) == Before(gap) + After(gap);
      SortedInsert(Before(gap), node, After(gap));
      Insert(node, where, gap);
    }

    // ---------------------------------------------------------- destruction

    /** Down to the left from `start`, then to a lone right child if there is one. */
    method RazeTo(start: Entry, ghost c0: Ctx, ghost t0: Tree, ghost s: set<Entry>) returns (node: Entry, ghost c: Ctx)
      requires t0.Node? && start == t0.n && Facing(Snap(s), c0, t0, root)
      ensures Razing(Snap(CtxNodes(c)), c, node, root)
      ensures PostOrder(t0) + Pending(c0) == [node] + Pending(c)
      ensures node.link.parent == Parent(c) && (c.Down? ==> node.link.which == c.d)
    {
      hide PostOrder, Pending;
      ghost var t := t0;
      c, node := c0, start;
      RazeDown(Snap(s), c, t, root);
      while node.link.child.At(0) != null
        invariant t.Node? && node == t.n && Facing(Snap(s), c, t, root)
        invariant PostOrder(t0) + Pending(c0) == PostOrder(t) + Pending(c)
        decreases t
      {
        RazeDown(Snap(s), c, t, root);
        node := node.link.child.At(0);
        c, t := Down(c, 0, t.n, t.r), t.l;
      }
      RazeHere(Snap(s), c, t, root);
      if node.link.child.At(1) != null {
        RazeAside(Snap(s), c, t, root);
        node := node.link.child.At(1);
        c, t := Down(c, 1, t.n, Leaf), t.r;
      }
      RazeLeaf(Snap(s), Snap(CtxNodes(c)), c, node, root);
    }

    /** Hands out the next element of a post-order walk, forgetting the one before it. `last` is
        the element handed out last, `c` its place and `left` what is still to come. */
    method DestroyNodes(cookie: Cookie, ghost c: Ctx, ghost last: Entry?, ghost left: seq<Entry>)
      returns (node: Entry?, cookie': Cookie, ghost c': Ctx)
      requires cookie.Start? ==> Valid() && left == PostOrder(shape)
      requires !cookie.Start? ==> cookie == CookieOf(c) && Razing(Snap(CtxNodes(c)), c, last, root)
      requires !cookie.Start? ==> left == Pending(c)
      requires !cookie.Start? ==> if last == null then c.Top? && count == 0 else count == |left| + 1
      modifies this`root, this`count, left`link
      ensures left == [] ==> node == null && root == null && count == 0 && cookie' == Done
      ensures left != [] ==> node == left[0] && left[1..] == Pending(c') && cookie' == CookieOf(c')
      ensures left != [] ==> Razing(Snap(CtxNodes(c')), c', node, root) && count == |left|
    {
      if cookie.Start? {
        PostOrderMembers(shape);
        if root == null {
          return null, Done, Top;
        }
        assert Facing(Snap(elems), Top, shape, root);
        node, c' := RazeTo(root, Top, shape, elems);
        assert left == PostOrder(shape) + Pending(Top);
      } else if cookie.Done? {
        if root != null {
          root, count := null, 0;
        }
        return null, Done, Top;
      } else {
        var parent, child := cookie.parent, cookie.child;
        ghost var s := CtxNodes(c);
        ghost var m := Snap(s);
        PendingMembers(c);
        parent.link := parent.link.(child := parent.link.child.With(child, null));
        count := count - 1;
        if child == 1 || parent.link.child.At(1) == null {
          node, c' := parent, c.up;
          RazeUp(m, Snap(CtxNodes(c.up)), c, last, root);
        } else {
          RazeAcross(m, Snap(s), c, last, root);
          PendingAcross(c);
          node, c' := RazeTo(parent.link.child.At(1), Down(c.up, 1, c.n, Leaf), c.sib, s);
        }
      }
      assert left == [node] + Pending(c');
      cookie' := if node.link.parent == null then Done else Below(node.link.parent, node.link.which);
    }

    /** The whole walk: every element once, children before parents, and an empty tree at the end. */
    method DestroyAll() returns (handedOut: seq<Entry>)
      requires Valid()
      modifies this`root, this`count, elems`link
      ensures root == null && count == 0 && Elems(handedOut) == elems && NoRepeats(handedOut)
      ensures ChildrenFirst(old(Snap(elems)), handedOut)
    {
      PostOrderOnce(shape);
      PostOrderChildrenFirst(Snap(elems), shape, null, 0);
      PostOrderMembers(shape);
      handedOut := Harvest();
    }

    /** Hands out all elements in post-order. */
    method Harvest() returns (handedOut: seq<Entry>)
      requires Valid()
      modifies this`root, this`count, elems`link
      ensures handedOut == PostOrder(shape) && root == null && count == 0
    {
      handedOut := [];
      var cookie: Cookie := Start;
      var node: Entry? := null;
      ghost var c, all, left := Top, PostOrder(shape), PostOrder(shape);
      PostOrderInside(shape);
      ExactNodes(Snap(elems), shape, root);
      assert Nodes(shape) == elems;
      node, cookie, c := DestroyNodes(cookie, c, null, left);
      while node != null
        invariant handedOut + left == all && Inside(left, elems)
        invariant node != null ==> left != [] && node == left[0]
        invariant node != null ==> left[1..] == Pending(c) && cookie == CookieOf(c)
        invariant node != null ==> Razing(Snap(CtxNodes(c)), c, node, root) && count == |left|
        invariant node == null ==> left == [] && root == null && count == 0
        decreases |left|
      {
        var first: Entry := node;
        TakeFirst(handedOut, left, elems);
        handedOut, left := handedOut + [first], left[1..];
        node, cookie, c := DestroyNodes(cookie, c, first, left);
      }
    }
  }
}
