/** File set entries, kept by kind in three trees (free, existing, not existing), with
    circular selection of an entry that is not busy. */
module Fileset {
  import opened AvlShape
  import AvlClimb
  import opened AvlSwap
  import opened AvlSearch
  import opened AvlTree

  // ----------------------------------------------------------- circular order

  /** Selection from key `v` starts at position `i` of `s`: the lowest key not below `v`,
      or the lowest of all when every key is below. */
  ghost predicate StartsAt(s: seq<Entry>, v: int, i: nat) {
    i < |s| && ((v <= s[i].index && AllBelow(s[..i], v)) || (i == 0 && AllBelow(s, v)))
  }

  /** `s` in circular order from position `i`. */
  ghost function Circle(s: seq<Entry>, i: nat): (r: seq<Entry>)
    requires i <= |s|
    ensures |r| == |s| && (i < |s| ==> r[0] == s[i])
  {
    s[i..] + s[..i]
  }

  ghost function FirstIdle(r: seq<Entry>): Entry?
    reads r`busy
  {
    if r == [] then null else if !r[0].busy then r[0] else FirstIdle(r[1..])
  }

  lemma {:induction false} NoneIdle(r: seq<Entry>)
    ensures FirstIdle(r) == null <==> forall e :: e in r ==> e.busy
    ensures FirstIdle(r) != null ==> FirstIdle(r) in r && !FirstIdle(r).busy
  {
    if r != [] {
      NoneIdle(r[1..]);
      assert forall e :: e in r <==> e == r[0] || e in r[1..];
    }
  }

  lemma {:induction false} IdleIs(r: seq<Entry>, k: nat)
    requires k <= |r| && (forall j :: 0 <= j < k ==> r[j].busy) && (k < |r| ==> !r[k].busy)
    ensures FirstIdle(r) == if k < |r| then r[k] else null
  {
    if k > 0 {
      IdleIs(r[1..], k - 1);
    }
  }

  /** The circular successor is the in-order neighbour, or the first element past the end. */
  lemma CircleNext(s: seq<Entry>, i: nat, k: nat)
    requires i < |s| && k < |s|
    ensures var p := if i + k < |s| then i + k else i + k - |s|;
      && 0 <= p < |s| && Circle(s, i)[k] == s[p]
      && (if k + 1 < |s| then Circle(s, i)[k + 1] else Circle(s, i)[0])
         == (if Beside(s, p, 1) != null then Beside(s, p, 1) else s[0])
  {
  }

  lemma CircleOnce(s: seq<Entry>, i: nat)
    requires Sorted(s) && i <= |s|
    ensures NoRepeats(Circle(s, i))
  {
  }

  lemma SortedWithout(s': seq<Entry>, s: seq<Entry>, x: Entry)
    requires Sorted(s) && IsWithout(s', s, x)
    ensures Sorted(s')
  {
  }

  // ---------------------------------------------------------------- selecting

  /** The entry with key `index`, else the next higher one, else the lowest. */
  method FindEntry(t: Avl, index: int) returns (entry: Entry?, ghost i: nat)
    requires t.Valid() && Sorted(t.Contents())
    ensures entry == null <==> t.Contents() == []
    ensures entry != null ==> StartsAt(t.Contents(), index, i) && entry == t.Contents()[i]
  {
    var where;
    ghost var gap, sub, steps;
    entry, where, gap, sub, steps := t.Find(index);
    if entry != null {
      i := PositionOf(t.Contents(), t.shape, t.elems, t.root, entry);
      return;
    }
    PlugInOrder(gap, Leaf);
    assert t.Contents() == Before(gap) + After(gap);
    entry := t.Nearest(where, 1, gap);
    i := |Before(gap)|;
    if entry != null {
      assert t.Contents()[..i] == Before(gap);
      return;
    }
    assert After(gap) == [];
    assert t.Contents() == Before(gap);
    entry := t.End(0);
    i := 0;
  }

  lemma PositionOf(s: seq<Entry>, shape: Tree, elems: set<Entry>, root: Entry?, e: Entry) returns (i: nat)
    requires AvlClimb.Exact(Snap(elems), shape, root) && s == InOrder(shape) && e in elems && Sorted(s)
    ensures i < |s| && s[i] == e && AllBelow(s[..i], e.index)
  {
    AvlClimb.ExactNodes(Snap(elems), shape, root);
    InOrderMembers(shape);
    assert e in Elems(s);
    i :| i < |s| && s[i] == e;
  }

  /** The circular successor of `at`, element `k` of the circle from position `i`. */
  method Next(t: Avl, at: Entry, ghost i: nat, ghost k: nat) returns (next: Entry?)
    requires t.Valid() && i < |t.Contents()| && k < |t.Contents()| && at == Circle(t.Contents(), i)[k]
    ensures var r := Circle(t.Contents(), i); next == if k + 1 < |r| then r[k + 1] else r[0]
  {
    CircleNext(t.Contents(), i, k);
    InTree(t, at);
    next := t.Walk(at, 1);
    if next == null {
      next := t.End(0);
    }
  }

  /** From `start`, at position `i`, in circular order to the first entry that is not busy. */
  method SkipBusy(t: Avl, start: Entry, ghost i: nat) returns (entry: Entry?)
    requires t.Valid() && Sorted(t.Contents())
    requires i < |t.Contents()| && t.Contents()[i] == start
    ensures entry == FirstIdle(Circle(t.Contents(), i))
  {
    hide Avl.Valid, Sorted, FirstIdle;
    ghost var r, k := Circle(t.Contents(), i), 0;
    var at := start;
    CircleOnce(t.Contents(), i);
    while at.busy
      invariant k < |r| && at == r[k] && start == r[0]
      invariant forall j :: 0 <= j < k ==> r[j].busy
      decreases |r| - k
    {
      var next := Next(t, at, i, k);
      if next == null || next == start {
        IdleIs(r, |r|);
        return null;
      }
      at, k := next, k + 1;
    }
    IdleIs(r, k);
    return at;
  }

  /** The entry where a selection from `key` starts, and the first one from there that is not busy. */
  method Select(t: Avl, key: int) returns (first: Entry?, entry: Entry?, ghost i: nat)
    requires t.Valid() && Sorted(t.Contents())
    ensures first == null <==> t.Contents() == []
    ensures first != null ==> StartsAt(t.Contents(), key, i) && first == t.Contents()[i]
    ensures entry == null <==> forall e :: e in t.elems ==> e.busy
    ensures entry != null ==>
      first != null && entry == FirstIdle(Circle(t.Contents(), i)) && entry in t.elems && !entry.busy
  {
    first, i := FindEntry(t, key);
    if first == null {
      NoElements(t);
      return null, null, i;
    }
    entry := SkipBusy(t, first, i);
    CircleIdle(t, i);
  }

  lemma InTree(t: Avl, e: Entry)
    requires t.Valid() && e in t.Contents()
    ensures e in t.elems
  {
    AvlClimb.ExactNodes(Snap(t.elems), t.shape, t.root);
    InOrderMembers(t.shape);
    assert e in Elems(t.Contents());
  }

  /** Moves `entry` between two trees; it is never refused as a duplicate. */
  method Move(src: Avl, dst: Avl, entry: Entry)
    requires src != dst && src.Valid() && dst.Valid() && src.elems !! dst.elems && entry in src.elems
    requires Sorted(src.Contents()) && Sorted(dst.Contents())
    requires forall n :: n in dst.elems ==> n.index != entry.index
    modifies src, dst, src.elems`link, dst.elems`link
    ensures src.Valid() && dst.Valid() && Sorted(src.Contents()) && Sorted(dst.Contents())
    ensures src.elems == old(src.elems) - {entry} && dst.elems == old(dst.elems) + {entry}
  {
    src.Remove(entry);
    SortedWithout(src.Contents(), old(src.Contents()), entry);
    dst.Add(entry);
  }

  // ------------------------------------------------------------------ a shelf

  /** What became of a request: nothing to select, all busy so that the caller must wait, or an entry. */
  datatype Outcome = Empty | Wait | Picked(entry: Entry)

  /** A release by another thread. */
  datatype Release = Release(entry: Entry, updateExist: bool, newExist: bool, openIncr: int)

  /** The entries of one kind, files or leaf directories. */
  class Shelf {
    const free: Avl
    const exist: Avl
    const noex: Avl
    var idle: nat
    var neRotor: int
    var exRotor: seq<int>
    ghost var members: set<Entry>

    /** The tree that the flags of `e` name. */
    ghost function Home(e: Entry): Avl
      reads e`free, e`present
    {
      if e.free then free else if e.present then exist else noex
    }

    /** The three trees are sorted, share nothing and hold all entries. */
    ghost predicate Sound()
      reads this`members, free, exist, noex, members`link
    {
      && free != exist && free != noex && exist != noex
      && free.elems + exist.elems + noex.elems == members
      && free.elems !! exist.elems && free.elems !! noex.elems && exist.elems !! noex.elems
      && free.Valid() && exist.Valid() && noex.Valid()
      && Sorted(free.Contents()) && Sorted(exist.Contents()) && Sorted(noex.Contents())
    }

    /** Each entry is in the one tree its flags name, and keys are unique. */
    ghost predicate Placed()
      reads this`members, free`elems, exist`elems, noex`elems, members`free, members`present
    {
      && (forall e :: e in members ==> e in Home(e).elems)
      && (forall a, b :: a in members && b in members && a.index == b.index ==> a == b)
    }

    /** `idle` counts the entries that are not busy. */
    ghost predicate Valid()
      reads this, free, exist, noex, members
    {
      Sound() && Placed() && idle == |Idle(members)|
    }

    constructor (tids: nat)
      ensures Filling() && members == {} && idle == 0 && |exRotor| == tids
      ensures fresh(Repr())
    {
      hide Avl.Valid, Filling;
      free := new Avl();
      exist := new Avl();
      noex := new Avl();
      idle, neRotor, exRotor, members := 0, 0, seq(tids, i => 0), {};
      new;
      EmptyFilling();
      assert Repr() == {this, free, exist, noex};
    }

    lemma EmptyFilling()
      requires free != exist && free != noex && exist != noex && members == {} && idle == 0
      requires forall t :: t in {free, exist, noex} ==> t.Valid() && t.elems == {} && t.Contents() == []
      ensures Filling()
    {
      hide Avl.Valid;
    }

    ghost function Repr(): set<object>
      reads this
    {
      {this, free, exist, noex} + members
    }

    /** While the set is being populated: nothing is busy, and the keys are 0, 1, and so on. */
    ghost predicate Filling()
      reads this, free, exist, noex, members
    {
      Valid() && Idle(members) == members && Numbered(members, idle)
    }

    lemma Counted()
      requires Filling()
      ensures |members| == idle
    {
    }

    lemma Indices(e: Entry)
      requires Filling() && e in members
      ensures 0 <= e.index < idle
    {
      hide Sound, Placed;
      assert e.index in Keys(members);
    }

    /** Puts a new entry in the tree its flags name. */
    method Place(entry: Entry)
      requires Sound() && Placed() && entry !in members && entry.index !in Keys(members)
      requires entry.free || entry.present
      modifies this`members, free, exist, noex, members`link, entry`link
      ensures Sound() && Placed() && members == old(members) + {entry}
      ensures entry in (if entry.free then free else exist).elems
    {
      hide Avl.Valid, Sorted;
      assert forall e :: e in members ==> e.index in Keys(members);
      members := members + {entry};
      if entry.free {
        free.Add(entry);
      } else {
        exist.Add(entry);
      }
    }

    /** Makes a new entry with the next key: a free one, or one that exists from the start. */
    method Enrol(kind: Kind, isFree: bool, parent: Entry?, serial: nat, ghost wave: Wave) returns (entry: Entry)
      requires Filling()
      modifies this`idle, this`members, free, exist, noex, members`link
      ensures Filling() && idle == old(idle) + 1
      ensures fresh(entry) && members == old(members) + {entry} && entry.index == old(idle)
      ensures entry.kind == kind && entry.free == isFree && entry.present == !isFree
      ensures entry.parent == parent && entry.serial == serial && entry.wave == wave
      ensures entry in (if isFree then free else exist).elems
      ensures old(Stocked(members, kind, isFree)) ==> Stocked(members, kind, isFree)
    {
      hide Filling, Sound, Placed, Idle, Numbered, Keys, Stocked;
      FillingFacts();
      ghost var before := members;
      entry := new Entry(idle, kind, isFree, !isFree, parent, serial, wave);
      Place(entry);
      idle := idle + 1;
      GrownFilling(before, entry);
      if Stocked(before, kind, isFree) {
        StockedPlus(before, entry, kind, isFree);
      }
    }

    lemma FillingFacts()
      requires Filling()
      ensures Sound() && Placed() && (forall e :: e in members ==> !e.busy)
      ensures |members| == idle && Numbered(members, idle) && idle !in Keys(members)
    {
      hide Sound, Placed;
    }

    lemma GrownFilling(before: set<Entry>, entry: Entry)
      requires Sound() && Placed() && members == before + {entry} && entry !in before
      requires forall e :: e in members ==> !e.busy
      requires idle == |before| + 1 && Numbered(before, idle - 1) && entry.index == idle - 1
      ensures Filling()
    {
      hide Sound, Placed, Numbered;
      KeysGrow(before, entry, idle - 1);
      assert Idle(members) == members;
    }

    lemma SoundTrees()
      requires Sound()
      ensures free.Valid() && exist.Valid() && noex.Valid()
      ensures Sorted(free.Contents()) && Sorted(exist.Contents()) && Sorted(noex.Contents())
      ensures free.elems + exist.elems + noex.elems == members
      ensures free.count + exist.count + noex.count == 0 <==> members == {}
    {
      NoElements(free);
      NoElements(exist);
      NoElements(noex);
    }

    /** Gives `entry` new flags and moves it to the tree they name. */
    method Shift(entry: Entry, src: Avl, dst: Avl, f: bool, p: bool)
      requires Valid() && entry in members
      requires src == Home(entry) && dst == (if f then free else if p then exist else noex) && src != dst
      modifies entry`free, entry`present, free, exist, noex, members`link
      ensures Valid() && entry.free == f && entry.present == p
      ensures forall t :: t in {free, exist, noex} ==>
        t.elems ==
          if t == src then old(t.elems) - {entry} else if t == dst then old(t.elems) + {entry} else old(t.elems)
    {
      hide Avl.Valid, Sorted, Idle;
      entry.free, entry.present := f, p;
      Move(src, dst, entry);
      assert Sound();
    }

    /** Sets or clears the busy flag and counts. */
    method SetBusy(entry: Entry, busy: bool)
      requires Valid() && entry in members && entry.busy != busy
      modifies this`idle, entry`busy
      ensures Valid() && entry.busy == busy && idle == old(idle) + if busy then -1 else 1
    {
      hide Sound, Placed, Idle;
      FlipBusy(entry, busy);
      idle := if busy then idle - 1 else idle + 1;
    }

    method FlipBusy(entry: Entry, busy: bool)
      requires entry in members && entry.busy != busy
      modifies entry`busy
      ensures entry.busy == busy && |Idle(members)| == old(|Idle(members)|) + if busy then -1 else 1
    {
      ghost var before := Idle(members);
      entry.busy := busy;
      ghost var after := Idle(members);
      if busy {
        assert before == after + {entry};
        OneMore(after, entry);
      } else {
        assert after == before + {entry};
        OneMore(before, entry);
      }
    }

    /** Records that `entry` now exists, or does not. */
    method Record(entry: Entry, newExist: bool)
      requires Valid() && entry in members
      modifies entry`free, entry`present, free, exist, noex, members`link
      ensures Valid() && !entry.free && entry.present == newExist
    {
      hide Placed, Idle, Avl.Valid, Sorted;
      if newExist {
        if entry.free {
          Shift(entry, free, exist, false, true);
        } else if !entry.present {
          Shift(entry, noex, exist, false, true);
        }
      } else {
        if entry.free {
          Shift(entry, free, noex, false, false);
        } else if entry.present {
          Shift(entry, exist, noex, false, false);
        }
      }
    }

    /** Releases `entry`, first recording that it now exists, or does not, if asked to. Threads that wait
        for this entry are all woken, and so is one of those that wait for any entry. */
    method Unbusy(entry: Entry, updateExist: bool, newExist: bool, openIncr: int)
      returns (broadcast: bool, signal: bool)
      requires Valid() && entry in members
      modifies this`idle, free, exist, noex, members`link, entry
      ensures Valid() && !entry.busy && entry.openCount == old(entry.openCount) + openIncr
      ensures updateExist ==> !entry.free && entry.present == newExist
      ensures !updateExist ==> entry.free == old(entry.free) && entry.present == old(entry.present)
      ensures idle == old(idle) + if old(entry.busy) then 1 else 0
      ensures signal == old(entry.busy) && broadcast == old(entry.busy && entry.waiting)
      ensures entry.waiting == old(!entry.busy && entry.waiting)
    {
      hide Sound, Placed, Idle;
      broadcast, signal := false, false;
      if updateExist {
        Record(entry, newExist);
      }
      entry.openCount := entry.openCount + openIncr;
      if entry.busy {
        SetBusy(entry, false);
        if entry.waiting {
          entry.waiting := false;
          broadcast := true;
        }
        signal := idle >= 1;
      }
    }

    /** Selects an entry and marks it busy. `key` is where the circular selection starts. */
    method Pick(unique: bool, noExist: bool, byIndex: bool, index: int, random: int, tid: nat)
      returns (r: Outcome, ghost t: Avl, ghost key: int, ghost i: nat)
      requires Valid() && tid < |exRotor|
      modifies this`idle, this`neRotor, this`exRotor, members`busy
      ensures Valid() && |exRotor| == |old(exRotor)|
      ensures t == if unique then free else if noExist then noex else exist
      ensures key == if unique then (if index != 0 then index else random) else if byIndex then index
                     else if noExist then old(neRotor) else old(exRotor)[tid]
      ensures r.Empty? <==> members == {} || (old(idle) > 0 && forall e :: e in t.elems ==> old(e.busy))
      ensures r.Wait? <==> members != {} && old(idle) == 0
      ensures r.Picked? ==>
        && StartsAt(t.Contents(), key, i) && r.entry == old(FirstIdle(Circle(t.Contents(), i)))
        && r.entry in t.elems && r.entry.busy && !old(r.entry.busy) && idle == old(idle) - 1
      ensures !r.Picked? ==> idle == old(idle)
      ensures var turn := !unique && !byIndex && members != {} && old(idle) > 0 && t.Contents() != [];
        && (turn ==> StartsAt(t.Contents(), key, i))
        && neRotor == (if turn && noExist then t.Contents()[i].index + 1 else old(neRotor))
        && exRotor == (if turn && !noExist then old(exRotor)[tid := t.Contents()[i].index + 1] else old(exRotor))
      ensures forall e :: e in members && (r.Picked? ==> e != r.entry) ==> e.busy == old(e.busy)
    {
      hide Sound, Placed, Avl.Valid, Sorted, Circle, StartsAt, FirstIdle, Idle;
      var tree := if unique then free else if noExist then noex else exist;
      var start := if unique then (if index != 0 then index else random) else if byIndex then index
                   else if noExist then neRotor else exRotor[tid];
      t, key, i := tree, start, 0;
      SoundTrees();
      if free.count + exist.count + noex.count == 0 {
        return Empty, t, key, i;
      }
      if idle == 0 {
        return Wait, t, key, i;
      }
      var first, entry;
      first, entry, i := Select(tree, start);
      assert entry != null ==> entry == old(FirstIdle(Circle(tree.Contents(), i)));
      if first != null && !unique && !byIndex {
        if noExist {
          neRotor := first.index + 1;
        } else {
          exRotor := exRotor[tid := first.index + 1];
        }
      }
      if entry == null {
        return Empty, t, key, i;
      }
      SetBusy(entry, true);
      return Picked(entry), t, key, i;
    }

    /** A thread will be woken: it has to wait, and an entry is released. */
    ghost predicate Woken(releases: seq<Release>)
      reads this
    {
      members != {} && idle == 0 && releases != []
    }

    /** The entry is as a release leaves it, but for the busy flag. */
    twostate predicate Released(x: Release)
      reads x.entry
    {
      && x.entry.openCount == old(x.entry.openCount) + x.openIncr && !x.entry.waiting
      && (if x.updateExist then !x.entry.free && x.entry.present == x.newExist
          else x.entry.free == old(x.entry.free) && x.entry.present == old(x.entry.present))
    }

    /** The entry has the flags it had, but for the busy one. */
    twostate predicate SameFlags(e: Entry)
      reads e
    {
      && e.free == old(e.free) && e.present == old(e.present)
      && e.waiting == old(e.waiting) && e.openCount == old(e.openCount)
    }

    /** Waits while no entry is idle, and what other threads release meanwhile. The first release ends the wait. */
    method Await(releases: seq<Release>)
      requires Valid() && forall x :: x in releases ==> x.entry in members
      modifies this`idle, free, exist, noex, members
      ensures Valid()
      ensures old(Woken(releases)) ==> idle == 1 && !releases[0].entry.busy && Released(releases[0])
      ensures old(Woken(releases)) ==>
        forall e :: e in members && e != releases[0].entry ==> e.busy && old(e.busy) && SameFlags(e)
      ensures !old(Woken(releases)) ==> unchanged(this, free, exist, noex, members)
    {
      hide Sound, Placed, Avl.Valid;
      SoundTrees();
      var k := 0;
      while free.count + exist.count + noex.count > 0 && idle == 0 && k < |releases|
        invariant Valid() && k <= 1 && (members == {} <==> free.count + exist.count + noex.count == 0)
        invariant k == 0 ==> unchanged(this, free, exist, noex, members)
        invariant k == 1 ==> old(Woken(releases)) && idle == 1 && !releases[0].entry.busy && Released(releases[0])
        invariant k == 1 ==>
          forall e :: e in members && e != releases[0].entry ==> e.busy && old(e.busy) && SameFlags(e)
        decreases |releases| - k
      {
        var x := releases[k];
        NoneLeft();
        var _, _ := Unbusy(x.entry, x.updateExist, x.newExist, x.openIncr);
        SoundTrees();
        k := k + 1;
      }
    }

    /** Selection by a thread that waits if need be. If it has waited, the entry released is the only one it can
        get. */
    method PickWaiting(unique: bool, noExist: bool, byIndex: bool, index: int, random: int, tid: nat,
                       releases: seq<Release>)
      returns (r: Outcome, ghost t: Avl, ghost key: int, ghost i: nat)
      requires Valid() && tid < |exRotor| && forall x :: x in releases ==> x.entry in members
      modifies this`idle, this`neRotor, this`exRotor, free, exist, noex, members
      ensures Valid() && t == if unique then free else if noExist then noex else exist
      ensures key == if unique then (if index != 0 then index else random) else if byIndex then index
                     else if noExist then old(neRotor) else old(exRotor)[tid]
      ensures r.Wait? <==> members != {} && old(idle) == 0 && releases == []
      ensures old(Woken(releases)) ==>
        var x := releases[0]; Released(x) && r == (if x.entry in t.elems then Picked(x.entry) else Empty)
      ensures !old(Woken(releases)) ==> unchanged(free, exist, noex)
      ensures !old(Woken(releases)) ==>
        (r.Empty? <==> members == {} || (old(idle) > 0 && forall e :: e in t.elems ==> old(e.busy)))
      ensures r.Picked? ==> StartsAt(t.Contents(), key, i) && r.entry in t.elems && r.entry.busy
      ensures !old(Woken(releases)) && r.Picked? ==>
        i < |old(t.Contents())| && r.entry == old(FirstIdle(Circle(t.Contents(), i)))
      ensures idle == old(idle) + (if old(Woken(releases)) then 1 else 0) - if r.Picked? then 1 else 0
      ensures var turn := !unique && !byIndex && members != {} && !r.Wait? && t.Contents() != [];
        && (turn ==> StartsAt(t.Contents(), key, i))
        && neRotor == (if turn && noExist then t.Contents()[i].index + 1 else old(neRotor))
        && exRotor == (if turn && !noExist then old(exRotor)[tid := t.Contents()[i].index + 1] else old(exRotor))
      ensures forall e :: e in members && (old(Woken(releases)) ==> e != releases[0].entry) ==>
        SameFlags(e) && (r == Picked(e) || e.busy == old(e.busy))
      ensures old(Woken(releases)) ==> releases[0].entry.busy == r.Picked?
    {
      hide Sound, Placed, Avl.Valid, Circle, Sorted;
      Await(releases);
      t := if unique then free else if noExist then noex else exist;
      if !old(Woken(releases)) {
        forall j | 0 <= j < |t.Contents()|
          ensures FirstIdle(Circle(t.Contents(), j)) == old(FirstIdle(Circle(t.Contents(), j)))
        {
          CircleMembers(t, j);
          SameIdle(Circle(t.Contents(), j));
        }
      }
      r, t, key, i := Pick(unique, noExist, byIndex, index, random, tid);
    }

    lemma CircleMembers(t: Avl, i: nat)
      requires Sound() && t in {free, exist, noex} && i <= |t.Contents()|
      ensures forall e :: e in Circle(t.Contents(), i) ==> e in members
    {
      forall e | e in Circle(t.Contents(), i) ensures e in members {
        InTree(t, e);
      }
    }

    lemma NoneLeft()
      requires Valid() && idle == 0
      ensures forall e :: e in members ==> e.busy
    {
      assert forall e :: e in members ==> e.busy || e in Idle(members);
    }
  }

  twostate lemma SameIdle(r: seq<Entry>)
    requires forall e :: e in r ==> e.busy == old(e.busy)
    ensures FirstIdle(r) == old(FirstIdle(r))
  {
  }

  lemma NoElements(t: Avl)
    requires t.Valid()
    ensures t.count == 0 <==> t.elems == {}
    ensures t.count == 0 <==> t.Contents() == []
  {
    AvlClimb.ExactNodes(Snap(t.elems), t.shape, t.root);
    InOrderMembers(t.shape);
    if t.count != 0 {
      assert t.Contents()[0] in Elems(t.Contents());
    }
  }

  /** Nothing in the circle is idle exactly when all of the tree is busy. */
  lemma CircleIdle(t: Avl, i: nat)
    requires t.Valid() && i <= |t.Contents()|
    ensures FirstIdle(Circle(t.Contents(), i)) == null <==> forall e :: e in t.elems ==> e.busy
    ensures var e := FirstIdle(Circle(t.Contents(), i)); e != null ==> e in t.elems && !e.busy
  {
    var s := t.Contents();
    AvlClimb.ExactNodes(Snap(t.elems), t.shape, t.root);
    InOrderMembers(t.shape);
    NoneIdle(Circle(s, i));
    assert Elems(Circle(s, i)) == Elems(s) by {
      assert s == s[..i] + s[i..];
    }
    assert forall e :: e in Circle(s, i) <==> e in Elems(Circle(s, i));
  }

  ghost function Idle(s: set<Entry>): set<Entry>
    reads s`busy
  {
    set e | e in s && !e.busy
  }

  lemma OneMore(s: set<Entry>, e: Entry)
    requires e !in s
    ensures |s + {e}| == |s| + 1
  {
  }

  /** Every entry is of one kind and has the flags it was made with. */
  ghost predicate Stocked(s: set<Entry>, kind: Kind, isFree: bool)
    reads s`free, s`present
  {
    forall e :: e in s ==> e.kind == kind && e.free == isFree && e.present == !isFree
  }

  lemma StockedPlus(s: set<Entry>, e: Entry, kind: Kind, isFree: bool)
    requires Stocked(s, kind, isFree) && e.kind == kind && e.free == isFree && e.present == !isFree
    ensures Stocked(s + {e}, kind, isFree)
  {
  }

  ghost function Keys(s: set<Entry>): set<int> {
    set e | e in s :: e.index
  }

  ghost predicate Numbered(s: set<Entry>, n: nat) {
    forall k :: k in Keys(s) <==> 0 <= k < n
  }

  lemma KeysGrow(s: set<Entry>, e: Entry, n: nat)
    requires Numbered(s, n) && e.index == n
    ensures Numbered(s + {e}, n + 1)
  {
    assert Keys(s + {e}) == Keys(s) + {n} by {
      assert e in s + {e};
      assert forall x :: x in s ==> x in s + {e};
    }
  }
}
