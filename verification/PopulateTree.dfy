/** The shape of a populated file set: which entries are in which directories. */
module PopulateTree {
  import opened AvlShape
  import opened Common

  /** What is drawn for the `k`th directory and for the `k`th file made, and the machine's sum of a width and one. */
  datatype Draws = Draws(depthOf: nat -> int, widthOf: nat -> real, sizeOf: nat -> nat, plusOne: real -> real)

  function DrawnWidth(draws: Draws, k: nat): real {
    if draws.widthOf(k) == 0.0 then 1.0 else draws.widthOf(k)
  }

  /** The numbers of entries in the `k`th directory are below this. */
  function RoomIn(draws: Draws, k: nat): real {
    draws.plusOne(DrawnWidth(draws, k))
  }

  /** The depth of a directory, one for the root. */
  ghost function Level(d: Entry): nat
    decreases Max(0, d.index)
  {
    if d.parent == null || !(0 <= d.parent.index < d.index) then 1 else Level(d.parent) + 1
  }

  /** Entry `e` is where it should be: a directory in the root or in one above its drawn depth, and anything else in one
      at its drawn depth or below, but not in the root; and within the width, but for the root. */
  ghost predicate InPlace(e: Entry, all: set<Entry>, draws: Draws) {
    if e.parent == null then e.kind == Dir && e.index == 0 else
      && e.parent in all && e.parent.kind == Dir && e.parent.index >= 0 && e.serial >= 1
      && (e.parent.parent != null ==> e.serial as real < RoomIn(draws, e.parent.index))
      && (e.kind == Dir ==>
            e.parent.index < e.index && (e.parent.parent == null || Level(e.parent) < draws.depthOf(e.parent.index)))
      && (e.kind != Dir ==> e.parent.parent != null && Level(e.parent) >= draws.depthOf(e.parent.index))
      && (e.kind != Dir ==> e.wave == if e.kind == File then ForFiles else ForLeafDirs)
  }

  /** The same place: both are the root, or the same number in one directory, made for the same. */
  ghost predicate SamePlace(a: Entry, b: Entry) {
    a.parent == b.parent && (a.parent == null || (a.wave == b.wave && a.serial == b.serial))
  }

  ghost function SerialSet(all: set<Entry>, d: Entry, w: Wave): set<nat> {
    set e | e in all && e.parent == d && e.wave == w :: e.serial
  }

  /** A tree of directories with one root: every entry is where it should be, no two have the same place, and those in a
      directory that were made for the same are numbered without a gap. */
  ghost predicate Shaped(all: set<Entry>, draws: Draws) {
    && (forall e :: e in all ==> InPlace(e, all, draws))
    && (forall a, b :: a in all && b in all && SamePlace(a, b) ==> a == b)
    && (forall e :: e in all && e.parent != null && e.serial > 1 ==> e.serial - 1 in SerialSet(all, e.parent, e.wave))
  }

  /** The entries in `d` made for `w` have the numbers up to `n`. */
  ghost predicate Serials(all: set<Entry>, d: Entry, w: Wave, n: nat) {
    forall k :: k in SerialSet(all, d, w) <==> 1 <= k <= n
  }

  /** The directory `n` levels up, if there is one. */
  ghost function Up(d: Entry, n: nat): Entry? {
    if n == 0 then d else if d.parent == null then null else Up(d.parent, n - 1)
  }

  /** A directory at depth `n` is `n - 1` levels below the one root. */
  lemma {:induction false} Rooted(all: set<Entry>, draws: Draws, d: Entry, root: Entry)
    requires Shaped(all, draws) && d in all && d.kind == Dir && root in all && root.parent == null
    ensures Level(d) >= 1 && Up(d, Level(d) - 1) == root
    decreases Max(0, d.index)
  {
    assert InPlace(d, all, draws);
    if d.parent == null {
      assert SamePlace(d, root);
    } else {
      Rooted(all, draws, d.parent, root);
    }
  }

  lemma {:induction false} FirstThere(all: set<Entry>, draws: Draws, e: Entry)
    requires Shaped(all, draws) && e in all && e.parent != null
    ensures 1 in SerialSet(all, e.parent, e.wave)
    decreases e.serial
  {
    assert InPlace(e, all, draws) && e.serial in SerialSet(all, e.parent, e.wave);
    if e.serial > 1 {
      var b :| b in all && b.parent == e.parent && b.wave == e.wave && b.serial == e.serial - 1;
      FirstThere(all, draws, b);
    }
  }

  /** An entry is named by its number alone: the names in a directory differ unless it holds entries made for both. */
  lemma NamesApart(all: set<Entry>, draws: Draws, d: Entry)
    requires Shaped(all, draws)
    ensures (forall a, b :: a in all && b in all && a.parent == d && b.parent == d && a.serial == b.serial ==> a == b)
      <==> SerialSet(all, d, ForFiles) == {} || SerialSet(all, d, ForLeafDirs) == {}
  {
    if SerialSet(all, d, ForFiles) == {} || SerialSet(all, d, ForLeafDirs) == {} {
      forall a, b | a in all && b in all && a.parent == d && b.parent == d && a.serial == b.serial ensures a == b {
        assert a.serial in SerialSet(all, d, a.wave) && b.serial in SerialSet(all, d, b.wave);
        assert SamePlace(a, b);
      }
    } else {
      var a :| a in all && a.parent == d && a.wave == ForFiles;
      var b :| b in all && b.parent == d && b.wave == ForLeafDirs;
      FirstThere(all, draws, a);
      FirstThere(all, draws, b);
      var a' :| a' in all && a'.parent == d && a'.wave == ForFiles && a'.serial == 1;
      var b' :| b' in all && b'.parent == d && b'.wave == ForLeafDirs && b'.serial == 1;
      assert a' != b';
    }
  }

  /** Directory `d`, at depth `above + 1`. */
  ghost predicate Hosts(all: set<Entry>, d: Entry, above: nat) {
    d in all && d.kind == Dir && d.index >= 0 && Level(d) == above + 1
  }

  /** The new entries are `top` and others in new directories. */
  ghost predicate Under(before: set<Entry>, after: set<Entry>, top: Entry) {
    && before <= after && top in after && top !in before
    && forall e :: e in after && e !in before && e != top ==> e.parent != null && e.parent !in before
  }

  /** The new entries are in `d`, made for `w`, and others in new directories. */
  ghost predicate Inside(before: set<Entry>, after: set<Entry>, d: Entry, w: Wave) {
    && before <= after
    && forall e :: e in after && e !in before ==>
         e.parent != null && ((e.parent == d && e.wave == w) || e.parent !in before)
  }

  /** The new entries are in `d`, and others in new directories. */
  ghost predicate NewIn(before: set<Entry>, after: set<Entry>, d: Entry) {
    && before <= after
    && forall e :: e in after && e !in before ==> e.parent != null && (e.parent == d || e.parent !in before)
  }

  /** Entry number `serial` made for `w` comes next in `d`, and the width allows it. */
  ghost predicate Takes(all: set<Entry>, draws: Draws, d: Entry, above: nat, isLeaf: bool, w: Wave, serial: nat) {
    && d.index >= 0 && Hosts(all, d, above) && (isLeaf <==> above + 1 >= draws.depthOf(d.index))
    && serial >= 1 && Serials(all, d, w, serial - 1)
    && (d.parent != null ==> serial as real < RoomIn(draws, d.index))
  }

  /** A directory comes next: the root, or one in a directory that takes directories. */
  ghost predicate TakesDir(all: set<Entry>, draws: Draws, parent: Entry?, above: nat, w: Wave, serial: nat) {
    if parent == null then all == {} && above == 0 else
      && above > 0 && parent.index >= 0 && (parent.parent == null || above < draws.depthOf(parent.index))
      && Takes(all, draws, parent, above - 1, above >= draws.depthOf(parent.index), w, serial)
  }

  lemma NoEntries(draws: Draws)
    ensures Shaped({}, draws) && TakesDir({}, draws, null, 0, ForFiles, 1)
  {
  }

  lemma SerialsMore(all: set<Entry>, e: Entry, d: Entry, w: Wave, k: nat)
    requires k in SerialSet(all, d, w)
    ensures k in SerialSet(all + {e}, d, w)
  {
    var x :| x in all && x.parent == d && x.wave == w && x.serial == k;
    assert x in all + {e};
  }

  lemma AddOne(all: set<Entry>, draws: Draws, e: Entry)
    requires Shaped(all, draws) && e !in all && InPlace(e, all + {e}, draws)
    requires e.parent == null ==> all == {}
    requires e.parent != null ==> e.serial >= 1 && Serials(all, e.parent, e.wave, e.serial - 1)
    ensures Shaped(all + {e}, draws)
  {
    hide Level, RoomIn, SerialSet;
    forall x | x in all ensures InPlace(x, all + {e}, draws) {
      assert InPlace(x, all, draws);
    }
    if e.parent != null {
      forall a | a in all ensures !SamePlace(a, e) {
        Unused(all, a, e);
      }
    }
    forall x | x in all + {e} && x.parent != null && x.serial > 1
      ensures x.serial - 1 in SerialSet(all + {e}, x.parent, x.wave)
    {
      SerialsMore(all, e, x.parent, x.wave, x.serial - 1);
    }
  }

  lemma Unused(all: set<Entry>, a: Entry, e: Entry)
    requires a in all && e.parent != null && e.serial >= 1 && Serials(all, e.parent, e.wave, e.serial - 1)
    ensures !SamePlace(a, e)
  {
    assert a.parent == e.parent && a.wave == e.wave ==> a.serial in SerialSet(all, e.parent, e.wave);
  }

  lemma TakesBelow(all: set<Entry>, draws: Draws, d: Entry, above: nat, isLeaf: bool, w: Wave, serial: nat)
    requires Takes(all, draws, d, above, isLeaf, w, serial) && (d.parent == null || !isLeaf)
    ensures TakesDir(all, draws, d, above + 1, w, serial)
  {
    hide Hosts, Serials, RoomIn;
  }

  /** A file or leaf directory is added. */
  lemma AddLeaf(all: set<Entry>, draws: Draws, d: Entry, above: nat, w: Wave, e: Entry)
    requires Shaped(all, draws) && d.parent != null && Takes(all, draws, d, above, true, w, e.serial)
    requires e !in all && e.kind != Dir && e.parent == d && e.wave == w
    requires w == if e.kind == File then ForFiles else ForLeafDirs
    ensures Shaped(all + {e}, draws) && Under(all, all + {e}, e)
  {
    hide Shaped, Serials, RoomIn, Level;
    AddOne(all, draws, e);
  }

  /** A directory is added, with nothing in it. */
  lemma AddDir(all: set<Entry>, draws: Draws, parent: Entry?, above: nat, w: Wave, e: Entry)
    requires Shaped(all, draws) && TakesDir(all, draws, parent, above, w, e.serial)
    requires e !in all && e.kind == Dir && e.parent == parent && e.wave == w
    requires if parent == null then e.index == 0 else 0 <= parent.index < e.index
    ensures Shaped(all + {e}, draws) && Hosts(all + {e}, e, above)
    ensures Serials(all + {e}, e, ForFiles, 0) && Serials(all + {e}, e, ForLeafDirs, 0)
  {
    hide Shaped, Serials, RoomIn;
    AddOne(all, draws, e);
    NothingIn(all, draws, e);
  }

  lemma NothingIn(all: set<Entry>, draws: Draws, e: Entry)
    requires Shaped(all, draws) && e !in all && e.parent != e
    ensures Serials(all + {e}, e, ForFiles, 0) && Serials(all + {e}, e, ForLeafDirs, 0)
  {
    forall x | x in all + {e} ensures x.parent != e {
      assert x in all ==> InPlace(x, all, draws);
    }
    assert SerialSet(all + {e}, e, ForFiles) == {} && SerialSet(all + {e}, e, ForLeafDirs) == {};
  }

  lemma InsideNone(all: set<Entry>, d: Entry, w: Wave)
    ensures Inside(all, all, d, w)
  {
  }

  /** One more entry in `d`, and what is below it. */
  lemma NextChild(all: set<Entry>, before: set<Entry>, after: set<Entry>, d: Entry, above: nat, w: Wave, top: Entry)
    requires Inside(all, before, d, w) && Hosts(all, d, above) && Under(before, after, top)
    requires top.parent == d && top.wave == w && top.serial >= 1 && Serials(before, d, w, top.serial - 1)
    ensures Inside(all, after, d, w) && Serials(after, d, w, top.serial) && Hosts(after, d, above)
  {
    hide Level;
    var s, s' := SerialSet(before, d, w), SerialSet(after, d, w);
    assert s' == s + {top.serial} by {
      assert top.serial in s';
      forall k | k in s ensures k in s' {
        var e :| e in before && e.parent == d && e.wave == w && e.serial == k;
        assert e in after;
      }
      forall k | k in s' ensures k in s || k == top.serial {
        var e :| e in after && e.parent == d && e.wave == w && e.serial == k;
        assert e in before || e == top;
      }
    }
  }

  lemma TakesNext(all: set<Entry>, before: set<Entry>, after: set<Entry>, draws: Draws, d: Entry, above: nat,
                  isLeaf: bool, w: Wave, top: Entry)
    requires Inside(all, before, d, w) && Hosts(all, d, above) && Under(before, after, top)
    requires top.parent == d && top.wave == w && Takes(before, draws, d, above, isLeaf, w, top.serial)
    ensures Inside(all, after, d, w) && Serials(after, d, w, top.serial) && Hosts(after, d, above)
  {
    hide Inside, Under, Hosts, Serials, RoomIn;
    NextChild(all, before, after, d, above, w, top);
  }

  /** What was made for one leaves the numbers for the other as they were. */
  lemma OtherWave(before: set<Entry>, after: set<Entry>, d: Entry, w: Wave, w': Wave, n: nat)
    requires Inside(before, after, d, w) && d in before && w' != w && Serials(before, d, w', n)
    ensures Serials(after, d, w', n)
  {
    assert SerialSet(after, d, w') == SerialSet(before, d, w') by {
      forall k | k in SerialSet(after, d, w') ensures k in SerialSet(before, d, w') {
        var e :| e in after && e.parent == d && e.wave == w' && e.serial == k;
        assert e in before;
      }
      forall k | k in SerialSet(before, d, w') ensures k in SerialSet(after, d, w') {
        var e :| e in before && e.parent == d && e.wave == w' && e.serial == k;
        assert e in after;
      }
    }
  }

  lemma Still(before: set<Entry>, after: set<Entry>, d: Entry, above: nat)
    requires Inside(before, after, d, ForFiles) && Hosts(before, d, above) && Serials(before, d, ForLeafDirs, 0)
    ensures Serials(after, d, ForLeafDirs, 0)
  {
    hide Level;
    OtherWave(before, after, d, ForFiles, ForLeafDirs, 0);
  }

  lemma BothInside(before: set<Entry>, mid: set<Entry>, after: set<Entry>, d: Entry)
    requires Inside(before, mid, d, ForFiles) && Inside(mid, after, d, ForLeafDirs)
    ensures NewIn(before, after, d)
  {
  }

  /** A new directory, and what it is filled with. */
  lemma Filled(before: set<Entry>, after: set<Entry>, d: Entry)
    requires d !in before && NewIn(before + {d}, after, d)
    ensures Under(before, after, d)
  {
    assert forall e :: e in before ==> e in before + {d};
  }
}
