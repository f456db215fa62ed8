/** Populating a file set: a recursive tree of directories holding exactly the requested
    numbers of files and leaf directories. */
module Populate {
  import opened AvlShape
  import opened Common
  import opened Fileset
  import opened PopulateTree

  function DrawnDepth(draws: Draws, k: nat): int {
    if draws.depthOf(k) == 0 then 1 else draws.depthOf(k)
  }

  /** Depths are bounded, and every directory has room for at least one entry. */
  ghost predicate Roomy(draws: Draws, maxDepth: nat) {
    (forall k :: DrawnDepth(draws, k) <= maxDepth) && forall k :: draws.plusOne(DrawnWidth(draws, k)) > 1.0
  }

  /** The bytes of the first `n` files. */
  ghost function TotalSize(draws: Draws, n: nat): nat {
    if n == 0 then 0 else TotalSize(draws, n - 1) + draws.sizeOf(n - 1)
  }

  // ------------------------------------------------------------------ memory

  /** How many entries there is shared memory for, and the bytes of a name of eight digits. */
  const ENTRIES := 1024 * 1024
  const NAME_BYTES := 9

  function Digits(n: nat): (d: nat)
    ensures d > 0
  {
    if n < 10 then 1 else 1 + Digits(n / 10)
  }

  /** The bytes of the name of entry number `serial` in its directory: at least eight digits, and the end mark. */
  function NameBytes(serial: nat): nat {
    Max(8, Digits(serial)) + 1
  }

  function Pow10(k: nat): nat {
    if k == 0 then 1 else 10 * Pow10(k - 1)
  }

  lemma {:induction false} FewDigits(n: nat, k: nat)
    requires k > 0 && n < Pow10(k)
    ensures Digits(n) <= k
  {
    if k > 1 {
      FewDigits(if n < 10 then n else n / 10, k - 1);
    }
  }

  /** There are not entries enough to number one with more than eight digits. */
  lemma ShortName(serial: nat)
    requires serial <= ENTRIES + 1
    ensures NameBytes(serial) == NAME_BYTES
  {
    assert Pow10(4) == 10000;
    assert Pow10(8) == 100000000;
    FewDigits(serial, 8);
  }

  /** The entries and the bytes for names left in shared memory; below zero once a name did not fit. */
  datatype Memory = Memory(slots: nat, paths: int) {
    predicate Fit() {
      slots <= ENTRIES && paths >= 0
    }

    /** There is an entry and a name left. */
    predicate HasOne() {
      slots > 0 && paths >= NAME_BYTES
    }

    /** The memory without an entry and a name. */
    function Less(): Memory
      requires slots > 0
    {
      Memory(slots - 1, paths - NAME_BYTES)
    }

    /** How many more entries can be made. */
    function Room(): nat {
      if paths < 0 then 0 else Min(slots, paths / NAME_BYTES)
    }
  }

  lemma RoomLess(m: Memory)
    ensures m.Room() > 0 <==> m.HasOne()
    ensures m.HasOne() ==> m.Less().Room() == m.Room() - 1
  {
  }

  lemma RoomyAt(draws: Draws, maxDepth: nat, k: nat)
    requires Roomy(draws, maxDepth)
    ensures DrawnDepth(draws, k) <= maxDepth && draws.plusOne(DrawnWidth(draws, k)) > 1.0
  {
  }

  // -------------------------------------------------------------------- cost

  /** The room that an entry may take below depth `above`: one for itself and one for each directory above it. */
  function Cost(above: nat, maxDepth: nat): nat {
    Max(maxDepth - above, 1) + 1
  }

  /** A step from `left0` entries to `left1` takes room for `c` for each, and fails only with less than it may need. */
  predicate Within(ok: bool, mem0: int, mem1: int, left0: int, left1: int, c: nat) {
    (ok || mem0 < c * left0) && (ok ==> mem0 - mem1 <= c * (left0 - left1))
  }

  lemma WithinNone(mem: int, left: int, c: nat)
    ensures Within(true, mem, mem, left, left, c)
  {
  }

  lemma WithinOne(ok: bool, mem0: int, mem1: int, left: int)
    requires left > 0 && if ok then mem1 == mem0 - 1 else mem0 == 0
    ensures Within(ok, mem0, mem1, left, left - if ok then 1 else 0, 1)
  {
  }

  lemma WithinBoth(ok: bool, mem0: int, mem1: int, mem2: int, left0: int, left1: int, left2: int, c: nat)
    requires Within(true, mem0, mem1, left0, left1, c) && Within(ok, mem1, mem2, left1, left2, c)
    ensures Within(ok, mem0, mem2, left0, left2, c)
  {
    assert c * (left0 - left2) == c * (left0 - left1) + c * (left1 - left2);
    assert c * left0 == c * (left0 - left1) + c * left1;
  }

  /** What an entry may cost in a directory at depth `above + 1`. */
  function CostIn(isRoot: bool, isLeaf: bool, above: nat, maxDepth: nat): nat {
    if !isRoot && isLeaf then 1 else Cost(above + 1, maxDepth)
  }

  /** A directory is paid for by the entry that it must hold. */
  lemma WithinDir(ok: bool, mem0: int, mem1: int, left0: int, left1: int, k: nat, above: nat, draws: Draws,
                  maxDepth: nat)
    requires Roomy(draws, maxDepth) && left0 > 0 && (ok ==> left1 < left0)
    requires Within(ok, mem0 - 1, mem1, left0, left1, CostIn(false, above + 1 >= DrawnDepth(draws, k), above, maxDepth))
    ensures Within(ok, mem0, mem1, left0, left1, Cost(above, maxDepth))
  {
    var c, d := CostIn(false, above + 1 >= DrawnDepth(draws, k), above, maxDepth), Cost(above, maxDepth);
    assert DrawnDepth(draws, k) <= maxDepth;
    OneMoreEach(c, d, left0);
    if ok {
      OneMoreEach(c, d, left0 - left1);
    }
  }

  lemma OneMoreEach(c: nat, d: nat, n: nat)
    requires d >= c + 1 && n > 0
    ensures d * n >= c * n + 1
  {
    assert d * n == c * n + (d - c) * n;
  }

  /** A directory that cannot be made fails only with less room than an entry below it may need. */
  lemma WithinFailed(left: int, above: nat, maxDepth: nat)
    requires left >= 0
    ensures Within(false, -1, 0, left, left, Cost(above + 1, maxDepth))
    ensures left > 0 ==> Within(false, 0, 0, left, left, Cost(above, maxDepth))
  {
    if left > 0 {
      OneMoreEach(0, Cost(above, maxDepth), left);
    }
  }

  class FileSet {
    const files: Shelf
    const leafDirs: Shelf
    const dirs: Shelf
    const wantFiles: nat
    const wantLeafDirs: nat
    var realFiles: nat
    var realLeafDirs: nat
    /** The bytes of all files. */
    var bytes: nat
    var memory: Memory

    ghost function Repr(): set<object>
      reads this, files, leafDirs, dirs
    {
      {this} + files.Repr() + leafDirs.Repr() + dirs.Repr()
    }

    /** Counters and keys agree with the entries made so far, which are no more than were asked for. */
    ghost predicate Valid()
      reads this, files, leafDirs, dirs, Repr()
    {
      && this !in files.Repr() && this !in leafDirs.Repr() && this !in dirs.Repr()
      && files.Repr() !! leafDirs.Repr() && files.Repr() !! dirs.Repr() && leafDirs.Repr() !! dirs.Repr()
      && files.Filling() && leafDirs.Filling() && dirs.Filling()
      && Stocked(files.members, File, true) && Stocked(leafDirs.members, LeafDir, true)
      && Stocked(dirs.members, Dir, false)
      && realFiles == files.idle <= wantFiles
      && realLeafDirs == leafDirs.idle <= wantLeafDirs
      && memory.Fit()
    }

    ghost function Entries(): set<Entry>
      reads files, leafDirs, dirs
    {
      files.members + leafDirs.members + dirs.members
    }

    /** Entries still to be made. */
    ghost function Left(): int
      reads this
    {
      wantFiles - realFiles + wantLeafDirs - realLeafDirs
    }

    /** What there was in shared memory: an entry and a name for each made so far, and the rest. */
    ghost function Budget(): (int, int)
      reads this, dirs
    {
      var made := realFiles + realLeafDirs + dirs.idle;
      (memory.slots + made, memory.paths + NAME_BYTES * made)
    }

    constructor (files: Shelf, leafDirs: Shelf, dirs: Shelf, entries: nat, leaves: nat, mem: Memory)
      requires mem.Fit() && files.Filling() && leafDirs.Filling() && dirs.Filling()
      requires files.members == {} && leafDirs.members == {} && dirs.members == {}
      requires files.Repr() !! leafDirs.Repr() && files.Repr() !! dirs.Repr() && leafDirs.Repr() !! dirs.Repr()
      ensures Valid() && wantFiles == entries && wantLeafDirs == leaves && realFiles == 0 && realLeafDirs == 0
      ensures memory == mem && bytes == 0 && Budget() == (mem.slots, mem.paths) && Entries() == {}
      ensures this.files == files && this.leafDirs == leafDirs && this.dirs == dirs
    {
      hide Shelf.Filling;
      files.Counted();
      leafDirs.Counted();
      dirs.Counted();
      this.files, this.leafDirs, this.dirs := files, leafDirs, dirs;
      wantFiles, wantLeafDirs, realFiles, realLeafDirs := entries, leaves, 0, 0;
      bytes, memory := 0, mem;
    }

    /** A file set with nothing in it. */
    static method Make(entries: nat, leaves: nat, mem: Memory, tids: nat) returns (s: FileSet)
      requires mem.Fit()
      ensures fresh(s) && fresh(s.files.Repr()) && fresh(s.leafDirs.Repr()) && fresh(s.dirs.Repr())
      ensures s.Valid() && s.wantFiles == entries && s.wantLeafDirs == leaves && s.memory == mem
      ensures s.realFiles == 0 && s.realLeafDirs == 0 && s.bytes == 0 && s.Entries() == {}
    {
      hide Shelf.Filling, FileSet.Valid;
      var files := new Shelf(tids);
      var leafDirs := new Shelf(1);
      assert files.Repr() !! leafDirs.Repr();
      var dirs := new Shelf(1);
      assert files.Repr() !! dirs.Repr() && leafDirs.Repr() !! dirs.Repr();
      s := new FileSet(files, leafDirs, dirs, entries, leaves, mem);
    }

    lemma Bounds()
      requires Valid()
      ensures realFiles <= wantFiles && realLeafDirs <= wantLeafDirs && memory.slots <= ENTRIES
    {
    }

    method PopulateFile(parent: Entry, serial: nat, draws: Draws) returns (ok: bool, ghost entry: Entry?)
      requires Valid() && realFiles < wantFiles && serial <= ENTRIES + 1
      modifies Repr()
      ensures ok <==> old(memory).HasOne()
      ensures ok ==> Valid() && realFiles == old(realFiles) + 1 && fresh(Repr() - old(Repr()))
      ensures ok ==> entry != null && Entries() == old(Entries()) + {entry} && entry !in old(Entries())
      ensures ok ==> entry.kind == File && entry.parent == parent && entry.serial == serial && entry.wave == ForFiles
      ensures ok ==> memory == old(memory).Less() && Budget() == old(Budget())
      ensures ok ==> bytes == old(bytes) + draws.sizeOf(old(realFiles))
      ensures !ok ==> realFiles == old(realFiles) && memory.Room() == 0
      ensures realLeafDirs == old(realLeafDirs)
    {
      hide Shelf.Filling, Stocked, NameBytes;
      assert files != dirs && files != leafDirs;
      ShortName(serial);
      if memory.slots == 0 {
        return false, null;
      }
      var made := files.Enrol(File, true, parent, serial, ForFiles);
      entry := made;
      memory := Memory(memory.slots - 1, memory.paths - NameBytes(serial));
      if memory.paths < 0 {
        return false, null;
      }
      bytes, realFiles := bytes + draws.sizeOf(realFiles), realFiles + 1;
      return true, entry;
    }

    method PopulateLeafDir(parent: Entry, serial: nat) returns (ok: bool, ghost entry: Entry?)
      requires Valid() && realLeafDirs < wantLeafDirs && serial <= ENTRIES + 1
      modifies Repr()
      ensures ok <==> old(memory).HasOne()
      ensures ok ==> Valid() && realLeafDirs == old(realLeafDirs) + 1 && fresh(Repr() - old(Repr()))
      ensures ok ==> entry != null && Entries() == old(Entries()) + {entry} && entry !in old(Entries())
      ensures ok ==> entry.kind == LeafDir && entry.parent == parent
      ensures ok ==> entry.serial == serial && entry.wave == ForLeafDirs
      ensures ok ==> memory == old(memory).Less() && Budget() == old(Budget())
      ensures !ok ==> realLeafDirs == old(realLeafDirs) && memory.Room() == 0
      ensures realFiles == old(realFiles) && bytes == old(bytes)
    {
      hide Shelf.Filling, Stocked, NameBytes;
      assert leafDirs != dirs && leafDirs != files;
      ShortName(serial);
      if memory.slots == 0 {
        return false, null;
      }
      var made := leafDirs.Enrol(LeafDir, true, parent, serial, ForLeafDirs);
      entry := made;
      memory := Memory(memory.slots - 1, memory.paths - NameBytes(serial));
      if memory.paths < 0 {
        return false, null;
      }
      realLeafDirs := realLeafDirs + 1;
      return true, entry;
    }

    /** Makes the entry of a directory. When there is no room for the name the counter has already moved on. */
    method PopulateDir(parent: Entry?, serial: nat, ghost wave: Wave) returns (ok: bool, dir: Entry?)
      requires Valid() && serial <= ENTRIES + 1
      modifies Repr()
      ensures ok <==> old(memory).HasOne()
      ensures ok ==> Valid() && fresh(Repr() - old(Repr())) && dirs.idle == old(dirs.idle) + 1
      ensures ok ==> memory == old(memory).Less() && Budget() == old(Budget())
      ensures !ok ==> memory.Room() == 0
      ensures ok ==> dir != null && Entries() == old(Entries()) + {dir} && dir !in old(Entries())
      ensures ok ==> dir.kind == Dir && dir.parent == parent && dir.serial == serial && dir.wave == wave
      ensures ok ==> dir.index == old(dirs.idle)
      ensures realFiles == old(realFiles) && realLeafDirs == old(realLeafDirs) && bytes == old(bytes)
    {
      hide Shelf.Filling, Stocked;
      ShortName(serial);
      if memory.slots == 0 {
        return false, null;
      }
      memory := memory.(slots := memory.slots - 1);
      memory := memory.(paths := memory.paths - NameBytes(serial));
      if memory.paths < 0 {
        dirs.idle := dirs.idle + 1;
        return false, null;
      }
      dir := dirs.Enrol(Dir, false, parent, serial, wave);
      return true, dir;
    }

    /** Makes a directory at depth `above + 1` and fills it. */
    method PopulateSubdir(parent: Entry?, serial: nat, ghost wave: Wave, above: nat, draws: Draws, ghost maxDepth: nat)
      returns (ok: bool, ghost top: Entry?)
      requires Valid() && (parent == null || Left() > 0) && serial <= ENTRIES + 1
      requires bytes == TotalSize(draws, realFiles)
      requires Shaped(Entries(), draws) && TakesDir(Entries(), draws, parent, above, wave, serial)
      modifies Repr()
      ensures ok ==> Shaped(Entries(), draws) && top != null && Under(old(Entries()), Entries(), top)
      ensures ok ==> top.kind == Dir && top.parent == parent && top.serial == serial && top.wave == wave
      ensures ok ==> Valid() && fresh(Repr() - old(Repr())) && Budget() == old(Budget())
      ensures !ok ==> memory.Room() == 0
      ensures old(realFiles) <= realFiles <= wantFiles && old(realLeafDirs) <= realLeafDirs <= wantLeafDirs
      ensures ok ==> memory.slots < old(memory).slots && bytes == TotalSize(draws, realFiles)
      ensures ok && parent == null ==> Left() == 0
      ensures ok && Roomy(draws, maxDepth) && old(realFiles) < wantFiles ==> old(realFiles) < realFiles
      ensures ok && Roomy(draws, maxDepth) && old(realLeafDirs) < wantLeafDirs ==> old(realLeafDirs) < realLeafDirs
      ensures Roomy(draws, maxDepth) ==> if parent == null
        then Within(ok, old(memory).Room() - 1, memory.Room(), old(Left()), Left(), Cost(above + 1, maxDepth))
        else Within(ok, old(memory).Room(), memory.Room(), old(Left()), Left(), Cost(above, maxDepth))
      decreases memory.slots, 0
    {
      hide Shelf.Filling, Stocked, Roomy, Within, Cost, Entries, Shaped, Serials, TakesDir, Under, NewIn, Hosts,
           FileSet.Valid, FileSet.Repr;
      Bounds();
      RoomLess(memory);
      Numbering(parent, draws, above, wave, serial);
      ghost var all := Entries();
      var dir;
      ok, dir := PopulateDir(parent, serial, wave);
      top := dir;
      if !ok {
        WithinFailed(Left(), above, maxDepth);
        return;
      }
      AddDir(all, draws, parent, above, wave, dir);
      var isLeaf := above + 1 >= DrawnDepth(draws, dir.index);
      ghost var repr := Repr();
      label Made:
      ok := Fill(dir, isLeaf, above, draws, maxDepth);
      if Roomy(draws, maxDepth) && parent != null {
        WithinDir(ok, old(memory).Room(), memory.Room(), old(Left()), Left(), dir.index, above, draws, maxDepth);
      }
      if ok {
        Filled(all, Entries(), dir);
        forall x | x in Repr() && x !in old(Repr()) ensures !old(allocated(x)) {
          assert x in repr || !old@Made(allocated(x));
        }
      }
    }

    /** The next directory is numbered above its parent, and the root zero. */
    lemma Numbering(parent: Entry?, draws: Draws, above: nat, wave: Wave, serial: nat)
      requires Valid() && TakesDir(Entries(), draws, parent, above, wave, serial)
      ensures if parent == null then dirs.idle == 0 else 0 <= parent.index < dirs.idle
    {
      hide Shelf.Filling, Stocked, Serials, Level, RoomIn;
      if parent == null {
        dirs.Counted();
      } else {
        OfKind(files.members, leafDirs.members, parent);
        dirs.Indices(parent);
      }
    }

    static lemma OfKind(files: set<Entry>, leafDirs: set<Entry>, d: Entry)
      requires Stocked(files, File, true) && Stocked(leafDirs, LeafDir, true) && d.kind == Dir
      ensures d !in files && d !in leafDirs
    {
    }

    /** Fills a directory at depth `above + 1`, first with files and then with leaf directories. */
    method Fill(dir: Entry, isLeaf: bool, above: nat, draws: Draws, ghost maxDepth: nat) returns (ok: bool)
      requires Valid() && bytes == TotalSize(draws, realFiles) && dir.index >= 0
      requires Shaped(Entries(), draws) && Hosts(Entries(), dir, above)
      requires isLeaf <==> above + 1 >= draws.depthOf(dir.index)
      requires Serials(Entries(), dir, ForFiles, 0) && Serials(Entries(), dir, ForLeafDirs, 0)
      modifies Repr()
      ensures ok ==> Shaped(Entries(), draws) && NewIn(old(Entries()), Entries(), dir)
      ensures ok ==> Valid() && fresh(Repr() - old(Repr())) && Budget() == old(Budget())
      ensures !ok ==> memory.Room() == 0
      ensures old(realFiles) <= realFiles <= wantFiles && old(realLeafDirs) <= realLeafDirs <= wantLeafDirs
      ensures ok ==> memory.slots <= old(memory).slots && bytes == TotalSize(draws, realFiles)
      ensures ok && dir.parent == null ==> Left() == 0
      ensures ok && Roomy(draws, maxDepth) && old(realFiles) < wantFiles ==> old(realFiles) < realFiles
      ensures ok && Roomy(draws, maxDepth) && old(realLeafDirs) < wantLeafDirs ==> old(realLeafDirs) < realLeafDirs
      ensures Roomy(draws, maxDepth) ==>
        Within(ok, old(memory).Room(), memory.Room(), old(Left()), Left(),
               CostIn(dir.parent == null, isLeaf, above, maxDepth))
      decreases memory.slots, 3
    {
      hide Shelf.Filling, Stocked, Roomy, Within, CostIn, Entries, Shaped, Serials, Hosts, Inside, NewIn,
           FileSet.Valid, FileSet.Repr;
      Bounds();
      ghost var made;
      ok, made := FillWithFiles(dir, isLeaf, above, draws, maxDepth);
      if ok {
        ghost var mem, left, all := memory.Room(), Left(), Entries();
        ghost var repr := Repr();
        Still(old(Entries()), all, dir, above);
        label WithFiles:
        ok, made := FillWithLeafDirs(dir, isLeaf, above, draws, maxDepth);
        if ok {
          BothInside(old(Entries()), all, Entries(), dir);
          forall x | x in Repr() && x !in old(Repr()) ensures !old(allocated(x)) {
            assert x in repr || !old@WithFiles(allocated(x));
          }
        }
        if Roomy(draws, maxDepth) {
          WithinBoth(ok, old(memory).Room(), mem, memory.Room(), old(Left()), left, Left(),
                     CostIn(dir.parent == null, isLeaf, above, maxDepth));
        }
      }
    }

    /** One file in a leaf, and otherwise one subdirectory. */
    method FillOneFile(dir: Entry, isLeaf: bool, serial: nat, above: nat, draws: Draws, ghost maxDepth: nat,
                       ghost before: set<Entry>)
      returns (ok: bool)
      requires Valid() && realFiles < wantFiles && serial <= ENTRIES + 1 && bytes == TotalSize(draws, realFiles)
      requires Shaped(Entries(), draws) && Takes(Entries(), draws, dir, above, isLeaf, ForFiles, serial)
      requires Hosts(before, dir, above) && Inside(before, Entries(), dir, ForFiles)
      modifies Repr()
      ensures ok ==> Shaped(Entries(), draws) && Hosts(Entries(), dir, above)
      ensures ok ==> Inside(before, Entries(), dir, ForFiles) && Serials(Entries(), dir, ForFiles, serial)
      ensures ok ==> Valid() && fresh(Repr() - old(Repr())) && Budget() == old(Budget())
      ensures !ok ==> memory.Room() == 0
      ensures old(realFiles) <= realFiles <= wantFiles && old(realLeafDirs) <= realLeafDirs <= wantLeafDirs
      ensures ok ==> memory.slots < old(memory).slots && bytes == TotalSize(draws, realFiles)
      ensures ok && dir.parent != null && isLeaf ==> realFiles == old(realFiles) + 1
      ensures ok && Roomy(draws, maxDepth) ==> old(realFiles) < realFiles
      ensures Roomy(draws, maxDepth) ==> Within(ok, old(memory).Room(), memory.Room(), old(Left()), Left(),
                                                CostIn(dir.parent == null, isLeaf, above, maxDepth))
      decreases memory.slots, 1
    {
      hide Shelf.Filling, Stocked, Within, Roomy, Cost, Entries, Shaped, Serials, Under, Hosts, Takes, Inside,
           FileSet.Valid, FileSet.Repr;
      Bounds();
      RoomLess(memory);
      ghost var top;
      if dir.parent != null && isLeaf {
        ok, top := PopulateFile(dir, serial, draws);
        WithinOne(ok, old(memory).Room(), memory.Room(), old(Left()));
        if ok {
          Bounds();
          AddLeaf(old(Entries()), draws, dir, above, ForFiles, top);
        }
      } else {
        TakesBelow(Entries(), draws, dir, above, isLeaf, ForFiles, serial);
        ok, top := PopulateSubdir(dir, serial, ForFiles, above + 1, draws, maxDepth);
      }
      if ok {
        TakesNext(before, old(Entries()), Entries(), draws, dir, above, isLeaf, ForFiles, top);
      }
    }

    /** One leaf directory in a leaf, and otherwise one subdirectory. */
    method FillOneLeafDir(dir: Entry, isLeaf: bool, serial: nat, above: nat, draws: Draws, ghost maxDepth: nat,
                       ghost before: set<Entry>)
      returns (ok: bool)
      requires Valid() && realLeafDirs < wantLeafDirs && serial <= ENTRIES + 1 && bytes == TotalSize(draws, realFiles)
      requires Shaped(Entries(), draws) && Takes(Entries(), draws, dir, above, isLeaf, ForLeafDirs, serial)
      requires Hosts(before, dir, above) && Inside(before, Entries(), dir, ForLeafDirs)
      modifies Repr()
      ensures ok ==> Shaped(Entries(), draws) && Hosts(Entries(), dir, above)
      ensures ok ==> Inside(before, Entries(), dir, ForLeafDirs) && Serials(Entries(), dir, ForLeafDirs, serial)
      ensures ok ==> Valid() && fresh(Repr() - old(Repr())) && Budget() == old(Budget())
      ensures !ok ==> memory.Room() == 0
      ensures old(realFiles) <= realFiles <= wantFiles && old(realLeafDirs) <= realLeafDirs <= wantLeafDirs
      ensures ok ==> memory.slots < old(memory).slots && bytes == TotalSize(draws, realFiles)
      ensures ok && dir.parent != null && isLeaf ==> realLeafDirs == old(realLeafDirs) + 1
      ensures ok && Roomy(draws, maxDepth) ==> old(realLeafDirs) < realLeafDirs
      ensures Roomy(draws, maxDepth) ==> Within(ok, old(memory).Room(), memory.Room(), old(Left()), Left(),
                                                CostIn(dir.parent == null, isLeaf, above, maxDepth))
      decreases memory.slots, 1
    {
      hide Shelf.Filling, Stocked, Within, Roomy, Cost, Entries, Shaped, Serials, Under, Hosts, Takes, Inside,
           FileSet.Valid, FileSet.Repr;
      Bounds();
      RoomLess(memory);
      ghost var top;
      if dir.parent != null && isLeaf {
        ok, top := PopulateLeafDir(dir, serial);
        WithinOne(ok, old(memory).Room(), memory.Room(), old(Left()));
        if ok {
          Bounds();
          AddLeaf(old(Entries()), draws, dir, above, ForLeafDirs, top);
        }
      } else {
        TakesBelow(Entries(), draws, dir, above, isLeaf, ForLeafDirs, serial);
        ok, top := PopulateSubdir(dir, serial, ForLeafDirs, above + 1, draws, maxDepth);
      }
      if ok {
        TakesNext(before, old(Entries()), Entries(), draws, dir, above, isLeaf, ForLeafDirs, top);
      }
    }

    /** Up to `width` files, or subdirectories when this is not a leaf; the root goes on until all files are made. */
    method FillWithFiles(dir: Entry, isLeaf: bool, above: nat, draws: Draws, ghost maxDepth: nat)
      returns (ok: bool, ghost made: nat)
      requires Valid() && bytes == TotalSize(draws, realFiles) && dir.index >= 0
      requires Shaped(Entries(), draws) && Hosts(Entries(), dir, above) && Serials(Entries(), dir, ForFiles, 0)
      requires isLeaf <==> above + 1 >= draws.depthOf(dir.index)
      modifies Repr()
      ensures ok ==> Shaped(Entries(), draws) && Hosts(Entries(), dir, above)
      ensures ok ==> Inside(old(Entries()), Entries(), dir, ForFiles) && Serials(Entries(), dir, ForFiles, made)
      ensures ok ==> Valid() && fresh(Repr() - old(Repr())) && Budget() == old(Budget())
      ensures !ok ==> memory.Room() == 0
      ensures old(realFiles) <= realFiles <= wantFiles && old(realLeafDirs) <= realLeafDirs <= wantLeafDirs
      ensures ok ==> memory.slots <= old(memory).slots && bytes == TotalSize(draws, realFiles)
      ensures ok && dir.parent == null ==> realFiles == wantFiles
      ensures ok && dir.parent != null ==> made == 0 || made as real < draws.plusOne(DrawnWidth(draws, dir.index))
      ensures ok && dir.parent != null ==>
        realFiles == wantFiles || made as real + 1.0 >= draws.plusOne(DrawnWidth(draws, dir.index))
      ensures ok && dir.parent != null && isLeaf ==> realFiles - old(realFiles) == made
      ensures ok && Roomy(draws, maxDepth) && old(realFiles) < wantFiles ==> old(realFiles) < realFiles
      ensures Roomy(draws, maxDepth) ==>
        Within(ok, old(memory).Room(), memory.Room(), old(Left()), Left(),
               CostIn(dir.parent == null, isLeaf, above, maxDepth))
      decreases memory.slots, 2
    {
      hide Shelf.Filling, Stocked, Within, Roomy, TotalSize, CostIn, Memory.Room, DrawnWidth, Left, Budget, Entries,
           Shaped, Serials, Inside, Hosts, FileSet.Valid, FileSet.Repr;
      Bounds();
      if Roomy(draws, maxDepth) {
        RoomyAt(draws, maxDepth, dir.index);
      }
      var i, room := 1, draws.plusOne(DrawnWidth(draws, dir.index));
      made := 0;
      ghost var c := CostIn(dir.parent == null, isLeaf, above, maxDepth);
      WithinNone(memory.Room(), Left(), c);
      InsideNone(Entries(), dir, ForFiles);
      while (dir.parent == null || i as real < room) && realFiles < wantFiles
        invariant i >= 1 && Valid() && fresh(Repr() - old(Repr())) && Budget() == old(Budget())
        invariant old(realFiles) <= realFiles <= wantFiles && old(realLeafDirs) <= realLeafDirs <= wantLeafDirs
        invariant memory.slots <= old(memory).slots - (i - 1) && bytes == TotalSize(draws, realFiles)
        invariant Shaped(Entries(), draws) && Hosts(Entries(), dir, above)
        invariant Inside(old(Entries()), Entries(), dir, ForFiles) && Serials(Entries(), dir, ForFiles, i - 1)
        invariant dir.parent != null && isLeaf ==> realFiles - old(realFiles) == i - 1
        invariant i > 1 ==> dir.parent == null || (i - 1) as real < room
        invariant i > 1 && Roomy(draws, maxDepth) ==> old(realFiles) < realFiles
        invariant Roomy(draws, maxDepth) ==> Within(true, old(memory).Room(), memory.Room(), old(Left()), Left(), c)
        decreases memory.slots
      {
        ghost var left, mem, repr := Left(), memory.Room(), Repr();
        label Before:
        ok := FillOneFile(dir, isLeaf, i, above, draws, maxDepth, old(Entries()));
        if Roomy(draws, maxDepth) {
          WithinBoth(ok, old(memory).Room(), mem, memory.Room(), old(Left()), left, Left(), c);
        }
        if !ok {
          return;
        }
        forall x | x in Repr() && x !in old(Repr()) ensures !old(allocated(x)) {
          assert x in repr || !old@Before(allocated(x));
        }
        Bounds();
        i := i + 1;
      }
      ok, made := true, i - 1;
    }

    /** Likewise for leaf directories. */
    method FillWithLeafDirs(dir: Entry, isLeaf: bool, above: nat, draws: Draws, ghost maxDepth: nat)
      returns (ok: bool, ghost made: nat)
      requires Valid() && bytes == TotalSize(draws, realFiles) && dir.index >= 0
      requires Shaped(Entries(), draws) && Hosts(Entries(), dir, above) && Serials(Entries(), dir, ForLeafDirs, 0)
      requires isLeaf <==> above + 1 >= draws.depthOf(dir.index)
      modifies Repr()
      ensures ok ==> Shaped(Entries(), draws) && Hosts(Entries(), dir, above)
      ensures ok ==> Inside(old(Entries()), Entries(), dir, ForLeafDirs) && Serials(Entries(), dir, ForLeafDirs, made)
      ensures ok ==> Valid() && fresh(Repr() - old(Repr())) && Budget() == old(Budget())
      ensures !ok ==> memory.Room() == 0
      ensures old(realFiles) <= realFiles <= wantFiles && old(realLeafDirs) <= realLeafDirs <= wantLeafDirs
      ensures ok ==> memory.slots <= old(memory).slots && bytes == TotalSize(draws, realFiles)
      ensures ok && dir.parent == null ==> realLeafDirs == wantLeafDirs
      ensures ok && dir.parent != null ==> made == 0 || made as real < draws.plusOne(DrawnWidth(draws, dir.index))
      ensures ok && dir.parent != null ==>
        realLeafDirs == wantLeafDirs || made as real + 1.0 >= draws.plusOne(DrawnWidth(draws, dir.index))
      ensures ok && dir.parent != null && isLeaf ==> realLeafDirs - old(realLeafDirs) == made
      ensures ok && Roomy(draws, maxDepth) && old(realLeafDirs) < wantLeafDirs ==> old(realLeafDirs) < realLeafDirs
      ensures Roomy(draws, maxDepth) ==>
        Within(ok, old(memory).Room(), memory.Room(), old(Left()), Left(),
               CostIn(dir.parent == null, isLeaf, above, maxDepth))
      decreases memory.slots, 2
    {
      hide Shelf.Filling, Stocked, Within, Roomy, TotalSize, CostIn, Memory.Room, DrawnWidth, Left, Budget, Entries,
           Shaped, Serials, Inside, Hosts, FileSet.Valid, FileSet.Repr;
      Bounds();
      if Roomy(draws, maxDepth) {
        RoomyAt(draws, maxDepth, dir.index);
      }
      var i, room := 1, draws.plusOne(DrawnWidth(draws, dir.index));
      made := 0;
      ghost var c := CostIn(dir.parent == null, isLeaf, above, maxDepth);
      WithinNone(memory.Room(), Left(), c);
      InsideNone(Entries(), dir, ForLeafDirs);
      while (dir.parent == null || i as real < room) && realLeafDirs < wantLeafDirs
        invariant i >= 1 && Valid() && fresh(Repr() - old(Repr())) && Budget() == old(Budget())
        invariant old(realFiles) <= realFiles <= wantFiles && old(realLeafDirs) <= realLeafDirs <= wantLeafDirs
        invariant memory.slots <= old(memory).slots - (i - 1) && bytes == TotalSize(draws, realFiles)
        invariant Shaped(Entries(), draws) && Hosts(Entries(), dir, above)
        invariant Inside(old(Entries()), Entries(), dir, ForLeafDirs) && Serials(Entries(), dir, ForLeafDirs, i - 1)
        invariant dir.parent != null && isLeaf ==> realLeafDirs - old(realLeafDirs) == i - 1
        invariant i > 1 ==> dir.parent == null || (i - 1) as real < room
        invariant i > 1 && Roomy(draws, maxDepth) ==> old(realLeafDirs) < realLeafDirs
        invariant Roomy(draws, maxDepth) ==> Within(true, old(memory).Room(), memory.Room(), old(Left()), Left(), c)
        decreases memory.slots
      {
        ghost var left, mem, repr := Left(), memory.Room(), Repr();
        label Before:
        ok := FillOneLeafDir(dir, isLeaf, i, above, draws, maxDepth, old(Entries()));
        if Roomy(draws, maxDepth) {
          WithinBoth(ok, old(memory).Room(), mem, memory.Room(), old(Left()), left, Left(), c);
        }
        if !ok {
          return;
        }
        forall x | x in Repr() && x !in old(Repr()) ensures !old(allocated(x)) {
          assert x in repr || !old@Before(allocated(x));
        }
        Bounds();
        i := i + 1;
      }
      ok, made := true, i - 1;
    }

    /** Population from an empty set: exactly the requested entries, numbered from zero, for any draws,
        unless memory runs out; with roomy draws it does not, given enough. */
    method Populate(draws: Draws, ghost maxDepth: nat) returns (ok: bool)
      requires Valid() && realFiles == 0 && realLeafDirs == 0 && Entries() == {} && bytes == 0
      modifies Repr()
      ensures ok ==> files.Filling() && |files.members| == wantFiles && Numbered(files.members, wantFiles)
      ensures ok ==> leafDirs.Filling() && |leafDirs.members| == wantLeafDirs
      ensures ok ==> Numbered(leafDirs.members, wantLeafDirs)
      ensures ok ==> dirs.Filling()
      ensures ok ==> Stocked(files.members, File, true) && Stocked(leafDirs.members, LeafDir, true)
      ensures ok ==> Stocked(dirs.members, Dir, false)
      ensures ok ==> Shaped(Entries(), draws) && (exists root :: root in Entries() && root.parent == null)
      ensures ok ==> Budget() == old(Budget()) && bytes == TotalSize(draws, wantFiles)
      ensures !ok ==> memory.Room() == 0
      ensures Roomy(draws, maxDepth) && old(memory).Room() >= 1 + Cost(1, maxDepth) * (wantFiles + wantLeafDirs) ==> ok
      ensures realFiles <= wantFiles && realLeafDirs <= wantLeafDirs
    {
      hide Shelf.Filling, Shelf.Sound, Shelf.Placed, Numbered, Keys, Roomy, Stocked, Cost, Shaped, TakesDir, Entries;
      NoEntries(draws);
      ghost var top;
      ok, top := PopulateSubdir(null, 1, ForFiles, 0, draws, maxDepth);
      if ok {
        assert top in Entries();
        files.FillingFacts();
        leafDirs.FillingFacts();
      }
    }
  }
}
