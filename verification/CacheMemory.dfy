/** The shared cache memory: 2 MiB buffers handed out per CPU from bitmaps. */
module CacheMemory {
  const CPUS: nat := 64
  const SLOTS: nat := 4096
  const BASE: nat := 0x4000000000
  const RANGE: nat := 0x8000000000
  const CPU_SIZE: nat := 0x200000000
  const BUFFER_SIZE: nat := 0x200000

  // ------------------------------------------------------------------ bitmaps

  function Bit(k: nat): bv8
    requires k < 8
  {
    (1 as bv8) << k
  }

  predicate HasBit(x: bv8, k: nat)
    requires k < 8
  {
    x & Bit(k) != 0
  }

  function WithBit(x: bv8, k: nat): bv8
    requires k < 8
  {
    x | Bit(k)
  }

  function WithoutBit(x: bv8, k: nat): bv8
    requires k < 8
  {
    x & !Bit(k)
  }

  function GetBitmap(b: seq<bv8>, i: nat): bool
    requires i < 8 * |b|
  {
    HasBit(b[i / 8], i % 8)
  }

  function SetBitmap(b: seq<bv8>, i: nat): seq<bv8>
    requires i < 8 * |b|
  {
    b[i / 8 := WithBit(b[i / 8], i % 8)]
  }

  function UnsetBitmap(b: seq<bv8>, i: nat): seq<bv8>
    requires i < 8 * |b|
  {
    b[i / 8 := WithoutBit(b[i / 8], i % 8)]
  }

  lemma RawBits(x: bv8, j: nat, k: nat)
    requires j < 8 && k < 8
    ensures (x | Bit(j)) & Bit(k) != 0 <==> j == k || x & Bit(k) != 0
    ensures (x & !Bit(j)) & Bit(k) != 0 <==> j != k && x & Bit(k) != 0
  {
  }

  lemma Bits(x: bv8, j: nat, k: nat)
    requires j < 8 && k < 8
    ensures HasBit(WithBit(x, j), k) <==> j == k || HasBit(x, k)
    ensures HasBit(WithoutBit(x, j), k) <==> j != k && HasBit(x, k)
  {
    hide Bit;
    RawBits(x, j, k);
  }

  /** Setting or clearing bit `i` changes that bit and no other. */
  lemma OneBit(b: seq<bv8>, i: nat, j: nat)
    requires i < 8 * |b| && j < 8 * |b|
    ensures GetBitmap(SetBitmap(b, i), j) == (i == j || GetBitmap(b, j))
    ensures GetBitmap(UnsetBitmap(b, i), j) == (i != j && GetBitmap(b, j))
  {
    hide HasBit, WithBit, WithoutBit;
    Bits(b[i / 8], i % 8, j % 8);
  }

  // ---------------------------------------------------------------- addresses

  function Address(cpu: nat, slot: nat): nat {
    BASE + cpu * CPU_SIZE + slot * BUFFER_SIZE
  }

  function CpuOf(addr: nat): nat
    requires addr >= BASE
  {
    (addr - BASE) / CPU_SIZE
  }

  function SlotOf(addr: nat, cpu: nat): nat
    requires addr >= BASE + cpu * CPU_SIZE
  {
    (addr - BASE - cpu * CPU_SIZE) / BUFFER_SIZE
  }

  /** Decoding inverts encoding, for the address of any byte of the buffer. */
  lemma Decode(cpu: nat, slot: nat, k: nat)
    requires slot < SLOTS && k < BUFFER_SIZE
    ensures var a := Address(cpu, slot) + k;
      CpuOf(a) == cpu && a >= BASE + cpu * CPU_SIZE && SlotOf(a, cpu) == slot
  {
  }

  /** Buffers are inside the mapping, and different ones share no byte. */
  lemma Apart(cpu: nat, slot: nat, cpu': nat, slot': nat)
    requires cpu < CPUS && slot < SLOTS && cpu' < CPUS && slot' < SLOTS
    ensures BASE <= Address(cpu, slot) && Address(cpu, slot) + BUFFER_SIZE <= BASE + RANGE
    ensures (cpu, slot) != (cpu', slot') ==>
      || Address(cpu, slot) + BUFFER_SIZE <= Address(cpu', slot')
      || Address(cpu', slot') + BUFFER_SIZE <= Address(cpu, slot)
  {
  }

  // ---------------------------------------------------------------- allocation

  /** The addresses of the buffers in use. */
  ghost function Live(lists: seq<seq<bv8>>): set<nat>
    requires |lists| == CPUS && forall c :: 0 <= c < CPUS ==> |lists[c]| == SLOTS / 8
  {
    set c: nat, i: nat | c < CPUS && i < SLOTS && InUse(lists, c, i) :: Address(c, i)
  }

  predicate InUse(lists: seq<seq<bv8>>, cpu: nat, slot: nat) {
    cpu < |lists| && slot < 8 * |lists[cpu]| && GetBitmap(lists[cpu], slot)
  }

  lemma LiveAt(lists: seq<seq<bv8>>, cpu: nat, slot: nat)
    requires |lists| == CPUS && forall c :: 0 <= c < CPUS ==> |lists[c]| == SLOTS / 8
    requires cpu < CPUS && slot < SLOTS
    ensures Address(cpu, slot) in Live(lists) <==> InUse(lists, cpu, slot)
  {
    if Address(cpu, slot) in Live(lists) {
      var c: nat, i: nat :| c < CPUS && i < SLOTS && InUse(lists, c, i) && Address(c, i) == Address(cpu, slot);
      Apart(c, i, cpu, slot);
    }
  }

  /** Buffers in use are inside the mapping, and different ones share no byte. */
  lemma LiveApart(lists: seq<seq<bv8>>, a: nat, b: nat)
    requires |lists| == CPUS && forall c :: 0 <= c < CPUS ==> |lists[c]| == SLOTS / 8
    requires a in Live(lists) && b in Live(lists)
    ensures BASE <= a && a + BUFFER_SIZE <= BASE + RANGE
    ensures a != b ==> a + BUFFER_SIZE <= b || b + BUFFER_SIZE <= a
  {
    hide InUse, Address;
    var c: nat, i: nat :| c < CPUS && i < SLOTS && InUse(lists, c, i) && Address(c, i) == a;
    var d: nat, j: nat :| d < CPUS && j < SLOTS && InUse(lists, d, j) && Address(d, j) == b;
    Apart(c, i, d, j);
  }

  /** `lists'` differs from `lists` in one bit. */
  ghost predicate Flips(lists: seq<seq<bv8>>, lists': seq<seq<bv8>>, cpu: nat, slot: nat, on: bool) {
    forall c: nat, i: nat :: c < CPUS && i < SLOTS ==>
      (InUse(lists', c, i) <==> if (c, i) == (cpu, slot) then on else InUse(lists, c, i))
  }

  lemma FlipBit(lists: seq<seq<bv8>>, cpu: nat, slot: nat)
    requires |lists| == CPUS && (forall c :: 0 <= c < CPUS ==> |lists[c]| == SLOTS / 8) && cpu < CPUS && slot < SLOTS
    ensures Flips(lists, lists[cpu := SetBitmap(lists[cpu], slot)], cpu, slot, true)
    ensures Flips(lists, lists[cpu := UnsetBitmap(lists[cpu], slot)], cpu, slot, false)
  {
    hide GetBitmap;
    forall i: nat | i < SLOTS
      ensures GetBitmap(SetBitmap(lists[cpu], slot), i) == (slot == i || GetBitmap(lists[cpu], i))
      ensures GetBitmap(UnsetBitmap(lists[cpu], slot), i) == (slot != i && GetBitmap(lists[cpu], i))
    {
      OneBit(lists[cpu], slot, i);
    }
  }

  lemma FlipLive(lists: seq<seq<bv8>>, lists': seq<seq<bv8>>, cpu: nat, slot: nat, on: bool)
    requires |lists| == CPUS && (forall c :: 0 <= c < CPUS ==> |lists[c]| == SLOTS / 8) && cpu < CPUS && slot < SLOTS
    requires |lists'| == CPUS && (forall c :: 0 <= c < CPUS ==> |lists'[c]| == SLOTS / 8)
    requires Flips(lists, lists', cpu, slot, on)
    ensures Live(lists') == if on then Live(lists) + {Address(cpu, slot)} else Live(lists) - {Address(cpu, slot)}
  {
    hide InUse, Address;
    forall a | a in Live(lists') ensures a in Live(lists) || (on && a == Address(cpu, slot)) {
      var c: nat, i: nat :| c < CPUS && i < SLOTS && InUse(lists', c, i) && a == Address(c, i);
      assert InUse(lists, c, i) || (c, i) == (cpu, slot);
    }
    forall a | a in Live(lists) && a != Address(cpu, slot) ensures a in Live(lists') {
      var c: nat, i: nat :| c < CPUS && i < SLOTS && InUse(lists, c, i) && a == Address(c, i);
      assert InUse(lists', c, i);
    }
    LiveAt(lists', cpu, slot);
  }

  class Allocator {
    var lists: seq<seq<bv8>>

    ghost predicate Valid()
      reads this
    {
      |lists| == CPUS && forall c :: 0 <= c < CPUS ==> |lists[c]| == SLOTS / 8
    }

    constructor ()
      ensures Valid() && Live(lists) == {}
    {
      lists := seq(CPUS, c => seq(SLOTS / 8, i => 0));
    }

    /** Hands out the first free buffer of the CPU, or none if all are in use. */
    method Alloc(cpu: nat) returns (buf: nat)
      requires Valid() && cpu < CPUS
      modifies this
      ensures Valid()
      ensures buf == 0 <==> forall i :: 0 <= i < SLOTS ==> old(InUse(lists, cpu, i))
      ensures buf == 0 ==> lists == old(lists)
      ensures buf != 0 ==> buf !in old(Live(lists)) && Live(lists) == old(Live(lists)) + {buf}
      ensures buf != 0 ==> exists i ::
        0 <= i < SLOTS && buf == Address(cpu, i) && forall j :: 0 <= j < i ==> old(InUse(lists, cpu, j))
    {
      var i := 0;
      while i < SLOTS && GetBitmap(lists[cpu], i)
        invariant i <= SLOTS && forall j :: 0 <= j < i ==> InUse(lists, cpu, j)
      {
        i := i + 1;
      }
      if i == SLOTS {
        return 0;
      }
      assert !InUse(lists, cpu, i);
      LiveAt(lists, cpu, i);
      FlipBit(lists, cpu, i);
      FlipLive(lists, lists[cpu := SetBitmap(lists[cpu], i)], cpu, i, true);
      lists := lists[cpu := SetBitmap(lists[cpu], i)];
      buf := Address(cpu, i);
    }

    /** Takes back the buffer that holds address `buf`: one bit is cleared and no other changes. */
    method Free(buf: nat)
      requires Valid() && BASE <= buf < BASE + RANGE
      modifies this
      ensures Valid() && Flips(old(lists), lists, CpuOf(buf), SlotOf(buf, CpuOf(buf)), false)
      ensures Live(lists) == old(Live(lists)) - {Address(CpuOf(buf), SlotOf(buf, CpuOf(buf)))}
    {
      var cpu := CpuOf(buf);
      var slot := SlotOf(buf, cpu);
      FlipBit(lists, cpu, slot);
      FlipLive(lists, lists[cpu := UnsetBitmap(lists[cpu], slot)], cpu, slot, false);
      lists := lists[cpu := UnsetBitmap(lists[cpu], slot)];
    }
  }
}
