/** Placing a Linux guest (src/linux_boot.c): the E820 memory map and where the initrd goes. */
module LinuxBoot {
  import opened Basics
  import opened LittleEndian
  import opened PhysicalMemory

  const PAGE := 0x1000
  const MB := 0x10_0000
  const KERNEL_LOAD_ADDR := 0x10_0000
  const INITRD_ADDR_MAX := 0x37ff_ffff
  const LOW_MEMORY := 640 * 1024
  const E820_MAX := 128

  const E820_RAM := 1
  const E820_RESERVED := 2
  const RECORD := 20           // sizeof(struct e820_entry), packed

  datatype Region = Region(addr: nat, size: nat, kind: nat) {
    predicate Contains(a: nat) { addr <= a < addr + size }
  }

  /** The regions follow each other without gap or overlap from 0 to end. */
  predicate Tiles(regions: seq<Region>, end: nat) {
    && regions != [] && regions[0].addr == 0 && regions[|regions| - 1].addr + regions[|regions| - 1].size == end
    && (forall i :: 0 <= i < |regions| ==> regions[i].size > 0)
    && (forall i :: 0 <= i < |regions| - 1 ==> regions[i].addr + regions[i].size == regions[i + 1].addr)
  }

  /** In such a map every address below the end lies in exactly one region, none beyond. */
  lemma {:induction false} TiledOnce(regions: seq<Region>, end: nat, a: nat)
    requires Tiles(regions, end)
    ensures a < end ==> exists i :: 0 <= i < |regions| && regions[i].Contains(a)
    ensures forall i, j ::
              0 <= i < |regions| && 0 <= j < |regions| && regions[i].Contains(a) && regions[j].Contains(a) ==> i == j
    ensures a >= end ==> forall i :: 0 <= i < |regions| ==> !regions[i].Contains(a)
    decreases |regions|
  {
    if |regions| > 1 {
      var front, last := regions[..|regions| - 1], regions[|regions| - 1];
      assert front[|front| - 1] == regions[|regions| - 2];
      assert Tiles(front, last.addr);
      TiledOnce(front, last.addr, a);
      if a < last.addr {
        var i :| 0 <= i < |front| && front[i].Contains(a);
        assert regions[i].Contains(a);
      } else if a < end {
        assert regions[|regions| - 1].Contains(a);
      }
      forall i | 0 <= i < |regions| - 1
        ensures regions[i].Contains(a) ==> a < last.addr
      {
        assert regions[i] == front[i];
      }
      forall i, j | 0 <= i < |regions| && 0 <= j < |regions| && regions[i].Contains(a) && regions[j].Contains(a)
        ensures i == j
      {
        if i < |front| && j < |front| {
          assert front[i].Contains(a) && front[j].Contains(a);
        }
      }
    } else {
      assert a < end ==> regions[0].Contains(a);
    }
  }

  /** The memory map that setup_linux_boot_params leaves. */
  function MemoryMap(memSize: nat): seq<Region> {
    [Region(0, LOW_MEMORY, E820_RAM), Region(LOW_MEMORY, MB - LOW_MEMORY, E820_RESERVED)]
    + if memSize > MB then [Region(MB, memSize - MB, E820_RAM)] else []
  }

  /** It tiles the guest's memory exactly if that has at least 1 MB; below, it claims 1 MB. */
  lemma MapTilesExactly(memSize: nat)
    ensures Tiles(MemoryMap(memSize), memSize) <==> memSize >= MB
    ensures memSize < MB ==> Tiles(MemoryMap(memSize), MB)
  {
  }

  /** Which memory it offers: a region is RAM, kind 1, or reserved, kind 2, and is reserved exactly
      from 640 KB to 1 MB. */
  lemma MapKinds(memSize: nat, i: nat, a: nat)
    requires i < |MemoryMap(memSize)| && MemoryMap(memSize)[i].Contains(a)
    ensures MemoryMap(memSize)[i].kind == if 0xA_0000 <= a < 0x10_0000 then 2 else 1
  {
  }

  // ---------------------------------------------------------------- the initrd

  /** A place for the initrd: page-aligned, ending within memory and at most at addrMax, and
      starting at or after what the kernel claims from its load address on. */
  predicate Fits(at: nat, size: nat, memSize: nat, addrMax: nat, initSize: nat) {
    at % PAGE == 0 && at + size <= memSize && at + size <= addrMax + 1 && KERNEL_LOAD_ADDR + initSize <= at
  }

  datatype Placement = Placed(addr: nat) | Empty | TooBigForMemory | TooBigForRange | OverlapsKernel

  /** The placement part of load_initrd. */
  function Place(size: nat, memSize: nat, addrMax: u32, initSize: u32): Placement {
    if size == 0 then Empty
    else if size > memSize then TooBigForMemory
    else
      var maxEnd: nat := if addrMax >= memSize then memSize - 1 else addrMax;
      if size > maxEnd + 1 then TooBigForRange
      else
        var start := maxEnd + 1 - size;
        var desired := start - start % PAGE;
        if desired < KERNEL_LOAD_ADDR + initSize then OverlapsKernel else Placed(desired)
  }

  /** The initrd goes to the highest place that fits, and is rejected exactly if none does. */
  lemma PlacedHighest(size: nat, memSize: nat, addrMax: u32, initSize: u32)
    requires size > 0
    ensures var p := Place(size, memSize, addrMax, initSize);
            && (p.Placed? ==> Fits(p.addr, size, memSize, addrMax, initSize)
                              && forall at: nat :: Fits(at, size, memSize, addrMax, initSize) ==> at <= p.addr)
            && (p.Placed? <==> exists at: nat :: Fits(at, size, memSize, addrMax, initSize))
  {
    var p := Place(size, memSize, addrMax, initSize);
    forall at: nat | Fits(at, size, memSize, addrMax, initSize)
      ensures p.Placed? && at <= p.addr
    {
      var maxEnd: nat := if addrMax >= memSize then memSize - 1 else addrMax;
      var start := maxEnd + 1 - size;
      AlignedBelow(at, start);
    }
    if p.Placed? {
      assert Fits(p.addr, size, memSize, addrMax, initSize);
    }
  }

  /** The same without names: the place chosen is a multiple of 4096 at or after the end of what the
      kernel claims from 1 MB on, ends within memory and at most at the limit, and no other such place
      is higher; if any exists, one is chosen. */
  lemma PlacedWithin(size: nat, memSize: nat, addrMax: u32, initSize: u32, other: nat)
    requires size > 0
    ensures var p := Place(size, memSize, addrMax, initSize);
            p.Placed? ==>
              && p.addr % 0x1000 == 0 && 0x10_0000 + initSize <= p.addr
              && p.addr + size <= memSize && p.addr + size - 1 <= addrMax
    ensures other % 0x1000 == 0 && 0x10_0000 + initSize <= other
            && other + size <= memSize && other + size - 1 <= addrMax ==>
              Place(size, memSize, addrMax, initSize).Placed? && other <= Place(size, memSize, addrMax, initSize).addr
  {
    PlacedHighest(size, memSize, addrMax, initSize);
    assert Fits(other, size, memSize, addrMax, initSize) <==>
        other % 0x1000 == 0 && 0x10_0000 + initSize <= other
        && other + size <= memSize && other + size - 1 <= addrMax;
    hide Place;
  }

  lemma AlignedBelow(a: nat, b: nat)
    requires a % PAGE == 0 && a <= b
    ensures a <= b - b % PAGE
  {
    assert b - b % PAGE == b / PAGE * PAGE && a == a / PAGE * PAGE;
  }

  /** An accepted initrd lies in one RAM region of the memory map, and its place and size fit
      the 32-bit header fields. */
  lemma PlacedInRam(size: nat, memSize: nat, addrMax: u32, initSize: u32)
    requires Place(size, memSize, addrMax, initSize).Placed?
    ensures var at := Place(size, memSize, addrMax, initSize).addr;
            && at + size <= WORD_LIMIT && at < WORD_LIMIT && size < WORD_LIMIT
            && memSize > MB
            && exists i :: 0 <= i < |MemoryMap(memSize)| && MemoryMap(memSize)[i].kind == E820_RAM
                           && forall a :: at <= a < at + size ==> MemoryMap(memSize)[i].Contains(a)
  {
    var at := Place(size, memSize, addrMax, initSize).addr;
    PlacedHighest(size, memSize, addrMax, initSize);
    assert at >= MB && at + size <= memSize;
    assert MemoryMap(memSize)[2] == Region(MB, memSize - MB, E820_RAM);
  }

  /** Where the initrd ends when the limit is INITRD_ADDR_MAX: the page rounding takes it that far
      below the end of memory or the limit. */
  function PlacedEnd(size: nat, memSize: nat): int {
    var end := Min(memSize, INITRD_ADDR_MAX + 1);
    end - (end - size) % PAGE
  }

  /** setup_linux_boot_params replaces the limit that the kernel's header gave. The initrd placed
      after that ends within the header's limit exactly if that is at least where the rounded
      placement ends; and exactly then the header's own limit would have led to the same place,
      or is no tighter. */
  lemma HeaderLimitKept(size: nat, memSize: nat, limit: u32, initSize: u32)
    requires Place(size, memSize, INITRD_ADDR_MAX, initSize).Placed?
    ensures var at := Place(size, memSize, INITRD_ADDR_MAX, initSize).addr;
            && at + size == PlacedEnd(size, memSize)
            && (at + size <= limit + 1 <==>
                  Place(size, memSize, Min(limit, INITRD_ADDR_MAX), initSize) == Placed(at))
  {
    var at, tighter := Place(size, memSize, INITRD_ADDR_MAX, initSize).addr, Min(limit, INITRD_ADDR_MAX);
    PlacedHighest(size, memSize, INITRD_ADDR_MAX, initSize);
    PlacedHighest(size, memSize, tighter, initSize);
    if at + size <= limit + 1 {
      assert Fits(at, size, memSize, tighter, initSize);
      var other := Place(size, memSize, tighter, initSize).addr;
      assert Fits(other, size, memSize, INITRD_ADDR_MAX, initSize);
    }
  }

  /** It can lie beyond: with 256 MB, a 4 KB initrd of a kernel that allows 128 MB. */
  lemma HeaderLimitLost()
    ensures Place(0x1000, 0x1000_0000, INITRD_ADDR_MAX, 0x100_0000) == Placed(0x0fff_f000)
    ensures Place(0x1000, 0x1000_0000, 0x07ff_ffff, 0x100_0000) == Placed(0x07ff_f000)
  {
  }

  // ---------------------------------------------------------------- boot_params

  /** A packed record of e820_map. */
  function RecordOf(bytes: seq<byte>): Region
    requires |bytes| == RECORD
  {
    Region(Value(bytes[..8]), Value(bytes[8..16]), Value(bytes[16..]))
  }

  function RecordBytes(addr: nat, size: nat, kind: nat): (bytes: seq<byte>)
    ensures |bytes| == RECORD
  {
    Bytes(addr, 8) + Bytes(size, 8) + Bytes(kind, 4)
  }

  lemma RecordRoundTrip(addr: u64, size: u64, kind: u32)
    ensures RecordOf(RecordBytes(addr, size, kind)) == Region(addr, size, kind)
  {
    WordWidth();
    ValueOfBytes(addr, 8);
    ValueOfBytes(size, 8);
    ValueOfBytes(kind, 4);
    hide Value, Bytes;
    var bytes := RecordBytes(addr, size, kind);
    assert bytes[..8] == Bytes(addr, 8) && bytes[8..16] == Bytes(size, 8) && bytes[16..] == Bytes(kind, 4);
  }

  /** Where the fields of a packed record stand. */
  lemma FieldsStored(map820: seq<byte>, i: nat, addr: u64, size: u64, kind: u32)
    requires Offset(i + 1) <= |map820| && map820[Offset(i)..Offset(i + 1)] == RecordBytes(addr, size, kind)
    ensures Value(map820[20 * i..20 * i + 8]) == addr && Value(map820[20 * i + 8..20 * i + 16]) == size
    ensures Value(map820[20 * i + 16..20 * i + 20]) == kind
  {
    WordWidth();
    ValueOfBytes(addr, 8);
    ValueOfBytes(size, 8);
    ValueOfBytes(kind, 4);
    hide Value, Bytes, Pow;
    var r := map820[Offset(i)..Offset(i + 1)];
    assert r[..8] == Bytes(addr, 8) && r[8..16] == Bytes(size, 8) && r[16..] == Bytes(kind, 4);
    Slice(map820, Offset(i), RECORD, 0, 8);
    Slice(map820, Offset(i), RECORD, 8, 16);
    Slice(map820, Offset(i), RECORD, 16, 20);
  }

  function Offset(i: nat): nat { 20 * i }

  function RecordAt(map820: seq<byte>, i: nat): Region
    requires Offset(i + 1) <= |map820|
  {
    RecordOf(map820[Offset(i)..Offset(i + 1)])
  }

  /** The first n records of e820_map. */
  function Records(map820: seq<byte>, n: nat): (rs: seq<Region>)
    requires Offset(n) <= |map820|
    ensures |rs| == n && forall i :: 0 <= i < n ==> rs[i] == RecordAt(map820, i)
  {
    seq(n, i requires 0 <= i < n => RecordAt(map820, i))
  }

  /** A record written behind the others appends its region. */
  lemma RecordAppended(map820: seq<byte>, map820': seq<byte>, n: nat, addr: u64, size: u64, kind: u32)
    requires Offset(n + 1) <= |map820| == |map820'|
    requires forall a :: 0 <= a < Offset(n) ==> map820'[a] == map820[a]
    requires map820'[Offset(n)..Offset(n + 1)] == RecordBytes(addr, size, kind)
    ensures Records(map820', n + 1) == Records(map820, n) + [Region(addr, size, kind)]
  {
    RecordRoundTrip(addr, size, kind);
    hide RecordOf, RecordBytes;
    forall i | 0 <= i < n
      ensures RecordAt(map820', i) == RecordAt(map820, i)
    {
      assert map820'[Offset(i)..Offset(i + 1)] == map820[Offset(i)..Offset(i + 1)];
    }
  }

  lemma MapParts(memSize: nat, rs: seq<Region>)
    requires var both := [] + [Region(0, LOW_MEMORY, E820_RAM)] + [Region(LOW_MEMORY, MB - LOW_MEMORY, E820_RESERVED)];
             rs == if memSize > MB then both + [Region(MB, memSize - MB, E820_RAM)] else both
    ensures rs == MemoryMap(memSize)
  {
  }

  class BootParams {
    const e820Map: array<byte>
    var e820Entries: nat
    var initrdAddrMax: u32
    var initSize: u32
    var ramdiskImage: u32
    var ramdiskSize: u32

    ghost predicate Valid()
      reads this`e820Entries
    {
      e820Map.Length == E820_MAX * RECORD && e820Entries <= E820_MAX
    }

    /** The memory map as the guest reads it. */
    ghost function E820(): seq<Region>
      requires Valid()
      reads this`e820Entries, e820Map
    {
      Records(e820Map[..], e820Entries)
    }

    constructor (initrdAddrMax: u32, initSize: u32)
      ensures Valid() && E820() == [] && this.initrdAddrMax == initrdAddrMax && this.initSize == initSize
                && fresh(e820Map)
    {
      e820Map := new byte[E820_MAX * RECORD](_ => 0);
      e820Entries := 0;
      this.initrdAddrMax, this.initSize := initrdAddrMax, initSize;
      ramdiskImage, ramdiskSize := 0, 0;
    }

    method AddE820Entry(addr: u64, size: u64, kind: u32)
      requires Valid()
      modifies this`e820Entries, e820Map
      ensures Valid()
      ensures E820() == if old(|E820()|) >= 128 then old(E820()) else old(E820()) + [Region(addr, size, kind)]
    {
      if e820Entries >= E820_MAX {
        return;
      }
      ghost var before, n := e820Map[..], e820Entries;
      StoreRecord(e820Entries, addr, size, kind);
      RecordAppended(before, e820Map[..], n, addr, size, kind);
      hide Records;
      e820Entries := e820Entries + 1;
    }

    /** entry->addr = addr; entry->size = size; entry->type = type; */
    method StoreRecord(i: nat, addr: u64, size: u64, kind: u32)
      requires Offset(i + 1) <= e820Map.Length
      modifies e820Map
      ensures e820Map[Offset(i)..Offset(i + 1)] == RecordBytes(addr, size, kind)
      ensures Value(e820Map[20 * i..20 * i + 8]) == addr && Value(e820Map[20 * i + 8..20 * i + 16]) == size
      ensures Value(e820Map[20 * i + 16..20 * i + 20]) == kind
      ensures forall a :: 0 <= a < e820Map.Length && !(Offset(i) <= a < Offset(i + 1)) ==> e820Map[a] == old(e820Map[a])
    {
      hide Bytes, Value;
      var entry := Offset(i);
      StoreBytes(e820Map, entry, addr, 8);
      ghost var first := e820Map[entry..entry + 8];
      StoreBytes(e820Map, entry + 8, size, 8);
      assert e820Map[entry..entry + 8] == first;
      ghost var second := e820Map[entry..entry + 16];
      assert second == first + e820Map[entry + 8..entry + 16];
      StoreBytes(e820Map, entry + 16, kind, 4);
      assert e820Map[entry..entry + 16] == second;
      assert e820Map[entry..entry + 20] == second + e820Map[entry + 16..entry + 20];
      FieldsStored(e820Map[..], i, addr, size, kind);
    }

    /** setup_linux_boot_params keeps the setup header and rebuilds the rest. */
    method Setup(memSize: u64)
      requires Valid()
      modifies this`e820Entries, this`initrdAddrMax, e820Map
      ensures Valid() && E820() == MemoryMap(memSize) && initrdAddrMax == 0x37ff_ffff
    {
      hide E820, MemoryMap, Bytes, Value;
      Reset();
      AddE820Entry(0, LOW_MEMORY, E820_RAM);
      AddE820Entry(LOW_MEMORY, MB - LOW_MEMORY, E820_RESERVED);
      if memSize > MB {
        AddE820Entry(MB, memSize - MB, E820_RAM);
      }
      initrdAddrMax := INITRD_ADDR_MAX;
      MapParts(memSize, E820());
    }

    /** memset(boot_params, 0, sizeof(*boot_params)) */
    method Reset()
      requires Valid()
      modifies this`e820Entries, e820Map
      ensures Valid() && E820() == []
    {
      ClearBytes(e820Map, 0, e820Map.Length);
      e820Entries := 0;
    }

    /** load_initrd on the file's bytes: true for success. */
    method LoadInitrd(mem: array<byte>, image: seq<byte>) returns (ok: bool)
      modifies this`ramdiskImage, this`ramdiskSize, this`initrdAddrMax, mem
      ensures var p := Place(|image|, mem.Length, old(initrdAddrMax), initSize);
              && (ok <==> p.Placed?)
              && (ok ==> ramdiskImage == p.addr && ramdiskSize == |image| && initrdAddrMax == INITRD_ADDR_MAX
                         && p.addr + |image| <= mem.Length
                         && mem[p.addr..p.addr + |image|] == image
                         && SameOutside(old(mem[..]), mem[..], p.addr, p.addr + |image|))
              && (!ok ==> mem[..] == old(mem[..]) && ramdiskImage == old(ramdiskImage)
                          && ramdiskSize == old(ramdiskSize) && initrdAddrMax == old(initrdAddrMax))
    {
      if |image| == 0 {
        return false;
      }
      if |image| > mem.Length {
        return false;
      }
      var maxEnd: nat := initrdAddrMax;
      if maxEnd >= mem.Length {
        maxEnd := mem.Length - 1;
      }
      if |image| > maxEnd + 1 {
        return false;
      }
      var desired := maxEnd + 1 - |image|;
      desired := desired - desired % PAGE;
      if desired < KERNEL_LOAD_ADDR + initSize {
        return false;
      }
      PlacedInRam(|image|, mem.Length, initrdAddrMax, initSize);
      CopyBytes(mem, desired, image);
      ramdiskImage := desired;
      ramdiskSize := |image|;
      initrdAddrMax := INITRD_ADDR_MAX;
      return true;
    }

    /** The VMM's sequence for a Linux guest: setup_linux_boot_params, then load_initrd. What
        initrd_addr_max was before makes no difference. */
    method PrepareInitrd(mem: array<byte>, image: seq<byte>) returns (ok: bool)
      requires Valid() && mem != e820Map && mem.Length < U64_LIMIT
      modifies this`e820Entries, this`initrdAddrMax, this`ramdiskImage, this`ramdiskSize, e820Map, mem
      ensures Valid() && E820() == MemoryMap(mem.Length) && initrdAddrMax == INITRD_ADDR_MAX
      ensures var p := Place(|image|, mem.Length, INITRD_ADDR_MAX, initSize);
              && (ok <==> p.Placed?)
              && (ok ==> ramdiskImage == p.addr && ramdiskSize == |image| && p.addr + |image| <= mem.Length
                         && mem[p.addr..p.addr + |image|] == image
                         && SameOutside(old(mem[..]), mem[..], p.addr, p.addr + |image|))
              && (!ok ==> mem[..] == old(mem[..]))
    {
      hide E820, MemoryMap, Place, SameOutside;
      Setup(mem.Length);
      ok := LoadInitrd(mem, image);
    }
  }
}
