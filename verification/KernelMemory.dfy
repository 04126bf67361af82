/** The kernel's page allocator and map_page (os-1k/kernel.c), on physical memory.
    Kernel pointers are virtual addresses KERNEL_BASE above the physical byte they name. */
module KernelMemory {
  import opened Basics
  import opened PhysicalMemory
  import opened Paging32

  const KERNEL_BASE := 0x8000_0000
  const FREE_RAM_END := 0x803F_F000   // linker script: 4 KB below the 4 MB boundary
  const TOP_LIMIT := 0x3F_F000        // the same, as a physical address
  const WINDOW_END := 0x8040_0000     // the kernel's mapping ends here

  /** n * PAGE_SIZE in 32 bits */
  function RequestSize(n: u32): (size: u32)
    ensures n == 1 ==> size == PAGE_SIZE
    ensures size % PAGE_SIZE == 0
  {
    n % 0x10_0000 * PAGE_SIZE
  }

  /** That is the product cut to 32 bits. The request covers all n pages exactly below 2^20;
      a multiple of 2^20 pages is a request for nothing, and succeeds. */
  lemma RequestWraps(n: u32)
    ensures RequestSize(n) == n * PAGE_SIZE % WORD_LIMIT
    ensures RequestSize(n) == n * PAGE_SIZE <==> n < 0x10_0000
    ensures RequestSize(n) == 0 <==> n % 0x10_0000 == 0
  {
    var q, low := n / 0x10_0000, n % 0x10_0000;
    assert n * 0x1000 == 0x1_0000_0000 * q + 0x1000 * low;
  }

  // ---------------------------------------------------------------- running under the boot directory

  // The VMM's page directory, and its table for the kernel window (src/main.c).
  const BOOT_DIR := 0x10_0000
  const BOOT_HIGH := 0x10_2000

  /** [from, to) holds a page that the kernel's own translation goes through while CR3 names the
      boot directory. */
  predicate Cuts(from: nat, to: nat) {
    from <= BOOT_DIR < to || from <= BOOT_HIGH < to
  }

  /** What becomes of the kernel when it takes the pages [from, to) one after the other. */
  function Granted(onBoot: bool, from: nat, to: nat): (r: Result<()>)
    ensures r == Ok(()) || r == Halt(PageFault) || r == Halt(OutOfMemory)
  {
    if onBoot && Cuts(from, to) then Halt(PageFault)
    else if to <= TOP_LIMIT then Ok(()) else Halt(OutOfMemory)
  }

  /** For a single page it makes no difference that alloc_pages tests for memory first. */
  lemma OnePage(onBoot: bool, top: nat)
    requires top % PAGE_SIZE == 0
    ensures Granted(onBoot, top, top + PAGE_SIZE) ==
            if top + PAGE_SIZE > TOP_LIMIT then Halt(OutOfMemory)
            else if onBoot && Cuts(top, top + PAGE_SIZE) then Halt(PageFault) else Ok(())
  {
  }

  /** The first page that stops the kernel decides, however the pages are taken. */
  lemma GrantedThen(onBoot: bool, from: nat, mid: nat, to: nat)
    requires from <= mid <= to
    ensures Granted(onBoot, from, to) == if Granted(onBoot, from, mid).Ok? then Granted(onBoot, mid, to)
              else Granted(onBoot, from, mid)
  {
  }

  /** m is m0 after one of those pages was cleared: the directory, or the table with the
      directory still in place. */
  ghost predicate BootBroken(m0: seq<byte>, m: seq<byte>) {
    && |m| == |m0|
    && (ZeroWithin(m, BOOT_DIR, BOOT_DIR + PAGE_SIZE)
        || (SameWithin(m0, m, BOOT_DIR, BOOT_DIR + PAGE_SIZE) && ZeroWithin(m, BOOT_HIGH, BOOT_HIGH + PAGE_SIZE)))
  }

  lemma WholePages(from: nat, to: nat, page: nat)
    requires from % PAGE_SIZE == 0 && to % PAGE_SIZE == 0 && page % PAGE_SIZE == 0
    ensures page < to ==> page + PAGE_SIZE <= to
    ensures page < from ==> page + PAGE_SIZE <= from
  {
    var i, j, k := from / 0x1000, to / 0x1000, page / 0x1000;
    assert from == 0x1000 * i && to == 0x1000 * j && page == 0x1000 * k;
  }

  lemma AlignedEnd(a: nat, n: nat)
    requires a % PAGE_SIZE == 0 && n % PAGE_SIZE == 0
    ensures (a + n) % PAGE_SIZE == 0
  {
  }

  lemma ClearedBoot(m: seq<byte>, m': seq<byte>, from: nat, to: nat)
    requires from % PAGE_SIZE == 0 && to % PAGE_SIZE == 0 && Cuts(from, to)
    requires ZeroWithin(m', from, to) && SameOutside(m, m', from, to)
    ensures BootBroken(m, m')
  {
    WholePages(from, to, BOOT_DIR);
    WholePages(from, to, BOOT_HIGH);
  }

  /** What happened before, away from those pages, makes no difference. */
  lemma BrokenSince(m0: seq<byte>, m: seq<byte>, m': seq<byte>, from: nat, to: nat)
    requires from % PAGE_SIZE == 0 && to % PAGE_SIZE == 0 && !Cuts(from, to) && SameOutside(m0, m, from, to)
    requires BootBroken(m, m')
    ensures BootBroken(m0, m')
  {
    WholePages(from, to, BOOT_DIR);
  }

  /** PANIC prints and halts: nothing runs after it. A page fault in the kernel has no handler. */
  datatype Panic = OutOfMemory | PageFault | UnalignedVaddr | UnalignedPaddr | NoFreeSlot | Unreachable

  datatype Result<+T> = Ok(value: T) | Halt(panic: Panic)

  /** flags | PAGE_P */
  function WithPresent(flags: nat): nat {
    if flags % 2 == 1 then flags else flags + PAGE_P
  }

  /** The frame that (paddr & 0xFFFFF000) | flags names: flags beyond the low 12 bits run into it. */
  function OrFrame(paddr: u32, flags: u32): (frame: u32)
    ensures frame % PAGE_SIZE == 0
    ensures flags < PAGE_SIZE ==> frame == paddr - paddr % PAGE_SIZE
  {
    Pow2Values();
    OrNothing(paddr / PAGE_SIZE, 20);
    Or(paddr / PAGE_SIZE, flags / PAGE_SIZE, 20) * PAGE_SIZE
  }

  /** The entry map_page writes, (paddr & 0xFFFFF000) | flags | PAGE_P, bit by bit. */
  lemma EntryWritten(paddr: u32, flags: u32, i: nat)
    requires i < 32
    ensures Bit(OrFrame(paddr, flags) + WithPresent(flags % PAGE_SIZE), i) <==>
            i == 0 || Bit(flags, i) || (i >= 12 && Bit(paddr, i))
  {
    hide Bit, Or, SetBit, Pow;
    var page, low := Or(paddr / 0x1000, flags / 0x1000, 20), WithPresent(flags % 0x1000);
    PresentBit(flags % 0x1000, i);
    TwelveBits(page, low, i);
    TwelveBits(flags / 0x1000, flags % 0x1000, i);
    TwelveBits(paddr / 0x1000, paddr % 0x1000, i);
    if i >= 12 {
      OrBit(paddr / 0x1000, flags / 0x1000, 20, i - 12);
    }
  }

  lemma PresentBit(flags: nat, i: nat)
    ensures Bit(WithPresent(flags), i) <==> i == 0 || Bit(flags, i)
  {
    assert Pow(2, 0) == 1 && WithPresent(flags) == SetBit(flags, 1);
    SetBitBit(flags, 0, i);
    hide Bit;
  }

  lemma TwelveBits(high: nat, low: nat, i: nat)
    requires low < 0x1000
    ensures Bit(high * 0x1000 + low, i) <==> if i < 12 then Bit(low, i) else Bit(high, i - 12)
  {
    hide Bit;
    Pow2Step(0);
    assert Pow(2, 12) == 2 * (2 * Pow(2, 10));
    SplitBit(high, low, 12, i);
  }

  /** What one successful map_page does to the directory at dir: from memory m with the
      allocator at top, to memory m' with the allocator at top'. */
  ghost predicate PageMapped(m: seq<byte>, top: nat, m': seq<byte>, top': nat,
                             dir: nat, lo: nat, page: Page, frame: nat, flags: nat)
    requires WellFormed(m, dir, lo, top)
  {
    var i := page / ENTRIES;
    && |m'| == |m| && WellFormed(m', dir, lo, top')
    && var pde := Entry(m', dir, i);
    && (if Present(Entry(m, dir, i)) then pde == Entry(m, dir, i) && top' == top
        else pde == top + (PAGE_P + PAGE_RW + PAGE_U) && top' == top + PAGE_SIZE)
    && (forall j :: 0 <= j < ENTRIES && j != i ==> Entry(m', dir, j) == Entry(m, dir, j))
    && WalkPage(m', dir, page) == Small(frame, FlagsOf(pde), WithPresent(flags))
    && (forall p: Page :: p != page ==> WalkPage(m', dir, p) == WalkPage(m, dir, p))
    && SameOutsidePages(m, m', dir, FrameOf(pde), top, top')
  }

  ghost predicate SameOutsidePages(m: seq<byte>, m': seq<byte>, dir: nat, table: nat, lo: nat, hi: nat)
    requires |m'| == |m|
  {
    forall a :: 0 <= a < |m| && !(dir <= a < dir + PAGE_SIZE) && !(table <= a < table + PAGE_SIZE) && !(lo <= a < hi)
      ==> m'[a] == m[a]
  }

  /** The first half of map_page: directory slot i has a table, and no translation changed. */
  ghost predicate TableLinked(m: seq<byte>, top: nat, m': seq<byte>, top': nat, dir: nat, lo: nat, i: nat)
    requires WellFormed(m, dir, lo, top) && i < ENTRIES
  {
    && |m'| == |m| && WellFormed(m', dir, lo, top')
    && var pde := Entry(m', dir, i);
    && Present(pde)
    && (if Present(Entry(m, dir, i)) then pde == Entry(m, dir, i) && top' == top
        else pde == top + (PAGE_P + PAGE_RW + PAGE_U) && top' == top + PAGE_SIZE)
    && (forall j :: 0 <= j < ENTRIES && j != i ==> Entry(m', dir, j) == Entry(m, dir, j))
    && (forall p: Page :: WalkPage(m', dir, p) == WalkPage(m, dir, p))
    && SameOutsidePages(m, m', dir, FrameOf(pde), top, top')
  }

  lemma FootprintOfWrite(m: seq<byte>, linked: seq<byte>, m': seq<byte>, dir: nat, table: nat, lo: nat, hi: nat,
      slot: nat)
    requires |m| == |linked| && SameOutsidePages(m, linked, dir, table, lo, hi)
    requires table <= slot && slot + 4 <= table + PAGE_SIZE && SameOutside(linked, m', slot, slot + 4)
    ensures SameOutsidePages(m, m', dir, table, lo, hi)
  {
  }

  lemma LowBits(k: nat, f: nat)
    requires f < PAGE_SIZE
    ensures (PAGE_SIZE * k + f) % PAGE_SIZE == f
    ensures (PAGE_SIZE * k + f) % 2 == f % 2
  {
    Remainders(k, f);
  }

  lemma Remainders(k: nat, f: nat)
    requires f < 0x1000
    ensures (0x1000 * k + f) % 0x1000 == f
    ensures (0x1000 * k + f) % 2 == f % 2
  {
    assert (0x1000 * k + f) / 0x1000 == k;
    EvenPlus(0x800 * k, f);
  }

  lemma HundredTwentyEights(k: nat, f: nat)
    requires f < 0x80
    ensures (0x80 * k + f) / 0x80 == k
  {
  }

  /** The entry for an aligned frame is present and gives frame and flags back. */
  lemma EntryBits(frame: nat, flags: nat)
    requires frame % PAGE_SIZE == 0 && flags < PAGE_SIZE
    ensures var e := frame + WithPresent(flags);
            e < WORD_LIMIT ==> Present(e) && FrameOf(e) == frame && FlagsOf(e) == WithPresent(flags)
  {
    var k := frame / 0x1000;
    assert frame == 0x1000 * k;
    Remainders(k, WithPresent(flags));
  }

  lemma EntryValue(m: seq<byte>, dir: nat, page: Page, frame: nat, flags: nat)
    requires dir + PAGE_SIZE <= |m|
    requires var pde := Entry(m, dir, page / ENTRIES);
             && Present(pde) && !LargePage(pde) && FrameOf(pde) + PAGE_SIZE <= |m|
             && Entry(m, FrameOf(pde), page % ENTRIES) == frame + WithPresent(flags)
    requires frame % PAGE_SIZE == 0 && flags < PAGE_SIZE
    ensures WalkPage(m, dir, page) == Small(frame, FlagsOf(Entry(m, dir, page / ENTRIES)), WithPresent(flags))
  {
    hide Entry, Present, FrameOf, FlagsOf, LargePage, WithPresent;
    EntryBits(frame, flags);
  }

  lemma LinkedThenWritten(m: seq<byte>, top: nat, linked: seq<byte>, m': seq<byte>, top': nat,
                          dir: nat, lo: nat, page: Page, frame: nat, flags: nat)
    requires WellFormed(m, dir, lo, top) && TableLinked(m, top, linked, top', dir, lo, page / ENTRIES)
    requires frame % PAGE_SIZE == 0 && frame < WORD_LIMIT && flags < PAGE_SIZE
    requires var slot := FrameOf(Entry(linked, dir, page / ENTRIES)) + 4 * (page % ENTRIES);
             SameOutside(linked, m', slot, slot + 4) && slot + 4 <= |m'| && Word(m', slot) == frame + WithPresent(flags)
    ensures PageMapped(m, top, m', top', dir, lo, page, frame, flags)
  {
    var pde := Entry(linked, dir, page / ENTRIES);
    assert OwnTable(pde, dir, lo, top');
    FootprintOfWrite(m, linked, m', dir, FrameOf(pde), top, top', FrameOf(pde) + 4 * (page % ENTRIES));
    LeafWrite(linked, m', dir, lo, top', page);
    assert Entry(m', dir, page / ENTRIES) == pde;
    EntryValue(m', dir, page, frame, flags);
  }

  lemma LinkedTable(m: seq<byte>, top: nat, linked: seq<byte>, top': nat, dir: nat, lo: nat, i: nat)
    requires i < ENTRIES && WellFormed(m, dir, lo, top) && TableLinked(m, top, linked, top', dir, lo, i)
    ensures dir + PAGE_SIZE <= |linked| && FrameOf(Entry(linked, dir, i)) + PAGE_SIZE <= top'
  {
    assert OwnTable(Entry(linked, dir, i), dir, lo, top');
  }

  lemma FootprintOfFresh(m: seq<byte>, zeroed: seq<byte>, m': seq<byte>, dir: nat, top: nat, at: nat)
    requires SameOutside(m, zeroed, top, top + PAGE_SIZE) && at + 4 <= PAGE_SIZE
    requires SameOutside(zeroed, m', dir + at, dir + at + 4)
    ensures SameOutsidePages(m, m', dir, top, top, top + PAGE_SIZE)
  {
  }

  lemma TableEntryBits(top: nat)
    requires top % PAGE_SIZE == 0 && top + PAGE_SIZE <= WORD_LIMIT
    ensures var pde := top + (PAGE_P + PAGE_RW + PAGE_U);
            FrameOf(pde) == top && FlagsOf(pde) == 7 && Present(pde) && !LargePage(pde)
  {
    var k, pde := top / PAGE_SIZE, top + (PAGE_P + PAGE_RW + PAGE_U);
    assert top == PAGE_SIZE * k;
    LowBits(k, 7);
    HundredTwentyEights(0x20 * k, 7);
    assert pde == 0x80 * (0x20 * k) + 7;
  }

  lemma DirectoryInside(m: seq<byte>, dir: nat, lo: nat, top: nat)
    requires WellFormed(m, dir, lo, top)
    ensures dir % PAGE_SIZE == 0 && lo <= dir && dir + PAGE_SIZE <= top <= |m|
  {
  }

  lemma AlreadyLinked(m: seq<byte>, top: nat, dir: nat, lo: nat, i: nat)
    requires WellFormed(m, dir, lo, top) && i < ENTRIES && Present(Entry(m, dir, i))
    ensures TableLinked(m, top, m, top, dir, lo, i)
  {
  }

  lemma FreshTableLinked(m: seq<byte>, zeroed: seq<byte>, m': seq<byte>, top: nat, dir: nat, lo: nat, i: nat)
    requires WellFormed(m, dir, lo, top) && i < ENTRIES && !Present(Entry(m, dir, i))
    requires top % PAGE_SIZE == 0 && top + PAGE_SIZE <= |m| && top + PAGE_SIZE <= WORD_LIMIT
    requires SameOutside(m, zeroed, top, top + PAGE_SIZE) && ZeroWithin(zeroed, top, top + PAGE_SIZE)
    requires SameOutside(zeroed, m', dir + 4 * i, dir + 4 * i + 4)
    requires Entry(m', dir, i) == top + (PAGE_P + PAGE_RW + PAGE_U)
    ensures TableLinked(m, top, m', top + PAGE_SIZE, dir, lo, i)
  {
    WellFormedFrame(m, zeroed, dir, lo, top);
    TableEntryBits(top);
    FreshTable(zeroed, m', dir, lo, top, i);
    FootprintOfFresh(m, zeroed, m', dir, top, 4 * i);
  }

  class PageAllocator {
    const mem: array<byte>
    const freeRam: u32
    var nextPaddr: u32
    var onBoot: bool        // CR3 still names the VMM's boot directory

    ghost predicate Valid()
      reads this
    {
      && TOP_LIMIT <= mem.Length <= WORD_LIMIT
      && KERNEL_BASE <= freeRam <= nextPaddr <= FREE_RAM_END
      && nextPaddr % PAGE_SIZE == 0
    }

    /** The allocator's position as a physical address. */
    ghost function Top(): nat
      requires Valid()
      reads this
    {
      nextPaddr - KERNEL_BASE
    }

    constructor (mem: array<byte>, freeRam: u32)
      requires TOP_LIMIT <= mem.Length <= WORD_LIMIT
      requires KERNEL_BASE <= freeRam <= FREE_RAM_END && freeRam % PAGE_SIZE == 0
      ensures Valid() && this.mem == mem && this.freeRam == freeRam && nextPaddr == freeRam && onBoot
    {
      this.mem := mem;
      this.freeRam := freeRam;
      nextPaddr := freeRam;
      onBoot := true;
    }

    /** The byte count is a 32-bit product. A request that makes the position itself wrap slips
        past the test, and clearing it runs off the mapped window: a fault. Clearing a page that
        the kernel is translated through leaves it without its next instruction: a fault too. */
    method AllocPages(n: u32) returns (r: Result<u32>)
      requires Valid()
      modifies this`nextPaddr, mem
      ensures r == if old(nextPaddr) + RequestSize(n) >= WORD_LIMIT then Halt(PageFault)
                   else if old(nextPaddr) + RequestSize(n) > FREE_RAM_END then Halt(OutOfMemory)
                   else if onBoot && Cuts(old(Top()), old(Top()) + RequestSize(n)) then Halt(PageFault)
                   else Ok(old(nextPaddr))
      ensures r.Ok? ==> Valid() && Top() == old(Top()) + RequestSize(n)
      ensures r.Ok? ==> ZeroWithin(mem[..], old(Top()), Top()) && SameOutside(old(mem[..]), mem[..], old(Top()), Top())
      ensures r == Halt(OutOfMemory) ==> mem[..] == old(mem[..])
      ensures r == Halt(PageFault) && old(nextPaddr) + RequestSize(n) < WORD_LIMIT ==> BootBroken(old(mem[..]), mem[..])
    {
      hide RequestSize, Cuts, BootBroken, Word;
      var vaddr, size := nextPaddr, RequestSize(n);
      nextPaddr := (nextPaddr + size) % WORD_LIMIT;
      if nextPaddr > FREE_RAM_END {
        return Halt(OutOfMemory);
      }
      if vaddr + size > WINDOW_END {
        return Halt(PageFault);
      }
      var paddr := vaddr - KERNEL_BASE;
      ClearBytes(mem, paddr, size);
      if onBoot && Cuts(paddr, paddr + size) {
        AlignedEnd(paddr, size);
        ClearedBoot(old(mem[..]), mem[..], paddr, paddr + size);
        return Halt(PageFault);
      }
      return Ok(vaddr);
    }

    /** pageTable is the kernel pointer to the directory; lo bounds its tables from below. */
    method MapPage(pageTable: u32, vaddr: u32, paddr: u32, flags: u32, ghost lo: nat) returns (r: Result<()>)
      requires Valid() && pageTable >= KERNEL_BASE
      requires WellFormed(mem[..], pageTable - KERNEL_BASE, lo, Top())
      modifies this`nextPaddr, mem
      ensures r == if vaddr % PAGE_SIZE != 0 then Halt(UnalignedVaddr)
                   else if paddr % PAGE_SIZE != 0 then Halt(UnalignedPaddr)
                   else if Present(old(Entry(mem[..], pageTable - KERNEL_BASE, vaddr / PAGE_SIZE / ENTRIES)))
                       then Ok(())
                   else Granted(onBoot, old(Top()), old(Top()) + PAGE_SIZE)
      ensures r.Ok? ==> Valid() && PageMapped(old(mem[..]), old(Top()), mem[..], Top(), pageTable - KERNEL_BASE, lo,
                                              vaddr / PAGE_SIZE, OrFrame(paddr, flags), flags % PAGE_SIZE)
      ensures r.Halt? && r.panic != PageFault ==> mem[..] == old(mem[..])
      ensures r == Halt(PageFault) ==> BootBroken(old(mem[..]), mem[..])
    {
      hide PageMapped, TableLinked, WellFormed, WalkPage, Word, BootBroken, OrFrame, Granted;
      if vaddr % PAGE_SIZE != 0 {
        return Halt(UnalignedVaddr);
      }
      if paddr % PAGE_SIZE != 0 {
        return Halt(UnalignedPaddr);
      }
      var dir := pageTable - KERNEL_BASE;
      var pdIndex := vaddr / 0x40_0000 % ENTRIES;
      assert pdIndex == vaddr / PAGE_SIZE / ENTRIES;
      var linked := LinkTable(dir, pdIndex, lo);
      if linked.Halt? {
        return linked;
      }
      ghost var before := mem[..];
      LinkedTable(old(mem[..]), old(Top()), before, Top(), dir, lo, pdIndex);
      var ptIndex := vaddr / PAGE_SIZE % ENTRIES;
      var pde := ReadEntry(dir, pdIndex);
      var pt := FrameOf(pde);
      StoreWord(mem, pt + 4 * ptIndex, OrFrame(paddr, flags) + WithPresent(flags % PAGE_SIZE));
      LinkedThenWritten(old(mem[..]), old(Top()), before, mem[..], Top(), dir, lo, vaddr / PAGE_SIZE,
                        OrFrame(paddr, flags), flags % PAGE_SIZE);
      return Ok(());
    }

    /** Give directory slot pdIndex a table if it has none. */
    method LinkTable(dir: nat, pdIndex: nat, ghost lo: nat) returns (r: Result<()>)
      requires Valid() && WellFormed(mem[..], dir, lo, Top()) && pdIndex < ENTRIES
      modifies this`nextPaddr, mem
      ensures r == if Present(old(Entry(mem[..], dir, pdIndex))) then Ok(())
                   else Granted(onBoot, old(Top()), old(Top()) + PAGE_SIZE)
      ensures r.Ok? ==> Valid() && TableLinked(old(mem[..]), old(Top()), mem[..], Top(), dir, lo, pdIndex)
      ensures r.Halt? && r.panic != PageFault ==> mem[..] == old(mem[..])
      ensures r == Halt(PageFault) ==> BootBroken(old(mem[..]), mem[..])
    {
      hide TableLinked, WalkPage, SameOutsidePages, BootBroken, WellFormed, SameOutside, ZeroWithin, Word, Granted,
           Cuts;
      DirectoryInside(mem[..], dir, lo, Top());
      OnePage(onBoot, Top());
      FrameAligned(Top());
      var pde := ReadEntry(dir, pdIndex);
      if !Present(pde) {
        var pt := AllocPages(1);
        if pt.Halt? {
          return Halt(pt.panic);
        }
        ghost var zeroed := mem[..];
        var ptPaddr := pt.value - KERNEL_BASE;
        var entry := FrameOf(ptPaddr) + (PAGE_P + PAGE_RW + PAGE_U);
        hide Present, FrameOf;
        StoreWord(mem, dir + 4 * pdIndex, entry);
        FreshTableLinked(old(mem[..]), zeroed, mem[..], old(Top()), dir, lo, pdIndex);
      } else {
        AlreadyLinked(mem[..], Top(), dir, lo, pdIndex);
      }
      return Ok(());
    }

    method ReadEntry(table: nat, i: nat) returns (entry: u32)
      requires table + PAGE_SIZE <= mem.Length && i < ENTRIES
      ensures entry == Entry(mem[..], table, i)
    {
      var a := table + 4 * i;
      assert mem[..][a] == mem[a] && mem[..][a + 1] == mem[a + 1] && mem[..][a + 2] == mem[a + 2]
          && mem[..][a + 3] == mem[a + 3];
      var b0: nat, b1: nat, b2: nat, b3: nat := mem[a], mem[a + 1], mem[a + 2], mem[a + 3];
      entry := b0 + 0x100 * b1 + 0x1_0000 * b2 + 0x100_0000 * b3;
    }
  }
}
