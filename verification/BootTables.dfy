/** The VMM's boot page tables (setup_page_tables in src/main.c), and what changes for the
    kernel when it leaves them for a process's directory. */
module BootTables {
  import opened Basics
  import opened PhysicalMemory
  import opened Paging32
  import opened KernelMemory
  import opened AddressSpace
  import opened Scheduler
  import opened Processes
  import Isolation

  const BOOT_LOW := 0x10_1000
  const BOOT_END := 0x10_3000

  ghost predicate WindowTable(m: seq<byte>, table: nat, upto: nat)
    requires table + PAGE_SIZE <= |m| && upto <= ENTRIES
  {
    forall i :: 0 <= i < upto ==> Entry(m, table, i) == i * PAGE_SIZE + KERNEL_FLAGS
  }

  function BootEntry(i: nat): nat {
    if i == 0 then BOOT_LOW + KERNEL_FLAGS else if i == HIGH_SLOT then BOOT_HIGH + KERNEL_FLAGS else 0
  }

  ghost predicate BootDirectory(m: seq<byte>)
    requires BOOT_END <= |m|
  {
    forall i :: 0 <= i < ENTRIES ==> Entry(m, BOOT_DIR, i) == BootEntry(i)
  }

  ghost predicate BootMapped(m: seq<byte>) {
    && BOOT_END <= |m| && BootDirectory(m)
    && WindowTable(m, BOOT_LOW, ENTRIES) && WindowTable(m, BOOT_HIGH, ENTRIES)
  }

  lemma DirectoryKept(m: seq<byte>, m': seq<byte>, lo: nat, hi: nat)
    requires BOOT_END <= |m| && BootDirectory(m) && SameOutside(m, m', lo, hi)
    requires hi <= BOOT_DIR || BOOT_DIR + PAGE_SIZE <= lo
    ensures BootDirectory(m')
  {
    forall i | 0 <= i < ENTRIES
      ensures Entry(m', BOOT_DIR, i) == BootEntry(i)
    {
      EntryKept(m, m', BOOT_DIR, i, lo, hi);
    }
  }

  lemma WindowKept(m: seq<byte>, m': seq<byte>, table: nat, upto: nat, lo: nat, hi: nat)
    requires table + PAGE_SIZE <= |m| && upto <= ENTRIES && WindowTable(m, table, upto) && SameOutside(m, m', lo, hi)
    requires hi <= table || table + 4 * upto <= lo
    ensures WindowTable(m', table, upto)
  {
    forall i | 0 <= i < upto
      ensures Entry(m', table, i) == i * PAGE_SIZE + KERNEL_FLAGS
    {
      EntryKept(m, m', table, i, lo, hi);
    }
  }

  lemma DirectoryWritten(cleared: seq<byte>, m: seq<byte>, m': seq<byte>)
    requires BOOT_END <= |cleared| && ZeroWithin(cleared, BOOT_DIR, BOOT_END)
    requires SameOutside(cleared, m, BOOT_DIR, BOOT_DIR + 4) && Entry(m, BOOT_DIR, 0) == BootEntry(0)
    requires SameOutside(m, m', BOOT_DIR + 4 * HIGH_SLOT, BOOT_DIR + 4 * HIGH_SLOT + 4)
    requires Entry(m', BOOT_DIR, HIGH_SLOT) == BootEntry(HIGH_SLOT)
    ensures BootDirectory(m')
  {
    forall i | 0 <= i < ENTRIES
      ensures Entry(m', BOOT_DIR, i) == BootEntry(i)
    {
      assert Entry(cleared, BOOT_DIR, i) == 0;
      if i != 0 {
        EntryKept(cleared, m, BOOT_DIR, i, BOOT_DIR, BOOT_DIR + 4);
      }
      if i != HIGH_SLOT {
        EntryKept(m, m', BOOT_DIR, i, BOOT_DIR + 4 * HIGH_SLOT, BOOT_DIR + 4 * HIGH_SLOT + 4);
      }
    }
  }

  /** Returns the value for CR3, None for the source's -1. */
  method SetupPageTables(mem: array<byte>) returns (r: Option<nat>)
    modifies mem
    ensures r == if BOOT_END < mem.Length then Some(BOOT_DIR) else None
    ensures r.Some? ==> BootMapped(mem[..]) && SameOutside(old(mem[..]), mem[..], BOOT_DIR, BOOT_END)
    ensures r.None? ==> mem[..] == old(mem[..])
  {
    hide BootDirectory, WindowTable, Entry, Word;
    if BOOT_HIGH + PAGE_SIZE >= mem.Length {
      return None;
    }
    ClearBytes(mem, BOOT_DIR, PAGE_SIZE);
    ClearBytes(mem, BOOT_LOW, PAGE_SIZE);
    ClearBytes(mem, BOOT_HIGH, PAGE_SIZE);
    ghost var cleared := mem[..];
    StoreWord(mem, BOOT_DIR, BOOT_LOW + KERNEL_FLAGS);
    ghost var first := mem[..];
    assert Entry(first, BOOT_DIR, 0) == BootEntry(0) by { EntryIsWord(first, BOOT_DIR, 0); }
    StoreWord(mem, BOOT_DIR + 4 * HIGH_SLOT, BOOT_HIGH + KERNEL_FLAGS);
    ghost var second := mem[..];
    assert Entry(second, BOOT_DIR, HIGH_SLOT) == BootEntry(HIGH_SLOT) by { EntryIsWord(second, BOOT_DIR, HIGH_SLOT); }
    DirectoryWritten(cleared, first, second);
    FillWindow(mem, BOOT_LOW);
    ghost var low := mem[..];
    DirectoryKept(second, low, BOOT_LOW, BOOT_HIGH);
    FillWindow(mem, BOOT_HIGH);
    DirectoryKept(low, mem[..], BOOT_HIGH, BOOT_END);
    WindowKept(low, mem[..], BOOT_LOW, ENTRIES, BOOT_HIGH, BOOT_END);
    return Some(BOOT_DIR);
  }

  lemma EntryIsWord(m: seq<byte>, table: nat, i: nat)
    requires table + PAGE_SIZE <= |m| && i < ENTRIES
    ensures Entry(m, table, i) == Word(m, table + 4 * i)
  {
  }

  /** for (i = 0; i < 1024; i++) table[i] = (i << 12) | 0x03; */
  method FillWindow(mem: array<byte>, table: nat)
    requires table + PAGE_SIZE <= mem.Length
    modifies mem
    ensures WindowTable(mem[..], table, ENTRIES)
    ensures SameOutside(old(mem[..]), mem[..], table, table + PAGE_SIZE)
  {
    var i := 0;
    while i < ENTRIES
      invariant i <= ENTRIES && WindowTable(mem[..], table, i)
      invariant SameOutside(old(mem[..]), mem[..], table, table + PAGE_SIZE)
    {
      ghost var before := mem[..];
      StoreWord(mem, table + 4 * i, i * PAGE_SIZE + KERNEL_FLAGS);
      WindowKept(before, mem[..], table, i, table + 4 * i, table + 4 * i + 4);
      EntryIsWord(mem[..], table, i);
      i := i + 1;
    }
  }

  // ---------------------------------------------------------------- what the kernel sees

  /** Under CR3 = dir, both 4 MB windows lead to physical 0.. with the U bit clear. */
  ghost predicate KernelSees(m: seq<byte>, dir: nat) {
    forall va: u32 :: KernelVa(va) ==>
        Walk(m, dir, va) == Some(va % KERNEL_BASE) && UserAccess(m, dir, va, false) == None
  }

  lemma WindowEntryBits(k: nat)
    requires k <= 0x10_2
    ensures var e := k * PAGE_SIZE + KERNEL_FLAGS;
            FrameOf(e) == k * PAGE_SIZE && FlagsOf(e) == KERNEL_FLAGS && Present(e) && !LargePage(e)
  {
    assert (k * PAGE_SIZE + KERNEL_FLAGS) / 0x80 == 0x20 * k;
    LowBits(k, KERNEL_FLAGS);
  }

  function BootPage(page: Page): Translation {
    if page < REGION then Small(page * PAGE_SIZE, KERNEL_FLAGS, KERNEL_FLAGS)
    else if HIGH_PAGE <= page < HIGH_PAGE + REGION
        then Small((page - HIGH_PAGE) * PAGE_SIZE, KERNEL_FLAGS, KERNEL_FLAGS)
    else NotPresent
  }

  lemma BootWalkPage(m: seq<byte>, page: Page)
    requires BootMapped(m)
    ensures WalkPage(m, BOOT_DIR, page) == BootPage(page)
  {
    var i, j := page / ENTRIES, page % ENTRIES;
    assert Entry(m, BOOT_DIR, i) == BootEntry(i);
    if i == 0 || i == HIGH_SLOT {
      var table := if i == 0 then BOOT_LOW else BOOT_HIGH;
      WindowEntryBits(table / PAGE_SIZE);
      assert Entry(m, table, j) == j * PAGE_SIZE + KERNEL_FLAGS;
      SmallEntryBits(j);
    }
  }

  lemma SmallEntryBits(j: nat)
    requires j < ENTRIES
    ensures var e := j * PAGE_SIZE + KERNEL_FLAGS;
            FrameOf(e) == j * PAGE_SIZE && FlagsOf(e) == KERNEL_FLAGS && Present(e)
  {
    LowBits(j, KERNEL_FLAGS);
  }

  /** The boot tables translate exactly the two windows, read-write for the supervisor. */
  lemma BootWalk(m: seq<byte>, va: u32)
    requires BootMapped(m)
    ensures WalkPage(m, 0x10_0000, va / 0x1000) ==
            if va < 0x40_0000 then Small(va / 0x1000 * 0x1000, 3, 3)
            else if 0x8000_0000 <= va < 0x8040_0000 then Small((va - 0x8000_0000) / 0x1000 * 0x1000, 3, 3)
            else NotPresent
    ensures Walk(m, BOOT_DIR, va) == if KernelVa(va) then Some(va % KERNEL_BASE) else None
    ensures UserAccess(m, BOOT_DIR, va, false) == None
  {
    hide BootMapped, WalkPage;
    BootWalkPage(m, va / PAGE_SIZE);
  }

  /** Loading a process's directory over the boot one, or over another process's,
      changes no translation the kernel uses. */
  lemma SwitchKeepsKernelView(m: seq<byte>, lo: nat, n: nat)
    requires BootMapped(m) && Layout(m, lo, n)
    ensures KernelSees(m, BOOT_DIR) && KernelSees(m, lo)
  {
    forall va: u32 | KernelVa(va)
      ensures Walk(m, BOOT_DIR, va) == Some(va % KERNEL_BASE) && UserAccess(m, BOOT_DIR, va, false) == None
      ensures Walk(m, lo, va) == Some(va % KERNEL_BASE) && UserAccess(m, lo, va, false) == None
    {
      BootWalk(m, va);
      Isolation.KernelWindows(m, lo, n, va);
    }
  }

  /** Whichever process's directory CR3 names, the kernel sees the same memory. */
  lemma EveryDirectoryKeepsView(m: seq<byte>, procs: Table, pages: seq<nat>, base: nat, top: nat)
    requires SystemOk(m, procs, pages, base, top)
    ensures forall t :: 0 <= t < PROCS_MAX && Used(procs[t]) ==> KernelSees(m, procs[t].pageTable)
  {
    forall t | 0 <= t < PROCS_MAX && Used(procs[t])
      ensures KernelSees(m, procs[t].pageTable)
    {
      var lo, n := procs[t].pageTable, pages[t];
      assert Layout(m, lo, n);
      forall va: u32 | KernelVa(va)
        ensures Walk(m, lo, va) == Some(va % KERNEL_BASE) && UserAccess(m, lo, va, false) == None
      {
        Isolation.KernelWindows(m, lo, n, va);
      }
    }
  }

  // ---------------------------------------------------------------- how long the boot tables last

  /** What alloc_pages(1) does to memory when it hands out the page at a. */
  function ZeroPage(m: seq<byte>, a: nat): (m': seq<byte>)
    requires a + PAGE_SIZE <= |m|
    ensures |m'| == |m|
  {
    m[..a] + Zeros(PAGE_SIZE) + m[a + PAGE_SIZE..]
  }

  lemma ZeroPageEffect(m: seq<byte>, a: nat)
    requires a + PAGE_SIZE <= |m|
    ensures SameOutside(m, ZeroPage(m, a), a, a + PAGE_SIZE) && ZeroWithin(ZeroPage(m, a), a, a + PAGE_SIZE)
  {
  }

  /** Handing out one page leaves the kernel's view intact exactly if it is no boot table. */
  lemma BootSurvivesPage(m: seq<byte>, a: nat)
    requires BootMapped(m) && a + PAGE_SIZE <= |m| && a % PAGE_SIZE == 0
    ensures KernelSees(ZeroPage(m, a), BOOT_DIR) <==> a != 0x10_0000 && a != 0x10_1000 && a != 0x10_2000
    ensures a != BOOT_DIR && a != BOOT_LOW && a != BOOT_HIGH ==> BootMapped(ZeroPage(m, a))
  {
    var m' := ZeroPage(m, a);
    ZeroPageEffect(m, a);
    if a == BOOT_DIR {
      assert Entry(m', BOOT_DIR, 0) == 0;
      assert Walk(m', BOOT_DIR, 0) == None;
    } else if a == BOOT_LOW {
      DirectoryKept(m, m', a, a + PAGE_SIZE);
      assert Entry(m', BOOT_DIR, 0) == BootEntry(0) && Entry(m', BOOT_LOW, 0) == 0;
      assert Walk(m', BOOT_DIR, 0) == None;
    } else if a == BOOT_HIGH {
      DirectoryKept(m, m', a, a + PAGE_SIZE);
      assert Entry(m', BOOT_DIR, HIGH_SLOT) == BootEntry(HIGH_SLOT) && Entry(m', BOOT_HIGH, 0) == 0;
      assert Walk(m', BOOT_DIR, KERNEL_BASE) == None;
    } else {
      BootOutlives(m, m', a, a + PAGE_SIZE);
      forall va: u32 | KernelVa(va)
        ensures Walk(m', BOOT_DIR, va) == Some(va % KERNEL_BASE) && UserAccess(m', BOOT_DIR, va, false) == None
      {
        BootWalk(m', va);
      }
    }
  }

  lemma BootOutlives(m: seq<byte>, m': seq<byte>, lo: nat, hi: nat)
    requires BootMapped(m) && SameOutside(m, m', lo, hi) && (hi <= BOOT_DIR || BOOT_END <= lo)
    ensures BootMapped(m')
  {
    DirectoryKept(m, m', lo, hi);
    WindowKept(m, m', BOOT_LOW, ENTRIES, lo, hi);
    WindowKept(m, m', BOOT_HIGH, ENTRIES, lo, hi);
  }

  // ---------------------------------------------------------------- creating a process under the boot directory

  /** [lo, hi) shares a byte with the boot tables. */
  predicate MeetsBoot(lo: nat, hi: nat) { lo < BOOT_END && BOOT_DIR < hi }

  /** A process's region is large enough that meeting the boot tables at all means covering the
      directory or the kernel window's table. */
  lemma RegionCuts(lo: nat, n: nat)
    requires lo % PAGE_SIZE == 0 && n >= 4
    ensures Cuts(lo, RegionEnd(lo, n)) <==> MeetsBoot(lo, RegionEnd(lo, n))
  {
    var p := lo / 0x1000;
    assert lo == 0x1000 * p && RegionEnd(lo, n) == 0x1000 * (p + 4 + n);
  }

  /** No address of the kernel's window translates: its next instruction faults. */
  ghost predicate KernelBlind(m: seq<byte>) {
    forall va: u32 :: KERNEL_BASE <= va < KERNEL_BASE + 0x40_0000 ==> Walk(m, BOOT_DIR, va) == None
  }

  /** Clearing the boot directory, or its kernel table, leaves the kernel blind. */
  lemma BootBrokenBlinds(m0: seq<byte>, m: seq<byte>)
    requires BootMapped(m0) && BootBroken(m0, m)
    ensures KernelBlind(m)
  {
    forall va: u32 | KERNEL_BASE <= va < KERNEL_BASE + 0x40_0000
      ensures Walk(m, BOOT_DIR, va) == None
    {
      BlindAt(m0, m, va);
    }
  }

  lemma BlindAt(m0: seq<byte>, m: seq<byte>, va: u32)
    requires BootMapped(m0) && BootBroken(m0, m) && KERNEL_BASE <= va < KERNEL_BASE + 0x40_0000
    ensures Walk(m, BOOT_DIR, va) == None
  {
    var page := va / PAGE_SIZE;
    assert page / ENTRIES == HIGH_SLOT;
    if ZeroWithin(m, BOOT_DIR, BOOT_DIR + PAGE_SIZE) {
      ZeroEntry(m, BOOT_DIR, HIGH_SLOT);
    } else {
      WindowEntryBits(BOOT_HIGH / PAGE_SIZE);
      assert Entry(m, BOOT_DIR, HIGH_SLOT) == Entry(m0, BOOT_DIR, HIGH_SLOT) == BootEntry(HIGH_SLOT);
      ZeroEntry(m, BOOT_HIGH, page % ENTRIES);
    }
  }

  lemma ZeroEntry(m: seq<byte>, table: nat, i: nat)
    requires table + PAGE_SIZE <= |m| && i < ENTRIES && ZeroWithin(m, table, table + PAGE_SIZE)
    ensures Entry(m, table, i) == 0 && !Present(Entry(m, table, i))
  {
  }

  lemma KernelSeesBoot(m: seq<byte>)
    requires BootMapped(m)
    ensures KernelSees(m, BOOT_DIR)
  {
    forall va: u32 | KernelVa(va)
      ensures Walk(m, BOOT_DIR, va) == Some(va % KERNEL_BASE) && UserAccess(m, BOOT_DIR, va, false) == None
    {
      BootWalk(m, va);
    }
  }

  /** At every point of create_process's run away from the boot tables: the next page it takes
      leaves the kernel's view intact exactly if that is no boot table. */
  lemma BootSurvivesCreate(m0: seq<byte>, m: seq<byte>, lo: nat, g: Progress, top: nat, image: seq<byte>)
    requires BootMapped(m0) && Building(m0, m, lo, g, top, image) && top + PAGE_SIZE <= |m| && !MeetsBoot(lo, top)
    ensures KernelSees(m, BOOT_DIR)
    ensures KernelSees(ZeroPage(m, top), BOOT_DIR) <==> !MeetsBoot(top, top + PAGE_SIZE)
  {
    BuildingParts(m0, m, lo, g, top, image);
    BootOutlives(m0, m, lo, top);
    KernelSeesBoot(m);
    BootSurvivesPage(m, top);
    var p := top / 0x1000;
    assert top == 0x1000 * p;
  }

  /** A process created away from the boot tables leaves them, so the kernel can go on under
      either directory. */
  lemma CreatedBesideBoot(m: seq<byte>, ps: Table, top: nat, m': seq<byte>, ps': Table, top': nat, slot: nat,
      image: seq<byte>)
    requires BootMapped(m) && ProcessCreated(m, ps, top, m', ps', top', slot, image)
    requires !MeetsBoot(top, top')
    ensures BootMapped(m') && KernelSees(m', BOOT_DIR) && KernelSees(m', ps'[slot].pageTable)
  {
    BootOutlives(m, m', top, top');
    SwitchKeepsKernelView(m', top, UserPages(|image|));
  }

  lemma Blinded(m: seq<byte>, m': seq<byte>, panic: Panic)
    requires panic == PageFault ==> BootBroken(m, m')
    ensures BootMapped(m) && panic == PageFault ==> KernelBlind(m')
  {
    hide BootMapped, BootBroken, KernelBlind;
    if BootMapped(m) && panic == PageFault {
      BootBrokenBlinds(m, m');
    }
  }

  /** Under the boot directory, a creation that was granted keeps the kernel's view. */
  lemma GrantedView(m: seq<byte>, ps: Table, top: nat, m': seq<byte>, ps': Table, top': nat, slot: nat,
      image: seq<byte>, onBoot: bool)
    requires ProcessCreated(m, ps, top, m', ps', top', slot, image) && top % PAGE_SIZE == 0
    requires Granted(onBoot, top, RegionEnd(top, UserPages(|image|))).Ok?
    ensures slot < PROCS_MAX
    ensures BootMapped(m) && onBoot ==>
              BootMapped(m') && KernelSees(m', BOOT_DIR) && KernelSees(m', ps'[slot].pageTable)
  {
    CreatedTable(m, ps, top, m', ps', top', slot, image);
    GrantedBesideBoot(top, |image|);
    hide ProcessCreated, BootMapped, KernelSees;
    if BootMapped(m) && onBoot {
      CreatedBesideBoot(m, ps, top, m', ps', top', slot, image);
    }
  }

  /** Idle's region and the shell's together. */
  lemma BootGranted(lo: nat, size: nat)
    requires lo % PAGE_SIZE == 0
    ensures var mid := RegionEnd(lo, 4);
            var end := RegionEnd(mid, UserPages(size));
            (if Granted(true, lo, mid).Ok? then Granted(true, mid, end) else Granted(true, lo, mid))
            == if MeetsBoot(lo, end) then Halt(PageFault) else if end <= TOP_LIMIT then Ok(()) else Halt(OutOfMemory)
  {
    var mid := RegionEnd(lo, 4);
    var n := UserPages(size) + 8;
    UserPagesPositive(size);
    assert RegionEnd(mid, UserPages(size)) == RegionEnd(lo, n);
    GrantedThen(true, lo, mid, RegionEnd(lo, n));
    RegionCuts(lo, n);
  }

  /** What a granted region means while the boot directory is loaded. */
  lemma GrantedBesideBoot(lo: nat, size: nat)
    requires lo % PAGE_SIZE == 0
    ensures var end := RegionEnd(lo, UserPages(size));
            Granted(true, lo, end) == if MeetsBoot(lo, end) then Halt(PageFault) else if end <= TOP_LIMIT then Ok(())
                else Halt(OutOfMemory)
  {
    UserPagesPositive(size);
    RegionCuts(lo, UserPages(size));
  }
}
