/** What the address spaces keep apart. Through its user mapping, the pages with the U bit, a
    process reaches only its own frames: a write there changes neither a translation nor
    another process's memory. But processes run at privilege level 0, where the U bit
    restricts nothing and the kernel's windows are open too: which stores then stay apart is
    the second part. */
module Isolation {
  import opened Basics
  import opened PhysicalMemory
  import opened Paging32
  import opened KernelMemory
  import opened AddressSpace
  import opened Scheduler
  import opened Processes

  lemma LayoutWalks(m: seq<byte>, lo: nat, n: nat, page: Page)
    requires Layout(m, lo, n)
    ensures 4 <= n <= REGION && lo % PAGE_SIZE == 0
    ensures WalkPage(m, lo, page) == ExpectedPage(lo, Finished(n), page)
  {
    hide WalkPage, ExpectedPage;
  }

  lemma UserBits()
    ensures forall frame: nat :: UserMay(Small(frame, TABLE_FLAGS, USER_FLAGS), true)
              && UserMay(Small(frame, TABLE_FLAGS, USER_FLAGS), false)
    ensures forall frame: nat, write: bool :: !UserMay(Small(frame, TABLE_FLAGS, KERNEL_FLAGS), write)
  {
  }

  /** The exact user mapping of a process: an address has the U bit at both levels exactly if
      it lies in the user pages, and then leads into the process's own frames. */
  lemma UserAccessExactly(m: seq<byte>, lo: nat, n: nat, va: u32, write: bool)
    requires Layout(m, lo, n)
    ensures var a := UserAccess(m, lo, va, write);
            if USER_BASE <= va < USER_BASE + n * PAGE_SIZE
            then a == Some(UserFrame(lo, va / PAGE_SIZE - USER_PAGE) + va % PAGE_SIZE) else a == None
  {
    LayoutWalks(m, lo, n, va / PAGE_SIZE);
    UserBits();
    hide Layout, WalkPage, UserMay, UserFrame;
  }

  /** Every page of a process's address space with its flags: both kernel windows read-write
      without U, the user pages read-write with U on the process's own frames, nothing else. */
  lemma EveryPage(m: seq<byte>, lo: nat, n: nat, page: Page)
    requires Layout(m, lo, n)
    ensures WalkPage(m, lo, page) ==
            if page < 0x400 then Small(page * 0x1000, 7, 3)
            else if 0x8_0000 <= page < 0x8_0400 then Small((page - 0x8_0000) * 0x1000, 7, 3)
            else if page == 0x1000 then Small(lo + 0x3000, 7, 7)
            else if 0x1000 < page < 0x1000 + n then Small(lo + (page - 0x1000) * 0x1000 + 0x4000, 7, 7)
            else NotPresent
  {
    LayoutWalks(m, lo, n, page);
    hide Layout, WalkPage;
  }

  /** The user pages end at the first page boundary at or after the image's end and 16 KB. */
  lemma PagesCover(size: nat)
    ensures var end := UserPages(size) * 0x1000;
            size <= end && 0x4000 <= end && (end == 0x4000 || end < size + 0x1000)
  {
  }

  /** What a process finds at an address of its user window: the image, then zeros up to the end
      of the last page that the image or the 16 KB begin. */
  lemma UserByte(m: seq<byte>, lo: nat, image: seq<byte>, va: u32, write: bool)
    requires Layout(m, lo, UserPages(|image|)) && Loaded(m, lo, UserPages(|image|), image)
    ensures var access, i := UserAccess(m, lo, va, write), va - 0x0100_0000;
            && (access.Some? <==> 0 <= i && (i / 0x1000 * 0x1000 < |image| || i < 0x4000))
            && (access.Some? ==>
                  access.value < |m| && m[access.value] == if i < |image| then image[i] else 0)
  {
    var n := UserPages(|image|);
    PagesCover(|image|);
    UserAccessExactly(m, lo, n, va, write);
    var page, r := va / 0x1000, va % 0x1000;
    assert va == 0x1000 * page + r;
    hide UserAccess, Layout, UserPages, UserFrame;
    if InUserWindow(va, n) {
      var k := page - USER_PAGE;
      assert va - 0x0100_0000 == k * 0x1000 + r;
      assert FrameHolds(m, UserFrame(lo, k), image, k);
    }
  }

  /** The process with that directory has its program in place, and nothing else in its window. */
  ghost predicate ImageInPlace(m: seq<byte>, dir: nat, image: seq<byte>) {
    forall va: u32, write: bool ::
      var access, i := UserAccess(m, dir, va, write), va - 0x0100_0000;
      && (access.Some? <==> 0 <= i && (i / 0x1000 * 0x1000 < |image| || i < 0x4000))
      && (access.Some? ==> access.value < |m| && m[access.value] == if i < |image| then image[i] else 0)
  }

  lemma LoadedInPlace(m: seq<byte>, lo: nat, image: seq<byte>)
    requires Layout(m, lo, UserPages(|image|)) && Loaded(m, lo, UserPages(|image|), image)
    ensures ImageInPlace(m, lo, image)
  {
    hide Layout, Loaded, UserAccess, UserPages;
    forall va: u32, write: bool
      ensures var access, i := UserAccess(m, lo, va, write), va - 0x0100_0000;
              && (access.Some? <==> 0 <= i && (i / 0x1000 * 0x1000 < |image| || i < 0x4000))
              && (access.Some? ==> access.value < |m| && m[access.value] == if i < |image| then image[i] else 0)
    {
      UserByte(m, lo, image, va, write);
    }
  }

  lemma WindowPages(va: u32)
    ensures var page := va / PAGE_SIZE;
            && (va < 0x40_0000 ==> page < REGION && page * PAGE_SIZE + va % PAGE_SIZE == va % KERNEL_BASE)
            && (KERNEL_BASE <= va < KERNEL_BASE + 0x40_0000 ==>
                  HIGH_PAGE <= page < HIGH_PAGE + REGION
                      && (page - HIGH_PAGE) * PAGE_SIZE + va % PAGE_SIZE == va % KERNEL_BASE)
  {
    var page, r := va / 0x1000, va % 0x1000;
    assert va == 0x1000 * page + r;
    assert KERNEL_BASE <= va < KERNEL_BASE + 0x40_0000 ==> va % 0x8000_0000 == va - 0x8000_0000;
  }

  /** The kernel's own view: both 4 MB windows lead to physical 0.., with the U bit clear. */
  lemma KernelWindows(m: seq<byte>, lo: nat, n: nat, va: u32)
    requires Layout(m, lo, n)
    requires KernelVa(va)
    ensures Walk(m, lo, va) == Some(va % KERNEL_BASE)
    ensures UserAccess(m, lo, va, false) == None
  {
    LayoutWalks(m, lo, n, va / PAGE_SIZE);
    UserBits();
    WindowPages(va);
    hide Layout, WalkPage, UserMay, UserFrame;
  }

  /** A byte written into a user frame touches none of the process's tables. */
  lemma FrameWriteKeepsLayout(m: seq<byte>, lo: nat, n: nat, k: nat, offset: nat, b: byte)
    requires Layout(m, lo, n) && k < n && offset < PAGE_SIZE
    ensures UserFrame(lo, k) + offset < |m| && Layout(m[UserFrame(lo, k) + offset := b], lo, n)
  {
    var a := UserFrame(lo, k) + offset;
    assert lo % PAGE_SIZE == 0;
    FrameIsNoTable(lo, k, n);
    assert a < lo + PagesFor(n) * PAGE_SIZE <= |m|;
    var m' := m[a := b];
    assert SameOutside(m, m', a, a + 1);
    forall i | 0 <= i < ENTRIES
      ensures Entry(m', lo, i) == Entry(m, lo, i)
    {
      EntryKept(m, m', lo, i, a, a + 1);
    }
    SameEntriesWellFormed(m, m', lo, lo, lo + PagesFor(n) * PAGE_SIZE);
    forall p: Page
      ensures WalkPage(m', lo, p) == WalkPage(m, lo, p)
    {
      FrameWriteKeepsWalk(m, m', lo, n, a, p);
    }
  }

  lemma FrameWriteKeepsWalk(m: seq<byte>, m': seq<byte>, lo: nat, n: nat, a: nat, p: Page)
    requires Layout(m, lo, n) && SameOutside(m, m', a, a + 1)
    requires lo + 3 * PAGE_SIZE <= a && (a < lo + 4 * PAGE_SIZE || lo + 5 * PAGE_SIZE <= a)
    ensures WalkPage(m', lo, p) == WalkPage(m, lo, p)
  {
    assert lo % PAGE_SIZE == 0;
    EntryKept(m, m', lo, p / ENTRIES, a, a + 1);
    var i := p / ENTRIES;
    assert Entry(m, lo, i) == ExpectedEntry(lo, Finished(n), i);
    assert lo + 5 * PAGE_SIZE <= |m| && lo + 5 * PAGE_SIZE <= WORD_LIMIT;
    hide Stage, Entry, SameOutside, Layout;
    if i == HIGH_SLOT {
      WalkThroughTable(m, m', lo, p, 1, a);
    } else if i == 0 {
      WalkThroughTable(m, m', lo, p, 2, a);
    } else if i == USER_SLOT {
      WalkThroughTable(m, m', lo, p, 4, a);
    } else {
      WalkPageFrame(m, m', lo, p);
    }
  }

  lemma WalkThroughTable(m: seq<byte>, m': seq<byte>, dir: nat, p: Page, c: nat, a: nat)
    requires SameOutside(m, m', a, a + 1) && dir % PAGE_SIZE == 0 && 1 <= c <= 4
    requires dir + 5 * PAGE_SIZE <= |m| && dir + 5 * PAGE_SIZE <= WORD_LIMIT
    requires Entry(m, dir, p / ENTRIES) == Entry(m', dir, p / ENTRIES) == dir + c * PAGE_SIZE + TABLE_FLAGS
    requires a < dir + c * PAGE_SIZE || dir + (c + 1) * PAGE_SIZE <= a
    ensures WalkPage(m', dir, p) == WalkPage(m, dir, p)
  {
    hide Word;
    var table := dir + c * PAGE_SIZE;
    assert table == PAGE_SIZE * (dir / PAGE_SIZE + c);
    LowBits(dir / PAGE_SIZE + c, 0);
    TableEntryBits(table);
    EntryKept(m, m', table, p % ENTRIES, a, a + 1);
    WalkPageFrame(m, m', dir, p);
  }

  /** A user frame lies inside the process's own region. */
  lemma FrameInRegion(m: seq<byte>, lo: nat, n: nat, va: u32, write: bool)
    requires Layout(m, lo, n) && UserAccess(m, lo, va, write).Some?
    ensures lo <= UserAccess(m, lo, va, write).value < RegionEnd(lo, n) <= |m|
  {
    UserAccessExactly(m, lo, n, va, write);
    FrameIsNoTable(lo, va / PAGE_SIZE - USER_PAGE, n);
  }

  /** The memory of a process through its user mapping: same translations, same bytes. */
  ghost predicate SameUserView(m: seq<byte>, m': seq<byte>, dir: nat) {
    && |m| == |m'|
    && (forall va: u32, write: bool :: UserAccess(m', dir, va, write) == UserAccess(m, dir, va, write))
    && (forall va: u32, a: nat :: UserAccess(m, dir, va, false) == Some(a) && a < |m| ==> m'[a] == m[a])
  }

  /** A write through one process's user mapping keeps every address space, stays above the
      kernel image, and is invisible through every other process's user mapping. */
  lemma UserWriteIsolated(m: seq<byte>, procs: Table, pages: seq<nat>, base: nat, top: nat, s: nat, va: u32, b: byte)
    requires SystemOk(m, procs, pages, base, top) && s < PROCS_MAX && Used(procs[s])
    requires UserAccess(m, procs[s].pageTable, va, true).Some?
    ensures var a := UserAccess(m, procs[s].pageTable, va, true).value;
            && base <= a < |m|
            && SystemOk(m[a := b], procs, pages, base, top)
            && UserAccess(m[a := b], procs[s].pageTable, va, false) == Some(a)
            && (forall t :: 0 <= t < PROCS_MAX && t != s && Used(procs[t]) ==>
                 SameUserView(m, m[a := b], procs[t].pageTable))
  {
    var lo, n := procs[s].pageTable, pages[s];
    assert Layout(m, lo, n);
    var a := UserAccess(m, lo, va, true).value;
    UserAccessExactly(m, lo, n, va, true);
    FrameInRegion(m, lo, n, va, true);
    FrameWriteKeepsLayout(m, lo, n, va / PAGE_SIZE - USER_PAGE, va % PAGE_SIZE, b);
    UserAccessExactly(m[a := b], lo, n, va, false);
    forall t | 0 <= t < PROCS_MAX && t != s && Used(procs[t])
      ensures Layout(m[a := b], procs[t].pageTable, pages[t]) && SameUserView(m, m[a := b], procs[t].pageTable)
    {
      assert Layout(m, procs[t].pageTable, pages[t]);
      assert Apart(lo, n, procs[t].pageTable, pages[t]);
      ViewKept(m, a, b, procs[t].pageTable, pages[t]);
    }
  }

  lemma ViewKept(m: seq<byte>, a: nat, b: byte, lo: nat, n: nat)
    requires Layout(m, lo, n) && a < |m| && !(lo <= a < RegionEnd(lo, n))
    ensures Layout(m[a := b], lo, n) && SameUserView(m, m[a := b], lo)
  {
    var m' := m[a := b];
    StageFrame(m, m', lo, Finished(n), RegionEnd(lo, n), RegionEnd(lo, n));
    forall va: u32, write: bool
      ensures UserAccess(m', lo, va, write) == UserAccess(m, lo, va, write)
    {
      UserAccessExactly(m, lo, n, va, write);
      UserAccessExactly(m', lo, n, va, write);
    }
    forall va: u32, c: nat | UserAccess(m, lo, va, false) == Some(c) && c < |m|
      ensures m'[c] == m[c]
    {
      FrameInRegion(m, lo, n, va, false);
    }
  }

  // ---------------------------------------------------------------- privilege level 0

  /** The user window of a process with n user pages. */
  predicate InUserWindow(va: u32, n: nat) { USER_BASE <= va < USER_BASE + n * PAGE_SIZE }

  /** Where an access at privilege level 0 goes: every mapped page is open, for writing too. */
  lemma SupervisorAccessExactly(m: seq<byte>, lo: nat, n: nat, va: u32)
    requires Layout(m, lo, n)
    ensures Walk(m, lo, va) ==
            if InUserWindow(va, n) then Some(UserFrame(lo, va / PAGE_SIZE - USER_PAGE) + va % PAGE_SIZE)
            else if KernelVa(va) then Some(va % KERNEL_BASE) else None
    ensures InUserWindow(va, n) ==> !KernelVa(va) && Walk(m, lo, va) == UserAccess(m, lo, va, true)
  {
    LayoutWalks(m, lo, n, va / PAGE_SIZE);
    WindowPages(va);
    UserBits();
    hide Layout, WalkPage, UserFrame, UserMay;
  }

  /** So the code of any process reaches every byte of the first 4 MB, at the kernel's address
      and at its own: the kernel at 0x1000, and every other process's directory, tables and
      frames. */
  lemma WindowsReachEverything(m: seq<byte>, lo: nat, n: nat, a: nat)
    requires Layout(m, lo, n) && a < 0x40_0000
    ensures Walk(m, lo, a) == Some(a) && Walk(m, lo, KERNEL_BASE + a) == Some(a)
  {
    SupervisorAccessExactly(m, lo, n, a);
    SupervisorAccessExactly(m, lo, n, KERNEL_BASE + a);
    assert n * PAGE_SIZE <= 0x40_0000;
  }

  /** Directory, tables and frames of a process, and all its translations, are as before. */
  ghost predicate Untouched(m: seq<byte>, m': seq<byte>, lo: nat, n: nat) {
    && SameWithin(m, m', lo, RegionEnd(lo, n))
    && (forall p: Page :: WalkPage(m', lo, p) == WalkPage(m, lo, p))
    && SameUserView(m, m', lo)
  }

  /** Byte a of memory belongs to a process other than s. */
  ghost predicate Foreign(procs: Table, pages: seq<nat>, s: nat, a: nat)
    requires |pages| == PROCS_MAX
  {
    exists t :: 0 <= t < PROCS_MAX && t != s && Used(procs[t])
        && procs[t].pageTable <= a < RegionEnd(procs[t].pageTable, pages[t])
  }

  /** Storing b at a leaves every process but s untouched. */
  ghost predicate OthersKept(m: seq<byte>, a: nat, b: byte, procs: Table, pages: seq<nat>, s: nat)
    requires a < |m| && |pages| == PROCS_MAX
  {
    forall t :: 0 <= t < PROCS_MAX && t != s && Used(procs[t]) ==> Untouched(m, m[a := b], procs[t].pageTable, pages[t])
  }

  /** A store by process s at privilege level 0 leaves every other process untouched, whatever
      the byte, exactly if it goes through the user window, or through one of the kernel's
      windows to memory that belongs to none of them. */
  lemma StoreIsolatedExactly(m: seq<byte>, procs: Table, pages: seq<nat>, base: nat, top: nat, s: nat, va: u32)
    requires SystemOk(m, procs, pages, base, top) && s < PROCS_MAX && Used(procs[s])
    requires Walk(m, procs[s].pageTable, va).Some? && Walk(m, procs[s].pageTable, va).value < |m|
    ensures (forall b: byte :: OthersKept(m, Walk(m, procs[s].pageTable, va).value, b, procs, pages, s))
       <==> InUserWindow(va, pages[s]) || (KernelVa(va) && !Foreign(procs, pages, s, va % KERNEL_BASE))
  {
    var lo, n := procs[s].pageTable, pages[s];
    var a := Walk(m, lo, va).value;
    StoreTarget(m, procs, pages, base, top, s, va);
    hide Walk, SystemOk, Layout, Untouched;
    if Foreign(procs, pages, s, a) {
      var t :| 0 <= t < PROCS_MAX && t != s && Used(procs[t])
          && procs[t].pageTable <= a < RegionEnd(procs[t].pageTable, pages[t]);
      var b: byte := if m[a] == 0 then 1 else 0;
      Touched(m, a, b, procs[t].pageTable, pages[t]);
      assert !OthersKept(m, a, b, procs, pages, s);
    } else {
      forall b: byte
        ensures OthersKept(m, a, b, procs, pages, s)
      {
        StoreKeepsOthers(m, procs, pages, base, top, s, a, b);
      }
    }
  }

  /** The byte a store goes to is foreign exactly if the window leads there. */
  lemma StoreTarget(m: seq<byte>, procs: Table, pages: seq<nat>, base: nat, top: nat, s: nat, va: u32)
    requires SystemOk(m, procs, pages, base, top) && s < PROCS_MAX && Used(procs[s])
    requires Walk(m, procs[s].pageTable, va).Some?
    ensures var a := Walk(m, procs[s].pageTable, va).value;
            !Foreign(procs, pages, s, a) <==>
                InUserWindow(va, pages[s]) || (KernelVa(va) && !Foreign(procs, pages, s, va % KERNEL_BASE))
  {
    var lo, n := procs[s].pageTable, pages[s];
    assert Layout(m, lo, n);
    SupervisorAccessExactly(m, lo, n, va);
    if InUserWindow(va, n) {
      FrameInRegion(m, lo, n, va, true);
      var a := Walk(m, lo, va).value;
      forall t | 0 <= t < PROCS_MAX && t != s && Used(procs[t])
        ensures !(procs[t].pageTable <= a < RegionEnd(procs[t].pageTable, pages[t]))
      {
        assert Apart(lo, n, procs[t].pageTable, pages[t]);
      }
    }
  }

  lemma Touched(m: seq<byte>, a: nat, b: byte, lo: nat, n: nat)
    requires a < |m| && lo <= a < RegionEnd(lo, n) && b != m[a]
    ensures !Untouched(m, m[a := b], lo, n)
  {
    assert m[a := b][a] != m[a];
    hide WalkPage, SameUserView;
  }

  lemma StoreOutside(m: seq<byte>, procs: Table, pages: seq<nat>, base: nat, top: nat, t: nat, a: nat, b: byte)
    requires SystemOk(m, procs, pages, base, top) && t < PROCS_MAX && Used(procs[t]) && a < |m|
    requires !(procs[t].pageTable <= a < RegionEnd(procs[t].pageTable, pages[t]))
    ensures Layout(m[a := b], procs[t].pageTable, pages[t]) && Untouched(m, m[a := b], procs[t].pageTable, pages[t])
  {
    var lo, n := procs[t].pageTable, pages[t];
    assert Layout(m, lo, n);
    ViewKept(m, a, b, lo, n);
    hide SameUserView;
    WellFormedFrame(m, m[a := b], lo, lo, RegionEnd(lo, n));
  }

  lemma StoreKeepsOthers(m: seq<byte>, procs: Table, pages: seq<nat>, base: nat, top: nat, s: nat, a: nat, b: byte)
    requires SystemOk(m, procs, pages, base, top) && a < |m| && !Foreign(procs, pages, s, a)
    ensures OthersKept(m, a, b, procs, pages, s)
  {
    assert |pages| == PROCS_MAX;
    hide SystemOk, Untouched, Layout;
    forall t | 0 <= t < PROCS_MAX && t != s && Used(procs[t])
      ensures Untouched(m, m[a := b], procs[t].pageTable, pages[t])
    {
      StoreOutside(m, procs, pages, base, top, t, a, b);
    }
  }

  lemma StoreEffects(m: seq<byte>, procs: Table, pages: seq<nat>, base: nat, top: nat, s: nat, va: u32, a: nat, b: byte)
    requires SystemOk(m, procs, pages, base, top) && s < PROCS_MAX && Used(procs[s])
    requires Walk(m, procs[s].pageTable, va) == Some(a) && a < |m|
    ensures InUserWindow(va, pages[s]) || !Foreign(procs, pages, s, va % KERNEL_BASE) ==>
              OthersKept(m, a, b, procs, pages, s)
    ensures InUserWindow(va, pages[s]) || !Foreign(procs, pages, PROCS_MAX, a) ==>
              SystemOk(m[a := b], procs, pages, base, top)
  {
    assert Layout(m, procs[s].pageTable, pages[s]);
    SupervisorAccessExactly(m, procs[s].pageTable, pages[s], va);
    StoreTarget(m, procs, pages, base, top, s, va);
    hide Foreign, OthersKept, SystemOk, Layout, Walk;
    if !Foreign(procs, pages, s, a) {
      StoreKeepsOthers(m, procs, pages, base, top, s, a, b);
    }
    if InUserWindow(va, pages[s]) {
      UserWriteIsolated(m, procs, pages, base, top, s, va, b);
    } else if !Foreign(procs, pages, PROCS_MAX, a) {
      StoreBeside(m, procs, pages, base, top, a, b);
    }
  }

  /** A store into no process's memory keeps the whole system. */
  lemma StoreBeside(m: seq<byte>, procs: Table, pages: seq<nat>, base: nat, top: nat, a: nat, b: byte)
    requires SystemOk(m, procs, pages, base, top) && a < |m| && !Foreign(procs, pages, PROCS_MAX, a)
    ensures SystemOk(m[a := b], procs, pages, base, top)
  {
    hide Layout, Untouched;
    forall t | 0 <= t < PROCS_MAX && Used(procs[t])
      ensures Layout(m[a := b], procs[t].pageTable, pages[t])
    {
      StoreOutside(m, procs, pages, base, top, t, a, b);
    }
  }
}
