/** The address space that create_process builds (os-1k/kernel.c), stage by stage:
    what each directory slot holds, what every page translates to, and where the
    process's pages lie. Page 0 of the process's memory, at lo, is its directory. */
module AddressSpace {
  import opened Basics
  import opened PhysicalMemory
  import opened Paging32
  import opened KernelMemory

  const HIGH_PAGE := 0x8_0000      // page number of 0x80000000
  const USER_PAGE := 0x1000        // page number of USER_BASE = 0x01000000
  const REGION := 0x400            // 4 MB in pages
  const HIGH_SLOT := 0x200
  const USER_SLOT := 4
  const TABLE_FLAGS := 7
  const KERNEL_FLAGS := 3          // PAGE_RW | PAGE_P
  const USER_FLAGS := 7            // PAGE_U | PAGE_RW | PAGE_P

  /** The two 4 MB windows onto physical memory. */
  predicate KernelVa(va: u32) {
    va < 0x40_0000 || KERNEL_BASE <= va < KERNEL_BASE + 0x40_0000
  }

  /** Pages handed to a process: directory, one table a region, n user frames. */
  function PagesFor(n: nat): nat { 4 + n }

  /** Frame of the k-th user page: the user table is allocated after the first frame. */
  function UserFrame(lo: nat, k: nat): nat {
    if k == 0 then lo + 3 * PAGE_SIZE else lo + (4 + k) * PAGE_SIZE
  }

  /** How many pages of each region are mapped so far. */
  datatype Progress = Progress(high: nat, low: nat, user: nat) {
    predicate InOrder() {
      && high <= REGION && low <= REGION && user <= REGION
      && (low > 0 ==> high == REGION) && (user > 0 ==> low == REGION)
    }
  }

  function Finished(n: nat): Progress { Progress(REGION, REGION, n) }

  /** Allocator position once those pages are mapped. */
  function TopAfter(lo: nat, g: Progress): nat {
    lo + PAGE_SIZE * (1 + (if g.high > 0 then 1 else 0) + (if g.low > 0 then 1 else 0)
        + (if g.user > 0 then g.user + 1 else 0))
  }

  function ExpectedEntry(lo: nat, g: Progress, slot: nat): nat {
    if slot == HIGH_SLOT && g.high > 0 then lo + PAGE_SIZE + TABLE_FLAGS
    else if slot == 0 && g.low > 0 then lo + 2 * PAGE_SIZE + TABLE_FLAGS
    else if slot == USER_SLOT && g.user > 0 then lo + 4 * PAGE_SIZE + TABLE_FLAGS
    else 0
  }

  /** The kernel half and the identity half are supervisor read-write, user pages are
      user read-write on their own frames, nothing else is present. */
  function ExpectedPage(lo: nat, g: Progress, p: Page): Translation {
    if HIGH_PAGE <= p < HIGH_PAGE + g.high then Small((p - HIGH_PAGE) * PAGE_SIZE, TABLE_FLAGS, KERNEL_FLAGS)
    else if p < g.low then Small(p * PAGE_SIZE, TABLE_FLAGS, KERNEL_FLAGS)
    else if USER_PAGE <= p < USER_PAGE + g.user then Small(UserFrame(lo, p - USER_PAGE), TABLE_FLAGS, USER_FLAGS)
    else NotPresent
  }

  /** The address space under construction. */
  ghost predicate Stage(m: seq<byte>, lo: nat, g: Progress, top: nat) {
    && g.InOrder()
    && WellFormed(m, lo, lo, top)
    && (forall i :: 0 <= i < ENTRIES ==> Entry(m, lo, i) == ExpectedEntry(lo, g, i))
    && (forall p: Page :: WalkPage(m, lo, p) == ExpectedPage(lo, g, p))
  }

  /** A finished address space with n user pages, all of it in [lo, lo + PagesFor(n) pages). */
  ghost predicate Layout(m: seq<byte>, lo: nat, n: nat) {
    4 <= n && Stage(m, lo, Finished(n), lo + PagesFor(n) * PAGE_SIZE)
  }

  function ImageByte(image: seq<byte>, i: nat): byte {
    if i < |image| then image[i] else 0
  }

  ghost predicate FrameHolds(m: seq<byte>, frame: nat, image: seq<byte>, k: nat) {
    && frame + PAGE_SIZE <= |m|
    && forall a :: frame <= a < frame + PAGE_SIZE ==> m[a] == ImageByte(image, k * PAGE_SIZE + (a - frame))
  }

  /** The first n user frames hold the image, then zeros. */
  ghost predicate Loaded(m: seq<byte>, lo: nat, n: nat, image: seq<byte>) {
    forall k :: 0 <= k < n ==> FrameHolds(m, UserFrame(lo, k), image, k)
  }

  // ---------------------------------------------------------------- stages

  lemma EmptyDirectory(m: seq<byte>, lo: nat, top: nat)
    requires lo % PAGE_SIZE == 0 && lo + PAGE_SIZE <= top <= |m| && top <= WORD_LIMIT
    requires ZeroWithin(m, lo, lo + PAGE_SIZE)
    ensures Stage(m, lo, Progress(0, 0, 0), top)
  {
    assert forall i :: 0 <= i < ENTRIES ==> Entry(m, lo, i) == 0;
    forall p: Page
      ensures WalkPage(m, lo, p) == NotPresent
    {
      assert Entry(m, lo, p / ENTRIES) == 0;
    }
  }

  /** Memory outside [lo, top) does not matter to a stage. */
  lemma StageFrame(m: seq<byte>, m': seq<byte>, lo: nat, g: Progress, top: nat, top': nat)
    requires Stage(m, lo, g, top) && SameWithin(m, m', lo, top)
    requires top <= top' <= |m| && top' <= WORD_LIMIT
    ensures Stage(m', lo, g, top')
  {
    WellFormedFrame(m, m', lo, lo, top);
    WellFormedGrows(m', lo, lo, top, top');
  }

  /** Going from g to g' adds one page, and a table at top if its directory slot is empty. */
  ghost predicate Adds(lo: nat, g: Progress, g': Progress, top: nat, page: Page, frame: nat, flags: nat) {
    var slot := page / ENTRIES;
    var was := ExpectedEntry(lo, g, slot);
    && g'.InOrder()
    && ExpectedEntry(lo, g', slot) == (if was == 0 then top + TABLE_FLAGS else was)
    && (was != 0 ==> was % 2 == 1) && ExpectedEntry(lo, g', slot) % PAGE_SIZE == TABLE_FLAGS
    && (forall i :: 0 <= i < ENTRIES && i != slot ==> ExpectedEntry(lo, g', i) == ExpectedEntry(lo, g, i))
    && ExpectedPage(lo, g', page) == Small(frame, TABLE_FLAGS, WithPresent(flags))
    && (forall p: Page :: p != page ==> ExpectedPage(lo, g', p) == ExpectedPage(lo, g, p))
  }

  /** A table's entry in the directory carries its flags. */
  lemma TableFlags(lo: nat, c: nat)
    requires lo % PAGE_SIZE == 0
    ensures (lo + c * PAGE_SIZE + TABLE_FLAGS) % PAGE_SIZE == TABLE_FLAGS && (lo + c * PAGE_SIZE + TABLE_FLAGS) % 2 == 1
  {
    var p := lo / 0x1000;
    assert lo + c * 0x1000 + 7 == 0x1000 * (p + c) + 7;
    Remainders(p + c, 7);
  }

  lemma HighAdds(lo: nat, high: nat)
    requires high < REGION && lo % PAGE_SIZE == 0
    ensures Adds(lo, Progress(high, 0, 0), Progress(high + 1, 0, 0), TopAfter(lo, Progress(high, 0, 0)),
                 HIGH_PAGE + high, high * PAGE_SIZE, PAGE_RW)
  {
    TableFlags(lo, 1);
    assert (HIGH_PAGE + high) / ENTRIES == HIGH_SLOT;
  }

  lemma LowAdds(lo: nat, low: nat)
    requires low < REGION && lo % PAGE_SIZE == 0
    ensures Adds(lo, Progress(REGION, low, 0), Progress(REGION, low + 1, 0), TopAfter(lo, Progress(REGION, low, 0)),
                 low, low * PAGE_SIZE, PAGE_RW)
  {
    TableFlags(lo, 2);
    assert low / ENTRIES == 0;
  }

  /** The frame of the user page has just been allocated, so the table comes one page later. */
  lemma UserAdds(lo: nat, user: nat)
    requires user < REGION && lo % PAGE_SIZE == 0
    ensures Adds(lo, Finished(user), Finished(user + 1), TopAfter(lo, Finished(user)) + PAGE_SIZE,
                 USER_PAGE + user, UserFrame(lo, user), PAGE_U + PAGE_RW)
    ensures UserFrame(lo, user) == TopAfter(lo, Finished(user))
  {
    TableFlags(lo, 4);
    assert (USER_PAGE + user) / ENTRIES == USER_SLOT;
  }

  /** One successful map_page advances a stage when it adds exactly the next expected page. */
  lemma Advance(m: seq<byte>, top: nat, m': seq<byte>, top': nat, lo: nat, page: Page, frame: nat, flags: nat,
                g: Progress, g': Progress)
    requires Stage(m, lo, g, top) && Adds(lo, g, g', top, page, frame, flags)
    requires PageMapped(m, top, m', top', lo, lo, page, frame, flags)
    ensures Stage(m', lo, g', top')
    ensures top' == if ExpectedEntry(lo, g, page / ENTRIES) == 0 then top + PAGE_SIZE else top
  {
    assert Entry(m, lo, page / ENTRIES) == ExpectedEntry(lo, g, page / ENTRIES);
    forall i | 0 <= i < ENTRIES
      ensures Entry(m', lo, i) == ExpectedEntry(lo, g', i)
    {
      if i != page / ENTRIES {
        assert Entry(m', lo, i) == Entry(m, lo, i);
      }
    }
    forall p: Page
      ensures WalkPage(m', lo, p) == ExpectedPage(lo, g', p)
    {
      if p != page {
        assert WalkPage(m', lo, p) == WalkPage(m, lo, p);
      }
    }
  }
}
