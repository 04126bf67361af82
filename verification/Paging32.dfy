/** Two-level 32-bit paging: what a page directory means, as the VMM's debug
    walker reads it (10-10-12 split), and the invariants of a directory whose
    tables come from a bump allocator. Masks and shifts of the source are
    division and remainder by powers of two. */
module Paging32 {
  import opened Basics
  import opened PhysicalMemory

  const PAGE_SIZE := 0x1000
  const PAGES := 0x10_0000     // 2^20 virtual pages
  const ENTRIES := 0x400

  const PAGE_P := 1
  const PAGE_RW := 2
  const PAGE_U := 4

  type Page = p: nat | p < PAGES

  /** The outcome of a walk, for one virtual page. */
  datatype Translation =
    | NotPresent
    | OutsideMemory
    | Small(frame: nat, pdeFlags: nat, flags: nat)
    | Large(frame: nat, pdeFlags: nat)

  function FrameOf(entry: u32): nat { entry - entry % PAGE_SIZE }

  function FlagsOf(entry: u32): nat { entry % PAGE_SIZE }

  predicate Present(entry: u32) { entry % 2 == 1 }

  predicate LargePage(entry: u32) { entry / 0x80 % 2 == 1 }

  function Entry(m: seq<byte>, table: nat, i: nat): u32
    requires table + PAGE_SIZE <= |m| && i < ENTRIES
  {
    Word(m, table + 4 * i)
  }

  function WalkPage(m: seq<byte>, dir: nat, page: Page): Translation {
    if dir + PAGE_SIZE > |m| then OutsideMemory else
    var pde := Entry(m, dir, page / ENTRIES);
    if !Present(pde) then NotPresent
    else if LargePage(pde) then Large(pde - pde % 0x40_0000 + page % ENTRIES * PAGE_SIZE, FlagsOf(pde))
    else if FrameOf(pde) + PAGE_SIZE > |m| then OutsideMemory
    else
      var pte := Entry(m, FrameOf(pde), page % ENTRIES);
      if !Present(pte) then NotPresent else Small(FrameOf(pte), FlagsOf(pde), FlagsOf(pte))
  }

  /** The physical address behind a virtual address under CR3, if any. */
  function Walk(m: seq<byte>, cr3: nat, va: u32): Option<nat> {
    match WalkPage(m, cr3 - cr3 % PAGE_SIZE, va / PAGE_SIZE)
    case Small(frame, _, _) => Some(frame + va % PAGE_SIZE)
    case Large(frame, _) => Some(frame + va % PAGE_SIZE)
    case _ => None
  }

  /** An access from user mode needs the U flag at both levels, a write also RW. */
  predicate UserMay(t: Translation, write: bool) {
    && t.Small?
    && t.pdeFlags / PAGE_U % 2 == 1 && t.flags / PAGE_U % 2 == 1
    && (write ==> t.pdeFlags / PAGE_RW % 2 == 1 && t.flags / PAGE_RW % 2 == 1)
  }

  function UserAccess(m: seq<byte>, dir: nat, va: u32, write: bool): Option<nat> {
    var t := WalkPage(m, dir, va / PAGE_SIZE);
    if UserMay(t, write) then Some(t.frame + va % PAGE_SIZE) else None
  }

  // ---------------------------------------------------------------- well-formed directories

  /** Every present directory entry names a page-aligned 4 KB table that the
      allocator handed out, is not the directory, and no two entries share one. */
  ghost predicate WellFormed(m: seq<byte>, dir: nat, lo: nat, hi: nat) {
    && hi <= |m| && hi <= WORD_LIMIT
    && dir % PAGE_SIZE == 0 && lo <= dir && dir + PAGE_SIZE <= hi
    && (forall i :: 0 <= i < ENTRIES && Present(Entry(m, dir, i)) ==> OwnTable(Entry(m, dir, i), dir, lo, hi))
    && (forall i, j :: 0 <= i < j < ENTRIES && Present(Entry(m, dir, i)) && Present(Entry(m, dir, j)) ==>
          FrameOf(Entry(m, dir, i)) != FrameOf(Entry(m, dir, j)))
  }

  ghost predicate OwnTable(pde: u32, dir: nat, lo: nat, hi: nat) {
    && !LargePage(pde)
    && lo <= FrameOf(pde) && FrameOf(pde) + PAGE_SIZE <= hi
    && FrameOf(pde) != dir
  }

  /** A translation depends only on the directory and the table it goes through. */
  lemma WalkPageFrame(m: seq<byte>, m': seq<byte>, dir: nat, page: Page)
    requires |m| == |m'| && dir + PAGE_SIZE <= |m|
    requires Entry(m', dir, page / ENTRIES) == Entry(m, dir, page / ENTRIES)
    requires var pde := Entry(m, dir, page / ENTRIES);
             Present(pde) && !LargePage(pde) && FrameOf(pde) + PAGE_SIZE <= |m| ==>
               Entry(m', FrameOf(pde), page % ENTRIES) == Entry(m, FrameOf(pde), page % ENTRIES)
    ensures WalkPage(m', dir, page) == WalkPage(m, dir, page)
  {
  }

  /** Memory outside the pages handed out so far does not matter. */
  lemma WellFormedFrame(m: seq<byte>, m': seq<byte>, dir: nat, lo: nat, hi: nat)
    requires WellFormed(m, dir, lo, hi) && SameWithin(m, m', lo, hi)
    ensures WellFormed(m', dir, lo, hi) && SameEntries(m, m', dir)
    ensures forall page: Page :: WalkPage(m', dir, page) == WalkPage(m, dir, page)
  {
    assert forall i :: 0 <= i < ENTRIES ==> Entry(m', dir, i) == Entry(m, dir, i);
    forall page: Page
      ensures WalkPage(m', dir, page) == WalkPage(m, dir, page)
    {
      WalkPageFrame(m, m', dir, page);
    }
  }

  /** Growing the allocator keeps a directory well formed. */
  lemma WellFormedGrows(m: seq<byte>, dir: nat, lo: nat, hi: nat, hi': nat)
    requires WellFormed(m, dir, lo, hi) && hi <= hi' <= |m| && hi' <= WORD_LIMIT
    ensures WellFormed(m, dir, lo, hi')
  {
  }

  lemma EntryKept(m: seq<byte>, m': seq<byte>, table: nat, i: nat, lo: nat, hi: nat)
    requires table + PAGE_SIZE <= |m| && i < ENTRIES
    requires SameOutside(m, m', lo, hi)
    requires table + 4 * i + 4 <= lo || hi <= table + 4 * i
    ensures Entry(m', table, i) == Entry(m, table, i)
  {
  }

  lemma FrameAligned(entry: u32)
    ensures FrameOf(entry) % PAGE_SIZE == 0 && FrameOf(entry) <= entry < FrameOf(entry) + PAGE_SIZE
  {
  }

  /** Page-aligned tables are equal or do not overlap. */
  lemma TablesApart(t: nat, u: nat)
    requires t % PAGE_SIZE == 0 && u % PAGE_SIZE == 0 && t != u
    ensures t + PAGE_SIZE <= u || u + PAGE_SIZE <= t
  {
  }

  /** A write inside one page leaves the entries of every other page-aligned table. */
  lemma WriteElsewhere(m: seq<byte>, m': seq<byte>, table: nat, i: nat, page: nat, lo: nat, hi: nat)
    requires table + PAGE_SIZE <= |m| && i < ENTRIES
    requires SameOutside(m, m', lo, hi) && page <= lo && hi <= page + PAGE_SIZE
    requires table % PAGE_SIZE == 0 && page % PAGE_SIZE == 0 && table != page
    ensures Entry(m', table, i) == Entry(m, table, i)
  {
    TablesApart(table, page);
    EntryKept(m, m', table, i, lo, hi);
  }

  ghost predicate SameEntries(m: seq<byte>, m': seq<byte>, table: nat)
    requires table + PAGE_SIZE <= |m| && |m| == |m'|
  {
    forall i :: 0 <= i < ENTRIES ==> Entry(m', table, i) == Entry(m, table, i)
  }

  lemma SameEntriesWellFormed(m: seq<byte>, m': seq<byte>, dir: nat, lo: nat, hi: nat)
    requires WellFormed(m, dir, lo, hi) && |m| == |m'| && SameEntries(m, m', dir)
    ensures WellFormed(m', dir, lo, hi)
  {
  }

  /** Writing one entry of a table of the directory changes exactly one translation. */
  lemma LeafWrite(m: seq<byte>, m': seq<byte>, dir: nat, lo: nat, hi: nat, page: Page)
    requires WellFormed(m, dir, lo, hi)
    requires Present(Entry(m, dir, page / ENTRIES))
    requires var slot := FrameOf(Entry(m, dir, page / ENTRIES)) + 4 * (page % ENTRIES);
             SameOutside(m, m', slot, slot + 4)
    ensures WellFormed(m', dir, lo, hi) && SameEntries(m, m', dir)
    ensures forall p: Page :: p != page ==> WalkPage(m', dir, p) == WalkPage(m, dir, p)
  {
    var pde := Entry(m, dir, page / ENTRIES);
    var table := FrameOf(pde);
    var slot := table + 4 * (page % ENTRIES);
    FrameAligned(pde);
    assert OwnTable(pde, dir, lo, hi);
    forall i | 0 <= i < ENTRIES
      ensures Entry(m', dir, i) == Entry(m, dir, i)
    {
      WriteElsewhere(m, m', dir, i, table, slot, slot + 4);
    }
    SameEntriesWellFormed(m, m', dir, lo, hi);
    forall p: Page | p != page
      ensures WalkPage(m', dir, p) == WalkPage(m, dir, p)
    {
      LeafWriteOther(m, m', dir, lo, hi, page, p);
    }
  }

  lemma LeafWriteOther(m: seq<byte>, m': seq<byte>, dir: nat, lo: nat, hi: nat, page: Page, p: Page)
    requires WellFormed(m, dir, lo, hi) && p != page
    requires Present(Entry(m, dir, page / ENTRIES))
    requires var slot := FrameOf(Entry(m, dir, page / ENTRIES)) + 4 * (page % ENTRIES);
             SameOutside(m, m', slot, slot + 4)
    requires Entry(m', dir, p / ENTRIES) == Entry(m, dir, p / ENTRIES)
    ensures WalkPage(m', dir, p) == WalkPage(m, dir, p)
  {
    var pde, other := Entry(m, dir, page / ENTRIES), Entry(m, dir, p / ENTRIES);
    var table := FrameOf(pde);
    var slot := table + 4 * (page % ENTRIES);
    if Present(other) {
      assert OwnTable(pde, dir, lo, hi) && OwnTable(other, dir, lo, hi);
      if p / ENTRIES == page / ENTRIES {
        EntryKept(m, m', table, p % ENTRIES, slot, slot + 4);
      } else {
        FrameAligned(pde);
        FrameAligned(other);
        WriteElsewhere(m, m', FrameOf(other), p % ENTRIES, table, slot, slot + 4);
      }
    }
    WalkPageFrame(m, m', dir, p);
  }

  /** Hanging a fresh zeroed table into an empty directory slot changes no translation. */
  lemma FreshTable(m: seq<byte>, m': seq<byte>, dir: nat, lo: nat, hi: nat, i: nat)
    requires i < ENTRIES && hi % PAGE_SIZE == 0
    requires WellFormed(m, dir, lo, hi) && hi + PAGE_SIZE <= |m| && hi + PAGE_SIZE <= WORD_LIMIT
    requires !Present(Entry(m, dir, i)) && ZeroWithin(m, hi, hi + PAGE_SIZE)
    requires SameOutside(m, m', dir + 4 * i, dir + 4 * i + 4)
    requires var pde := Entry(m', dir, i); FrameOf(pde) == hi && Present(pde) && !LargePage(pde)
    ensures WellFormed(m', dir, lo, hi + PAGE_SIZE)
    ensures forall j :: 0 <= j < ENTRIES && j != i ==> Entry(m', dir, j) == Entry(m, dir, j)
    ensures forall p: Page :: WalkPage(m', dir, p) == WalkPage(m, dir, p)
  {
    forall j | 0 <= j < ENTRIES && j != i
      ensures Entry(m', dir, j) == Entry(m, dir, j)
    {
      EntryKept(m, m', dir, j, dir + 4 * i, dir + 4 * i + 4);
    }
    forall p: Page
      ensures WalkPage(m', dir, p) == WalkPage(m, dir, p)
    {
      FreshTableWalk(m, m', dir, lo, hi, i, p);
    }
  }

  lemma FreshTableWalk(m: seq<byte>, m': seq<byte>, dir: nat, lo: nat, hi: nat, i: nat, p: Page)
    requires i < ENTRIES && hi % PAGE_SIZE == 0
    requires WellFormed(m, dir, lo, hi) && hi + PAGE_SIZE <= |m| && hi + PAGE_SIZE <= WORD_LIMIT
    requires !Present(Entry(m, dir, i)) && ZeroWithin(m, hi, hi + PAGE_SIZE)
    requires SameOutside(m, m', dir + 4 * i, dir + 4 * i + 4)
    requires var pde := Entry(m', dir, i); FrameOf(pde) == hi && Present(pde) && !LargePage(pde)
    ensures WalkPage(m', dir, p) == WalkPage(m, dir, p)
  {
    if p / ENTRIES == i {
      EntryKept(m, m', hi, p % ENTRIES, dir + 4 * i, dir + 4 * i + 4);
      assert Entry(m, hi, p % ENTRIES) == 0;
    } else {
      EntryKept(m, m', dir, p / ENTRIES, dir + 4 * i, dir + 4 * i + 4);
      var other := Entry(m, dir, p / ENTRIES);
      if Present(other) {
        assert OwnTable(other, dir, lo, hi);
        FrameAligned(other);
        WriteElsewhere(m, m', FrameOf(other), p % ENTRIES, dir, dir + 4 * i, dir + 4 * i + 4);
      }
      WalkPageFrame(m, m', dir, p);
    }
  }

  // ---------------------------------------------------------------- what a walk reads

  /** An address split in directory index, table index and offset. */
  lemma Split32(d: nat, t: nat, offset: nat)
    requires d < 0x400 && t < 0x400 && offset < 0x1000
    ensures var va := d * 0x40_0000 + t * 0x1000 + offset;
            && va < WORD_LIMIT && va / 0x1000 == d * 0x400 + t && va % 0x1000 == offset
    ensures (d * 0x400 + t) / 0x400 == d && (d * 0x400 + t) % 0x400 == t
  {
  }

  /** A directory entry with P and without PS names a table, whose entry with P names the frame;
      with PS it is a 4 MB page itself; without P nothing translates. */
  lemma TwoLevels(m: seq<byte>, dir: nat, d: nat, t: nat, offset: nat)
    requires d < 0x400 && t < 0x400 && offset < 0x1000 && dir % 0x1000 == 0 && dir + 0x1000 <= |m|
    ensures var va := d * 0x40_0000 + t * 0x1000 + offset;
            var pde := Word(m, dir + 4 * d);
            var table := pde / 0x1000 * 0x1000;
            && va < WORD_LIMIT
            && Walk(m, dir, va) ==
                 if pde % 2 == 0 then None
                 else if pde / 0x80 % 2 == 1 then Some(pde / 0x40_0000 * 0x40_0000 + t * 0x1000 + offset)
                 else if table + 0x1000 > |m| || Word(m, table + 4 * t) % 2 == 0 then None
                 else Some(Word(m, table + 4 * t) / 0x1000 * 0x1000 + offset)
  {
    Split32(d, t, offset);
    var pde := Word(m, dir + 4 * d);
    assert Entry(m, dir, d) == pde;
    Aligned(pde);
    var table := pde / 0x1000 * 0x1000;
    if table + 0x1000 <= |m| {
      Aligned(Word(m, table + 4 * t));
    }
    hide Word;
  }

  lemma Aligned(w: nat)
    ensures w - w % 0x1000 == w / 0x1000 * 0x1000 && w - w % 0x40_0000 == w / 0x40_0000 * 0x40_0000
  {
  }

  lemma FlagBits(w: nat)
    ensures w % 0x1000 / PAGE_U % 2 == w / 4 % 2 && w % 0x1000 / PAGE_RW % 2 == w / 2 % 2
  {
    var page, low := w / 0x1000, w % 0x1000;
    assert w == 0x1000 * page + low;
    EvenPlus(0x400 * page, low / 2);
    EvenPlus(0x800 * page, low);
    EvenPlus(0x200 * page, low / 4);
    assert w / 2 == 0x800 * page + low / 2 && w / 4 == 0x400 * page + low / 4;
  }

  /** User mode gets through a 4 KB page exactly if both entries have U, and for a write RW. */
  lemma UserTwoLevels(m: seq<byte>, dir: nat, d: nat, t: nat, offset: nat, write: bool)
    requires d < 0x400 && t < 0x400 && offset < 0x1000 && dir % 0x1000 == 0 && dir + 0x1000 <= |m|
    requires var pde := Word(m, dir + 4 * d);
             pde % 2 == 1 && pde / 0x80 % 2 == 0 && pde / 0x1000 * 0x1000 + 0x1000 <= |m|
    ensures var va := d * 0x40_0000 + t * 0x1000 + offset;
            var pde := Word(m, dir + 4 * d);
            var pte := Word(m, pde / 0x1000 * 0x1000 + 4 * t);
            && va < WORD_LIMIT
            && (UserAccess(m, dir, va, write).Some? <==>
                  && pte % 2 == 1 && pde / 4 % 2 == 1 && pte / 4 % 2 == 1
                  && (write ==> pde / 2 % 2 == 1 && pte / 2 % 2 == 1))
            && (UserAccess(m, dir, va, write).Some? ==> UserAccess(m, dir, va, write) == Walk(m, dir, va))
  {
    Split32(d, t, offset);
    var pde := Word(m, dir + 4 * d);
    assert Entry(m, dir, d) == pde;
    Aligned(pde);
    FlagBits(pde);
    var pte := Word(m, pde / 0x1000 * 0x1000 + 4 * t);
    FlagBits(pte);
    assert Entry(m, FrameOf(pde), t) == pte;
    hide Word, Entry;
  }
}
