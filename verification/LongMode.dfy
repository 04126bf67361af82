/** The long-mode page tables of the VMM (src/paging_64.c): three tables of 512 entries with
    2 MB pages, and exactly what they translate. */
module LongMode {
  import opened Basics

  const PML4_ADDR := 0x2000
  const PDPT_ADDR := 0x3000
  const PD_ADDR := 0x4000
  const TABLES_END := 0x6000       // the 16 KB that are cleared
  const PT_ENTRIES := 512
  const BIG_PAGE := 0x20_0000

  const PTE_PRESENT := 1
  const PTE_WRITE := 2
  const PTE_USER := 4
  const PTE_PSE := 0x80

  const KERNEL := 3                // PTE_PRESENT | PTE_WRITE
  const USER := 7                  // PTE_PRESENT | PTE_WRITE | PTE_USER

  function Pml4Index(va: u64): (i: nat)
    ensures i < PT_ENTRIES
  {
    va / 0x80_0000_0000 % PT_ENTRIES
  }

  function PdptIndex(va: u64): (i: nat)
    ensures i < PT_ENTRIES
  {
    va / 0x4000_0000 % PT_ENTRIES
  }

  function PdIndex(va: u64): (i: nat)
    ensures i < PT_ENTRIES
  {
    va / BIG_PAGE % PT_ENTRIES
  }

  /** The indices are bits 39 to 47, 30 to 38 and 21 to 29, whatever stands above. */
  lemma IndexFields(high: nat, a: nat, b: nat, c: nat, r: nat)
    requires a < 512 && b < 512 && c < 512 && r < 0x20_0000
    ensures var va := high * 0x1_0000_0000_0000 + a * 0x80_0000_0000 + b * 0x4000_0000 + c * 0x20_0000 + r;
            va < U64_LIMIT ==> Pml4Index(va) == a && PdptIndex(va) == b && PdIndex(va) == c && va % 0x20_0000 == r
  {
    var va := high * 0x1_0000_0000_0000 + a * 0x80_0000_0000 + b * 0x4000_0000 + c * 0x20_0000 + r;
    var n3 := high * 512 + a;
    var n2 := n3 * 512 + b;
    var n1 := n2 * 512 + c;
    QuotientIs(va, 0x20_0000, n1, r);
    assert va == 0x4000_0000 * n2 + (c * 0x20_0000 + r);
    assert va == 0x80_0000_0000 * n3 + (b * 0x4000_0000 + c * 0x20_0000 + r);
    QuotientIs(va, 0x4000_0000, n2, c * 0x20_0000 + r);
    QuotientIs(va, 0x80_0000_0000, n3, b * 0x4000_0000 + c * 0x20_0000 + r);
    QuotientIs(n3, 512, high, a);
    QuotientIs(n2, 512, n3, b);
    QuotientIs(n1, 512, n2, c);
  }

  predicate Present(e: u64) { e % 2 == 1 }

  predicate UserBit(e: u64) { e / PTE_USER % 2 == 1 }

  predicate BigPage(e: u64) { e / PTE_PSE % 2 == 1 }

  predicate WriteBit(e: u64) { e / PTE_WRITE % 2 == 1 }

  /** e & PTE_ADDR_MASK: bits 12 to 51 */
  function TableOf(e: u64): nat { e / 0x1000 % 0x100_0000_0000 * 0x1000 }

  /** The address in an entry is a page number of 40 bits, between the flags and the bits from 52 up. */
  lemma EntryAddress(high: nat, page: nat, flags: nat)
    requires page < 0x100_0000_0000 && flags < 0x1000
    ensures var e := high * 0x10_0000_0000_0000 + page * 0x1000 + flags;
            e < U64_LIMIT ==> TableOf(e) == page * 0x1000
  {
    var e := high * 0x10_0000_0000_0000 + page * 0x1000 + flags;
    var n := high * 0x100_0000_0000 + page;
    assert e == 0x1000 * n + flags;
    QuotientIs(e, 0x1000, n, flags);
    QuotientIs(n, 0x100_0000_0000, high, page);
  }

  /** The walk of verify_page_tables_64bit, with the effective permissions: user mode, and writing,
      need their flag at all three levels. */
  datatype Translation = NotPresent | Outside | SmallPages | Mapped(pa: nat, user: bool, write: bool)

  function Word(m: seq<u64>, table: nat, i: nat): u64
    requires table % 8 == 0 && table + 0x1000 <= 8 * |m| && i < PT_ENTRIES
  {
    m[table / 8 + i]
  }

  predicate Inside(m: seq<u64>, table: nat) { table % 8 == 0 && table + 0x1000 <= 8 * |m| }

  function Walk(m: seq<u64>, va: u64): Translation {
    if !Inside(m, PML4_ADDR) then Outside else
    var pml4e := Word(m, PML4_ADDR, Pml4Index(va));
    if !Present(pml4e) then NotPresent
    else if !Inside(m, TableOf(pml4e)) then Outside else
    var pdpte := Word(m, TableOf(pml4e), PdptIndex(va));
    if !Present(pdpte) then NotPresent
    else if !Inside(m, TableOf(pdpte)) then Outside else
    var pde := Word(m, TableOf(pdpte), PdIndex(va));
    if !Present(pde) then NotPresent
    else if !BigPage(pde) then SmallPages
    else Mapped(pde - pde % BIG_PAGE + va % BIG_PAGE, UserBit(pml4e) && UserBit(pdpte) && UserBit(pde),
                WriteBit(pml4e) && WriteBit(pdpte) && WriteBit(pde))
  }

  /** PD entries in use: the memory rounded up to 2 MB, at most one table. */
  function PdPages(memSize: nat): (n: nat)
    ensures n <= PT_ENTRIES
  {
    var n := (memSize + BIG_PAGE - 1) / BIG_PAGE;
    if n < PT_ENTRIES then n else PT_ENTRIES
  }

  /** The entries in use are those of the 2 MB pages that the memory reaches. */
  lemma PagesOfMemory(memSize: nat, c: nat)
    ensures c < PdPages(memSize) <==> c < 512 && c * 0x20_0000 < memSize
  {
  }

  /** Contents of the three tables; k and j are the kernel's indices, PT_ENTRIES for none. */
  function Pml4Entry(k: nat, i: nat): u64 {
    if i == k then PDPT_ADDR + KERNEL else if i == 0 then PDPT_ADDR + USER else 0
  }

  function PdptEntry(j: nat, i: nat): u64 {
    if i == j then PD_ADDR + KERNEL else if i == 0 then PD_ADDR + USER else 0
  }

  function PdEntry(n: nat, i: nat): u64
    requires n <= PT_ENTRIES
  {
    if i < n then i * BIG_PAGE + USER + PTE_PSE else 0
  }

  ghost predicate Built(m: seq<u64>, k: nat, j: nat, n: nat)
    requires n <= PT_ENTRIES
  {
    && TABLES_END <= 8 * |m|
    && (forall i :: 0 <= i < PT_ENTRIES ==> Word(m, PML4_ADDR, i) == Pml4Entry(k, i))
    && (forall i :: 0 <= i < PT_ENTRIES ==> Word(m, PDPT_ADDR, i) == PdptEntry(j, i))
    && (forall i :: 0 <= i < PT_ENTRIES ==> Word(m, PD_ADDR, i) == PdEntry(n, i))
  }

  lemma EntryBits()
    ensures Present(PDPT_ADDR + KERNEL) && TableOf(PDPT_ADDR + KERNEL) == PDPT_ADDR && !UserBit(PDPT_ADDR + KERNEL)
    ensures Present(PDPT_ADDR + USER) && TableOf(PDPT_ADDR + USER) == PDPT_ADDR && UserBit(PDPT_ADDR + USER)
    ensures Present(PD_ADDR + KERNEL) && TableOf(PD_ADDR + KERNEL) == PD_ADDR && !UserBit(PD_ADDR + KERNEL)
    ensures Present(PD_ADDR + USER) && TableOf(PD_ADDR + USER) == PD_ADDR && UserBit(PD_ADDR + USER)
    ensures WriteBit(PDPT_ADDR + KERNEL) && WriteBit(PDPT_ADDR + USER)
    ensures WriteBit(PD_ADDR + KERNEL) && WriteBit(PD_ADDR + USER)
  {
  }

  lemma PdBits(i: nat)
    requires i < PT_ENTRIES
    ensures var e := i * BIG_PAGE + USER + PTE_PSE;
            Present(e) && BigPage(e) && UserBit(e) && WriteBit(e) && e - e % BIG_PAGE == i * BIG_PAGE
  {
    var e := i * BIG_PAGE + USER + PTE_PSE;
    assert e / BIG_PAGE == i;
    assert e == 2 * (i * 0x10_0000 + 67) + 1;
    assert e / 2 == 2 * (i * 0x8_0000 + 33) + 1;
    assert e / 4 == 2 * (i * 0x4_0000 + 16) + 1;
    assert e / 0x80 == 2 * (i * 0x2000) + 1;
  }

  /** Exactly these addresses translate: the low and the kernel index at both upper levels, in
      all four combinations, below the mapped memory. Only the combination that uses neither
      kernel entry is open to user mode. */
  lemma WalkExactly(m: seq<u64>, k: nat, j: nat, n: nat, va: u64)
    requires n <= PT_ENTRIES && Built(m, k, j, n)
    ensures Walk(m, va) ==
            if (Pml4Index(va) == 0 || Pml4Index(va) == k) && (PdptIndex(va) == 0 || PdptIndex(va) == j)
                && PdIndex(va) < n
            then Mapped(PdIndex(va) * BIG_PAGE + va % BIG_PAGE, Pml4Index(va) != k && PdptIndex(va) != j, true)
            else NotPresent
  {
    hide Pml4Index, PdptIndex, PdIndex;
    var a, b, c := Pml4Index(va), PdptIndex(va), PdIndex(va);
    EntryBits();
    assert Word(m, PML4_ADDR, a) == Pml4Entry(k, a);
    assert Word(m, PDPT_ADDR, b) == PdptEntry(j, b);
    assert Word(m, PD_ADDR, c) == PdEntry(n, c);
    PdBits(c);
    hide Word, Present, TableOf, UserBit, WriteBit, BigPage;
    assert !Present(0) by { ZeroAbsent(); }
  }

  lemma ZeroAbsent()
    ensures !Present(0)
  {
  }

  /** An address made of a gigabyte number, a 2 MB page number in it and an offset. */
  lemma Compose(g: nat, c: nat, r: nat)
    requires c < PT_ENTRIES && r < BIG_PAGE
    ensures var va := g * 0x4000_0000 + c * BIG_PAGE + r;
            && va / 0x4000_0000 == g && va % 0x4000_0000 == c * BIG_PAGE + r
            && va / BIG_PAGE == g * PT_ENTRIES + c && va / BIG_PAGE % PT_ENTRIES == c && va % BIG_PAGE == r
  {
    var va, low := g * 0x4000_0000 + c * BIG_PAGE + r, c * BIG_PAGE + r;
    assert low < 0x4000_0000;
    assert va == BIG_PAGE * (g * PT_ENTRIES + c) + r;
    assert (PT_ENTRIES * g + c) % PT_ENTRIES == c;
  }

  lemma Decompose(va: u64) returns (g: nat, c: nat, r: nat)
    ensures c < PT_ENTRIES && r < BIG_PAGE && va == g * 0x4000_0000 + c * BIG_PAGE + r
  {
    var q := va / BIG_PAGE;
    g, c, r := q / PT_ENTRIES, q % PT_ENTRIES, va % BIG_PAGE;
    assert q == PT_ENTRIES * g + c && va == BIG_PAGE * q + r;
  }

  /** The address split in its index fields. */
  lemma Fields(va: u64)
    ensures PdIndex(va) * BIG_PAGE + va % BIG_PAGE == va % 0x4000_0000
    ensures va < 0x4000_0000 ==> Pml4Index(va) == 0 && PdptIndex(va) == 0
  {
    var g, c, r := Decompose(va);
    Compose(g, c, r);
  }

  /** The same by the address's fields, after setup_page_tables_64bit_kernel for a base with indices
      k and j. */
  lemma KernelWalk(m: seq<u64>, memSize: nat, base: u64, kHigh: nat, k: nat, j: nat, low: nat,
                   va: u64, high: nat, a: nat, b: nat, c: nat, r: nat)
    requires k < 512 && j < 512 && low < 0x4000_0000
    requires base == kHigh * 0x1_0000_0000_0000 + k * 0x80_0000_0000 + j * 0x4000_0000 + low
    requires a < 512 && b < 512 && c < 512 && r < 0x20_0000
    requires va == high * 0x1_0000_0000_0000 + a * 0x80_0000_0000 + b * 0x4000_0000 + c * 0x20_0000 + r
    requires Built(m, Pml4Index(base), PdptIndex(base), PdPages(memSize))
    ensures Walk(m, va) ==
            if (a == 0 || a == k) && (b == 0 || b == j) && c * 0x20_0000 < memSize
            then Mapped(c * 0x20_0000 + r, a != k && b != j, true) else NotPresent
  {
    IndexFields(high, a, b, c, r);
    IndexFields(kHigh, k, j, low / 0x20_0000, low % 0x20_0000);
    PagesOfMemory(memSize, c);
    hide Pml4Index, PdptIndex, PdIndex, PdPages, Walk, Built;
    WalkExactly(m, Pml4Index(base), PdptIndex(base), PdPages(memSize), va);
  }

  /** The low mapping is the identity on the memory, up to 1 GB. */
  lemma LowIdentity(m: seq<u64>, k: nat, j: nat, memSize: nat, va: u64)
    requires Built(m, k, j, PdPages(memSize)) && va < memSize && va < 0x4000_0000
    ensures Walk(m, va) == Mapped(va, k != 0 && j != 0, true)
  {
    Fields(va);
    WalkExactly(m, k, j, PdPages(memSize), va);
    assert PdIndex(va) == va / BIG_PAGE < PdPages(memSize);
  }

  /** The kernel base leads to physical 0 exactly if it is aligned to 1 GB; then the whole
      memory up to 1 GB is mirrored there, for the kernel only. */
  lemma KernelMirror(m: seq<u64>, base: u64, memSize: nat)
    requires Built(m, Pml4Index(base), PdptIndex(base), PdPages(memSize)) && memSize > 0
    ensures Walk(m, base) == Mapped(0, false, true) <==> base % 0x4000_0000 == 0
    ensures base % 0x4000_0000 == 0 ==>
              forall off: nat :: off < memSize && off < 0x4000_0000 && base + off < U64_LIMIT ==>
                  Walk(m, base + off) == Mapped(off, false, true)
  {
    Fields(base);
    WalkExactly(m, Pml4Index(base), PdptIndex(base), PdPages(memSize), base);
    if base % 0x4000_0000 == 0 {
      forall off: nat | off < memSize && off < 0x4000_0000 && base + off < U64_LIMIT
        ensures Walk(m, base + off) == Mapped(off, false, true)
      {
        OffsetFields(base, off);
        WalkExactly(m, Pml4Index(base), PdptIndex(base), PdPages(memSize), base + off);
        Fields(base + off);
      }
    }
  }

  lemma OffsetFields(base: u64, off: nat)
    requires base % 0x4000_0000 == 0 && off < 0x4000_0000 && base + off < U64_LIMIT
    ensures Pml4Index(base + off) == Pml4Index(base) && PdptIndex(base + off) == PdptIndex(base)
    ensures PdIndex(base + off) == off / BIG_PAGE && (base + off) % 0x4000_0000 == off
  {
    var g := base / 0x4000_0000;
    Compose(g, 0, 0);
    Compose(g, off / BIG_PAGE, off % BIG_PAGE);
    assert base == g * 0x4000_0000;
    assert off == off / BIG_PAGE * BIG_PAGE + off % BIG_PAGE;
    HighIndex(base);
    HighIndex(base + off);
  }

  lemma HighIndex(va: u64)
    ensures va / 0x80_0000_0000 == va / 0x4000_0000 / PT_ENTRIES
  {
  }

  // ---------------------------------------------------------------- the set-up functions

  /** Writing word i of one table changes that word only. */
  lemma WordAfter(m: seq<u64>, m': seq<u64>, table: nat, i: nat)
    requires i < PT_ENTRIES && (table == PML4_ADDR || table == PDPT_ADDR || table == PD_ADDR) && TABLES_END <= 8 * |m|
    requires |m'| == |m| && forall a :: 0 <= a < |m| && a != table / 8 + i ==> m'[a] == m[a]
    ensures Word(m', table, i) == m'[table / 8 + i]
    ensures forall c :: 0 <= c < PT_ENTRIES && (c != i || table != PML4_ADDR) ==>
              Word(m', PML4_ADDR, c) == Word(m, PML4_ADDR, c)
    ensures forall c :: 0 <= c < PT_ENTRIES && (c != i || table != PDPT_ADDR) ==>
              Word(m', PDPT_ADDR, c) == Word(m, PDPT_ADDR, c)
    ensures forall c :: 0 <= c < PT_ENTRIES && (c != i || table != PD_ADDR) ==>
              Word(m', PD_ADDR, c) == Word(m, PD_ADDR, c)
  {
  }

  /** The words of the three tables, at 0x2000, 0x3000 and 0x4000. */
  lemma TableWords(m: seq<u64>, k: nat, j: nat, memSize: nat)
    requires Built(m, k, j, PdPages(memSize))
    ensures forall a :: 0x400 <= a < 0x600 ==>
              m[a] == if a == 0x400 + k then 0x3003 else if a == 0x400 then 0x3007 else 0
    ensures forall a :: 0x600 <= a < 0x800 ==>
              m[a] == if a == 0x600 + j then 0x4003 else if a == 0x600 then 0x4007 else 0
    ensures forall a :: 0x800 <= a < 0xa00 ==>
              m[a] == var pa := (a - 0x800) * 0x20_0000; if pa < memSize then pa + 0x87 else 0
  {
    hide PdPages;
    forall a | 0x400 <= a < 0x600
      ensures m[a] == if a == 0x400 + k then 0x3003 else if a == 0x400 then 0x3007 else 0
    {
      assert Word(m, PML4_ADDR, a - 0x400) == m[a];
    }
    forall a | 0x600 <= a < 0x800
      ensures m[a] == if a == 0x600 + j then 0x4003 else if a == 0x600 then 0x4007 else 0
    {
      assert Word(m, PDPT_ADDR, a - 0x600) == m[a];
    }
    forall a | 0x800 <= a < 0xa00
      ensures m[a] == var pa := (a - 0x800) * 0x20_0000; if pa < memSize then pa + 0x87 else 0
    {
      assert Word(m, PD_ADDR, a - 0x800) == m[a];
      PagesOfMemory(memSize, a - 0x800);
    }
  }

  /** memset and the entries both functions share; returns with k = j = none. */
  method SetupPageTables(words: array<u64>, memSize: nat) returns (cr3: nat)
    requires TABLES_END <= 8 * words.Length
    modifies words
    ensures cr3 == PML4_ADDR && Built(words[..], PT_ENTRIES, PT_ENTRIES, PdPages(memSize))
    ensures forall a :: 0x400 <= a < 0x600 ==>
              words[a] == if a == 0x400 then 0x3007 else 0
    ensures forall a :: 0x600 <= a < 0x800 ==>
              words[a] == if a == 0x600 then 0x4007 else 0
    ensures forall a :: 0x800 <= a < 0xa00 ==>
              words[a] == var pa := (a - 0x800) * 0x20_0000; if pa < memSize then pa + 0x87 else 0
    ensures forall a :: 0 <= a < words.Length && !(PML4_ADDR <= 8 * a < TABLES_END) ==> words[a] == old(words[a])
  {
    var i := 0;
    while i < (TABLES_END - PML4_ADDR) / 8
      invariant i <= (TABLES_END - PML4_ADDR) / 8
      invariant forall a :: PML4_ADDR / 8 <= a < PML4_ADDR / 8 + i ==> words[a] == 0
      invariant forall a :: 0 <= a < words.Length && !(PML4_ADDR <= 8 * a < TABLES_END) ==> words[a] == old(words[a])
    {
      words[PML4_ADDR / 8 + i] := 0;
      i := i + 1;
    }
    words[PML4_ADDR / 8] := PDPT_ADDR + USER;
    words[PDPT_ADDR / 8] := PD_ADDR + USER;
    FillPd(words, memSize);
    TableWords(words[..], PT_ENTRIES, PT_ENTRIES, memSize);
    return PML4_ADDR;
  }

  /** for (i = 0; i < num_pages_2mb && i < PT_ENTRIES; i++) ... */
  method FillPd(words: array<u64>, memSize: nat)
    requires TABLES_END <= 8 * words.Length
    requires forall i :: 0 <= i < PT_ENTRIES ==> Word(words[..], PD_ADDR, i) == 0
    modifies words
    ensures forall i :: 0 <= i < PT_ENTRIES ==> Word(words[..], PD_ADDR, i) == PdEntry(PdPages(memSize), i)
    ensures forall a :: 0 <= a < words.Length && !(PD_ADDR <= 8 * a < PD_ADDR + 0x1000) ==> words[a] == old(words[a])
  {
    var pages := (memSize + BIG_PAGE - 1) / BIG_PAGE;
    var i := 0;
    while i < pages && i < PT_ENTRIES
      invariant i <= PT_ENTRIES && i <= pages
      invariant forall c :: 0 <= c < PT_ENTRIES ==> Word(words[..], PD_ADDR, c) == PdEntry(i, c)
      invariant forall a :: 0 <= a < words.Length && !(PD_ADDR <= 8 * a < PD_ADDR + 0x1000) ==>
                  words[a] == old(words[a])
    {
      ghost var before := words[..];
      words[PD_ADDR / 8 + i] := i * BIG_PAGE + USER + PTE_PSE;
      WordAfter(before, words[..], PD_ADDR, i);
      i := i + 1;
    }
  }

  method SetupPageTablesKernel(words: array<u64>, memSize: nat, kernelBase: u64) returns (cr3: nat)
    requires TABLES_END <= 8 * words.Length
    modifies words
    ensures cr3 == PML4_ADDR && Built(words[..], Pml4Index(kernelBase), PdptIndex(kernelBase), PdPages(memSize))
    ensures forall a :: 0x400 <= a < 0x600 ==>
              words[a] == if a == 0x400 + Pml4Index(kernelBase) then 0x3003 else if a == 0x400 then 0x3007 else 0
    ensures forall a :: 0x600 <= a < 0x800 ==>
              words[a] == if a == 0x600 + PdptIndex(kernelBase) then 0x4003 else if a == 0x600 then 0x4007 else 0
    ensures forall a :: 0x800 <= a < 0xa00 ==>
              words[a] == var pa := (a - 0x800) * 0x20_0000; if pa < memSize then pa + 0x87 else 0
    ensures forall a :: 0 <= a < words.Length && !(PML4_ADDR <= 8 * a < TABLES_END) ==> words[a] == old(words[a])
  {
    hide PdPages, Pml4Index, PdptIndex;
    cr3 := SetupPageTables(words, memSize);
    var k, j := Pml4Index(kernelBase), PdptIndex(kernelBase);
    ghost var before := words[..];
    words[PML4_ADDR / 8 + k] := PDPT_ADDR + KERNEL;
    ghost var middle := words[..];
    WordAfter(before, middle, PML4_ADDR, k);
    words[PDPT_ADDR / 8 + j] := PD_ADDR + KERNEL;
    WordAfter(middle, words[..], PDPT_ADDR, j);
    TableWords(words[..], k, j, memSize);
  }
}
