/** GuestPageTable::map of the RISC-V hypervisor (guest_page_table.rs) on the memory of its
    bump allocator (allocator.rs). */
module GuestPageTable {
  import opened Basics
  import opened RadixTree

  const PTE_R := 2
  const PTE_W := 4
  const PTE_X := 8

  function RoundUp(a: nat): nat { (a + PAGE - 1) / PAGE * PAGE }

  datatype Alloc = At(addr: u64) | OutOfMemory

  class BumpAllocator {
    const words: array<u64>     // memory, as 64-bit words from address 0
    var next: nat
    const end: nat

    ghost predicate Valid()
      reads this
    {
      next <= end && end <= 8 * words.Length && 8 * words.Length + PAGE <= U64_LIMIT
    }

    constructor (words: array<u64>, start: nat, end: nat)
      requires start <= end <= 8 * words.Length && 8 * words.Length + PAGE <= U64_LIMIT
      ensures Valid() && next == start && this.end == end && this.words == words
    {
      this.words := words;
      this.next := start;
      this.end := end;
    }

    /** alloc_zeroed of one table: page-aligned, zeroed, never handed out before. */
    method AllocTable() returns (r: Alloc)
      requires Valid()
      modifies this`next, words
      ensures Valid() && r == if RoundUp(old(next)) + PAGE <= end then At(RoundUp(old(next))) else OutOfMemory
      ensures r.At? ==> next == r.addr + PAGE && ZeroTable(words[..], r.addr)
      ensures r.At? ==> forall a :: 0 <= a < words.Length && !(r.addr <= 8 * a < r.addr + PAGE) ==>
                words[a] == old(words[a])
      ensures r.OutOfMemory? ==> next == old(next) && words[..] == old(words[..])
    {
      var addr := RoundUp(next);
      RoundUpAligned(next);
      hide RoundUp;
      if addr + PAGE > end {
        return OutOfMemory;
      }
      next := addr + PAGE;
      ClearTable(addr);
      return At(addr);
    }

    method ClearTable(addr: nat)
      requires addr % PAGE == 0 && addr + PAGE <= 8 * words.Length
      modifies words
      ensures ZeroTable(words[..], addr)
      ensures forall a :: 0 <= a < words.Length && !(addr <= 8 * a < addr + PAGE) ==> words[a] == old(words[a])
    {
      TableWords(addr, 0);
      ClearWords(addr / 8, ENTRIES);
      forall a | 0 <= a < words.Length && !(addr <= 8 * a < addr + PAGE)
        ensures words[a] == old(words[a])
      {
        TableWords(addr, a);
      }
    }

    method ClearWords(base: nat, n: nat)
      requires base + n <= words.Length
      modifies words
      ensures forall a :: base <= a < base + n ==> words[a] == 0
      ensures forall a :: 0 <= a < words.Length && !(base <= a < base + n) ==> words[a] == old(words[a])
    {
      var i := 0;
      while i < n
        invariant i <= n
        invariant forall a :: base <= a < base + i ==> words[a] == 0
        invariant forall a :: 0 <= a < words.Length && !(base <= a < base + n) ==> words[a] == old(words[a])
      {
        words[base + i] := 0;
        i := i + 1;
      }
    }
  }

  /** The words of the table at addr. */
  lemma TableWords(addr: nat, a: nat)
    requires addr % PAGE == 0
    ensures 8 * (addr / 8) == addr
    ensures addr <= 8 * a < addr + PAGE <==> addr / 8 <= a < addr / 8 + ENTRIES
  {
    var p := addr / 0x1000;
    assert addr == 0x1000 * p && addr / 8 == 0x200 * p;
  }

  lemma RoundUpAligned(a: nat)
    ensures RoundUp(a) % PAGE == 0 && a <= RoundUp(a) < a + PAGE
    ensures a % PAGE == 0 ==> RoundUp(a) == a
  {
  }

  /** Word a belongs to one of the tables. */
  ghost predicate InTable(places: map<nat, Place>, a: nat) {
    exists t :: t in places && t <= 8 * a < t + PAGE
  }

  ghost predicate SameOutsideTables(m: seq<u64>, m': seq<u64>, places: map<nat, Place>) {
    && |m'| == |m|
    && forall a :: 0 <= a < |m| && !InTable(places, a) ==> m'[a] == m[a]
  }

  ghost predicate SameWalks(m: seq<u64>, m': seq<u64>, root: nat) {
    forall key :: 0 <= key < KEYS ==> Walk(m', root, 3, key) == Walk(m, root, 3, key)
  }

  /** The lookup behind a guest physical address: its leaf entry. */
  function Lookup(m: seq<u64>, root: nat, guest: u64): Option<u64> {
    Walk(m, root, 3, Key(guest))
  }

  /** The valid entry that the table at t has for guest >> shift & 0x1ff, with the shift as a power of two. */
  function Hop(m: seq<u64>, t: nat, guest: u64, power: nat): Option<u64>
    requires power > 0
  {
    if t % 0x1000 != 0 || t + 0x1000 > 8 * |m| then None
    else
      var e := m[t / 8 + guest / power % 512];
      if e % 2 == 1 then Some(e) else None
  }

  /** The table or page an entry names: its bits from 10 up, as a page number. */
  function Named(e: Option<u64>): nat { if e.Some? then e.value / 0x400 * 0x1000 % U64_LIMIT else 0 }

  /** The lookup is the walk of four tables by bits 39, 30, 21 and 12 of the address. */
  lemma FourLevels(m: seq<u64>, root: nat, guest: u64)
    ensures var e3 := Hop(m, root, guest, 0x80_0000_0000);
            var e2 := Hop(m, Named(e3), guest, 0x4000_0000);
            var e1 := Hop(m, Named(e2), guest, 0x20_0000);
            Lookup(m, root, guest) ==
            if e3.Some? && e2.Some? && e1.Some? then Hop(m, Named(e1), guest, 0x1000) else None
  {
    forall level: nat | level <= 3
      ensures Index(Key(guest), level) == EntryIndex(guest, level)
    {
      IndexBits(guest, level);
    }
    hide Index, Key;
    var e3 := Hop(m, root, guest, 0x80_0000_0000);
    var e2 := Hop(m, Named(e3), guest, 0x4000_0000);
    var e1 := Hop(m, Named(e2), guest, 0x20_0000);
    assert EntryIndex(guest, 3) == guest / 0x80_0000_0000 % 512 && EntryIndex(guest, 2) == guest / 0x4000_0000 % 512;
    assert EntryIndex(guest, 1) == guest / 0x20_0000 % 512 && EntryIndex(guest, 0) == guest / 0x1000 % 512;
  }

  datatype MapResult = Mapped | AlreadyMapped | NoMemory

  /** The page number in Entry::new(host, flags): flags from bit 10 up run into it. */
  function LeafPage(host: u64, flags: u64): (page: nat)
    ensures page < 0x40_0000_0000_0000
    ensures flags < 0x400 ==> page == host / PAGE
  {
    Pow2Values();
    OrNothing(host / PAGE, 54);
    Or(host / PAGE, flags / 0x400, 54)
  }

  /** The entry that map writes: Entry::new(host, flags | PTE_V | PTE_U) */
  function LeafEntry(host: u64, flags: u64): u64
  {
    SetBitBound(flags % 0x400);
    LeafPage(host, flags) * 0x400 + SetBit(SetBit(flags % 0x400, PTE_V), PTE_U)
  }

  lemma SetBitBound(flags: nat)
    requires flags < 0x400
    ensures SetBit(SetBit(flags, PTE_V), PTE_U) < 0x400 && SetBit(SetBit(flags, PTE_V), PTE_U) % 2 == 1
  {
  }

  /** The low ten bits of the leaf entry: the caller's, V and U. */
  lemma LeafLowBit(flags: nat, i: nat)
    ensures Bit(SetBit(SetBit(flags, PTE_V), PTE_U), i) <==> i == 0 || i == 4 || Bit(flags, i)
  {
    Pow2Small();
    SetBitBit(flags, 0, i);
    SetBitBit(SetBit(flags, PTE_V), 4, i);
  }

  lemma Pow2Small()
    ensures Pow(2, 0) == 1 && Pow(2, 4) == 0x10 && Pow(2, 10) == 0x400
  {
    Pow2Step(0);
    assert Pow(2, 2) == 2 * (2 * Pow(2, 0)) && Pow(2, 4) == 2 * (2 * Pow(2, 2));
  }

  lemma LeafPageBit(host: u64, flags: u64, i: nat)
    requires i < 54
    ensures Bit(LeafPage(host, flags), i) <==> Bit(host / PAGE, i) || Bit(flags, i + 10)
  {
    Pow2Small();
    OrBit(host / PAGE, flags / 0x400, 54, i);
    SplitBit(flags / 0x400, flags % 0x400, 10, i + 10);
  }

  lemma LeafBitIs(host: u64, flags: u64, i: nat)
    requires i < 64
    ensures Bit(LeafEntry(host, flags), i) <==>
            i == 0 || i == 4 || Bit(flags, i) || (i >= 10 && Bit(host / 0x1000, i - 10))
  {
    var low := SetBit(SetBit(flags % 0x400, PTE_V), PTE_U);
    SetBitBound(flags % 0x400);
    Pow2Small();
    SplitBit(LeafPage(host, flags), low, 10, i);
    SplitBit(flags / 0x400, flags % 0x400, 10, i);
    hide Bit, SetBit, LeafPage;
    if i < 10 {
      LeafLowBit(flags % 0x400, i);
    } else {
      LeafPageBit(host, flags, i - 10);
    }
  }

  /** The leaf entry, for every 64-bit host address and flags: bit by bit, and where it leads. */
  lemma LeafMeaning(host: u64, flags: u64)
    ensures var e := LeafEntry(host, flags);
            && (forall i :: 0 <= i < 64 ==>
                  (Bit(e, i) <==> i == 0 || i == 4 || Bit(flags, i) || (i >= 10 && Bit(host / 0x1000, i - 10))))
            && Valid(e) && Paddr(e) == LeafPage(host, flags) * PAGE % U64_LIMIT
            && (flags < 0x400 ==> Paddr(e) == host - host % PAGE)
            && (flags == PTE_R + PTE_W + PTE_X ==> e == host / 0x1000 * 0x400 + 0x1f)
  {
    SetBitBound(flags % 0x400);
    EntryParts(LeafPage(host, flags), SetBit(SetBit(flags % 0x400, PTE_V), PTE_U));
    PageAddress(host);
    assert SetBit(SetBit(14, PTE_V), PTE_U) == 0x1f;
    forall i | 0 <= i < 64
      ensures Bit(LeafEntry(host, flags), i) <==>
              i == 0 || i == 4 || Bit(flags, i) || (i >= 10 && Bit(host / 0x1000, i - 10))
    {
      LeafBitIs(host, flags, i);
    }
    hide LeafPage, SetBit, Bit;
  }

  lemma PageAddress(host: u64)
    ensures host / PAGE * PAGE % U64_LIMIT == host - host % PAGE
  {
    assert host / 0x1000 * 0x1000 == host - host % 0x1000;
  }

  lemma EntryParts(page: nat, low: nat)
    requires low < 0x400
    ensures (page * 0x400 + low) / 0x400 == page && (page * 0x400 + low) % 0x400 == low
              && (page * 0x400 + low) % 2 == low % 2
  {
    var e := page * 0x400 + low;
    assert e / 0x400 == page;
    EvenPlus(page * 0x200, low);
  }

  /** How far map has got: at the table cur on the path of key, with no translation changed. */
  ghost predicate Descending(m0: seq<u64>, next0: nat, m: seq<u64>, next: nat, root: nat, places0: map<nat, Place>,
                             places: map<nat, Place>, lo: nat, cur: nat, level: nat, key: nat) {
    && key < KEYS && |m| == |m0|
    && Tree(m, root, places, lo, next) && OnPath(places, cur, level, key)
    && SameWalks(m0, m, root)
    && level <= 3 && TableAt(m, root, 3, level, key) == Some(cur)
    && places0.Keys <= places.Keys && SameOutsideTables(m0, m, places)
    && Missing(m, cur, level, key) <= Missing(m0, root, 3, key)
    && var used := Missing(m0, root, 3, key) - Missing(m, cur, level, key);
    if used == 0 then next == next0 && m == m0 && places == places0 else next == RoundUp(next0) + used * PAGE
  }

  /** Going down through a valid entry. */
  lemma Descend(m0: seq<u64>, next0: nat, m: seq<u64>, next: nat, root: nat, places0: map<nat, Place>,
                places: map<nat, Place>, lo: nat, cur: nat, level: nat, key: nat)
    requires Descending(m0, next0, m, next, root, places0, places, lo, cur, level, key) && 0 < level <= 3
    requires Valid(Entry(m, cur, Index(key, level)))
    ensures Descending(m0, next0, m, next, root, places0, places, lo, Paddr(Entry(m, cur, Index(key, level))),
              level - 1, key)
  {
    PathChild(m, root, places, lo, next, cur, level, key);
    TableBelow(m, root, 3, level, key);
  }

  /** Memory m, then one table zeroed at child, then entry i of cur written. */
  ghost predicate Linked(m: seq<u64>, m1: seq<u64>, m2: seq<u64>, cur: nat, i: nat, child: nat)
    requires cur % PAGE == 0 && cur + PAGE <= 8 * |m| && i < ENTRIES
    requires child % PAGE == 0 && child + PAGE <= 8 * |m| && child < U64_LIMIT
  {
    && |m1| == |m| && OneEntry(m1, m2, cur, i)
    && (forall a :: 0 <= a < |m| && !(child <= 8 * a < child + PAGE) ==> m1[a] == m[a])
    && ZeroTable(m1, child)
    && Entry(m2, cur, i) == NewEntry(child, PTE_V)
  }

  lemma LinkKeepsWalks(m: seq<u64>, m1: seq<u64>, m2: seq<u64>, root: nat, places: map<nat, Place>, lo: nat, next: nat,
                       cur: nat, i: nat, child: nat)
    requires Tree(m, root, places, lo, next) && cur in places && places[cur].level > 0 && i < ENTRIES
    requires !Valid(Entry(m, cur, i)) && next <= child && child % PAGE == 0 && child + PAGE <= 8 * |m|
    requires child + PAGE <= U64_LIMIT
    requires Linked(m, m1, m2, cur, i, child)
    ensures SameWalks(m, m2, root) && ZeroTable(m2, child)
    ensures forall key :: 0 <= key < KEYS ==>
              TableAt(m2, root, 3, places[cur].level, key) == TableAt(m, root, 3, places[cur].level, key)
    ensures Tree(m2, root, places[child := Place(places[cur].level - 1, places[cur].prefix * ENTRIES + i)], lo,
                 child + PAGE)
  {
    EntryRoundTrip(child, PTE_V);
    TreeFrame(m, m1, root, places, lo, next);
    forall j | 0 <= j < ENTRIES
      ensures Entry(m2, child, j) == 0
    {
      OtherEntry(m1, m2, cur, i, child, j);
    }
    assert Entry(m1, cur, i) == Entry(m, cur, i);
    forall key | 0 <= key < KEYS
      ensures Walk(m2, root, 3, key) == Walk(m, root, 3, key)
    {
      RootOnPath(places, root, key);
      WalkFrame(m, m1, root, places, lo, next, root, 3, key);
      LinkWalk(m1, m2, root, places, lo, next, cur, i, child, root, 3, key);
    }
    LinkTree(m1, m2, root, places, lo, next, cur, i, child, child + PAGE);
    LinkKeepsPaths(m, m1, m2, root, places, lo, next, cur, i, child);
  }

  lemma LinkKeepsPaths(m: seq<u64>, m1: seq<u64>, m2: seq<u64>, root: nat, places: map<nat, Place>, lo: nat, next: nat,
                       cur: nat, i: nat, child: nat)
    requires Tree(m, root, places, lo, next) && cur in places && i < ENTRIES
    requires next <= child && child % PAGE == 0 && child + PAGE <= 8 * |m| && child < U64_LIMIT
    requires Linked(m, m1, m2, cur, i, child)
    ensures forall key :: 0 <= key < KEYS ==>
              TableAt(m2, root, 3, places[cur].level, key) == TableAt(m, root, 3, places[cur].level, key)
  {
    TreeFrame(m, m1, root, places, lo, next);
    forall t, j | t in places && places[t].level > places[cur].level && 0 <= j < ENTRIES
      ensures Entry(m2, t, j) == Entry(m, t, j)
    {
      OtherEntry(m1, m2, cur, i, t, j);
    }
    forall key | 0 <= key < KEYS
      ensures TableAt(m2, root, 3, places[cur].level, key) == TableAt(m, root, 3, places[cur].level, key)
    {
      RootOnPath(places, root, key);
      TableAtFrame(m, m2, root, places, lo, next, root, 3, places[cur].level, key);
    }
  }

  lemma TablesGrow(places: map<nat, Place>, a: nat, child: nat, p: Place)
    ensures InTable(places, a) ==> InTable(places[child := p], a)
  {
    if InTable(places, a) {
      var t :| t in places && t <= 8 * a < t + PAGE;
      assert t in places[child := p];
    }
  }

  lemma LinkOutsideTables(m0: seq<u64>, m: seq<u64>, m1: seq<u64>, m2: seq<u64>, places: map<nat, Place>,
                          cur: nat, i: nat, child: nat, p: Place)
    requires cur % PAGE == 0 && cur + PAGE <= 8 * |m| && i < ENTRIES && cur in places
    requires child % PAGE == 0 && child + PAGE <= 8 * |m| && child < U64_LIMIT
    requires SameOutsideTables(m0, m, places) && Linked(m, m1, m2, cur, i, child)
    requires child !in places
    ensures SameOutsideTables(m0, m2, places[child := p])
  {
    var places' := places[child := p];
    forall a | 0 <= a < |m| && !InTable(places', a)
      ensures m2[a] == m0[a]
    {
      TablesGrow(places, a, child, p);
      assert child in places' && cur in places';
      assert cur / 8 == 0x200 * (cur / PAGE);
      assert a != cur / 8 + i;
    }
  }

  /** Going down through a table that had to be allocated. */
  lemma DescendFresh(m0: seq<u64>, next0: nat, m: seq<u64>, next: nat, m1: seq<u64>, m2: seq<u64>, root: nat,
                     places0: map<nat, Place>, places: map<nat, Place>, lo: nat, cur: nat, level: nat, key: nat)
    requires Descending(m0, next0, m, next, root, places0, places, lo, cur, level, key) && 0 < level <= 3
    requires !Valid(Entry(m, cur, Index(key, level)))
    requires RoundUp(next) + PAGE <= 8 * |m| && RoundUp(next) + PAGE <= U64_LIMIT
    requires RoundUp(next) % PAGE == 0 && Linked(m, m1, m2, cur, Index(key, level), RoundUp(next))
    ensures Descending(m0, next0, m2, RoundUp(next) + PAGE, root, places0,
                       places[RoundUp(next) := Place(level - 1, Node(key, level))], lo, RoundUp(next), level - 1, key)
  {
    var child, i, p := RoundUp(next), Index(key, level), Place(level - 1, Node(key, level));
    var used := Missing(m0, root, 3, key) - Missing(m, cur, level, key);
    NextAfter(next0, next, used);
    assert child !in places;
    assert p == Place(places[cur].level - 1, places[cur].prefix * ENTRIES + i);
    LinkKeepsWalks(m, m1, m2, root, places, lo, next, cur, i, child);
    LinkOutsideTables(m0, m, m1, m2, places, cur, i, child, p);
    EntryRoundTrip(child, PTE_V);
    TableBelow(m2, root, 3, level, key);
    MissingFresh(m2, child, level - 1, key);
    assert Missing(m, cur, level, key) == level;
    hide Tree, Linked, Entry, RoundUp, SameOutsideTables, ZeroTable, Walk, TableAt, Missing;
  }

  lemma NextAfter(next0: nat, next: nat, used: nat)
    requires if used == 0 then next == next0 else next == RoundUp(next0) + used * PAGE
    ensures next <= RoundUp(next) && RoundUp(next) + PAGE == RoundUp(next0) + (used + 1) * PAGE
  {
    RoundUpAligned(next);
    if used > 0 {
      var k := RoundUp(next0) / PAGE;
      assert next == (k + used) * PAGE;
    }
  }

  lemma MissingFresh(m: seq<u64>, child: nat, level: nat, key: nat)
    requires child % PAGE == 0 && child + PAGE <= 8 * |m| && ZeroTable(m, child)
    ensures Walk(m, child, level, key) == None && Missing(m, child, level, key) == level
  {
    assert Entry(m, child, Index(key, level)) == 0;
  }

  /** The final write, at the leaf table. */
  lemma LeafWritten(m0: seq<u64>, next0: nat, m: seq<u64>, next: nat, m': seq<u64>, root: nat,
                    places0: map<nat, Place>, places: map<nat, Place>, lo: nat, cur: nat, key: nat, e: u64)
    requires Descending(m0, next0, m, next, root, places0, places, lo, cur, 0, key)
    requires OneEntry(m, m', cur, Index(key, 0)) && Valid(e)
    requires Entry(m', cur, Index(key, 0)) == e
    ensures Tree(m', root, places, lo, next) && SameOutsideTables(m0, m', places)
    ensures Walk(m', root, 3, key) == Some(e)
    ensures forall k :: 0 <= k < KEYS && k != key ==> Walk(m', root, 3, k) == Walk(m0, root, 3, k)
  {
    LeafWriteTree(m, m', root, places, lo, next, cur, Index(key, 0));
    LeafOutsideTables(m0, m, m', places, cur, Index(key, 0));
    forall k | 0 <= k < KEYS && k != key
      ensures Walk(m', root, 3, k) == Walk(m, root, 3, k)
    {
      RootOnPath(places, root, k);
      LeafWrite(m, m', root, places, lo, next, cur, key, root, 3, k);
    }
    RootOnPath(places, root, key);
    forall t, i | t in places && places[t].level > 0 && 0 <= i < ENTRIES
      ensures Entry(m', t, i) == Entry(m, t, i)
    {
      OtherEntry(m, m', cur, Index(key, 0), t, i);
    }
    TableAtFrame(m, m', root, places, lo, next, root, 3, 0, key);
    WalkFromTable(m', root, 3, 0, key);
  }

  lemma LeafOutsideTables(m0: seq<u64>, m: seq<u64>, m': seq<u64>, places: map<nat, Place>, cur: nat, i: nat)
    requires SameOutsideTables(m0, m, places) && OneEntry(m, m', cur, i) && i < ENTRIES
    requires cur in places && cur % PAGE == 0
    ensures SameOutsideTables(m0, m', places)
  {
    assert cur / 8 == 0x200 * (cur / PAGE);
    assert InTable(places, cur / 8 + i);
  }

  /** What a successful map does: the page of guest translates to host's page with the given
      flags, every other page translates as before, and only table words change. */
  ghost predicate MapDone(m: seq<u64>, next: nat, m': seq<u64>, next': nat, root: nat, places: map<nat, Place>,
                          guest: u64, host: u64, flags: u64)
  {
    && Lookup(m', root, guest) == Some(LeafEntry(host, flags))
    && (forall k :: 0 <= k < KEYS && k != Key(guest) ==> Walk(m', root, 3, k) == Walk(m, root, 3, k))
    && SameOutsideTables(m, m', places)
    && next' == if Missing(m, root, 3, Key(guest)) == 0 then next
                else RoundUp(next) + Missing(m, root, 3, Key(guest)) * PAGE
  }

  /** Which addresses a map of an unmapped page touches: those that agree with it in bits 12
      to 47. Below 2^48 these are the addresses of its own page; higher ones alias lower ones. */
  lemma MapTouchesExactly(m: seq<u64>, next: nat, m': seq<u64>, next': nat, root: nat, places: map<nat, Place>,
                          guest: u64, host: u64, flags: u64, other: u64)
    requires Lookup(m, root, guest) == None
    requires MapDone(m, next, m', next', root, places, guest, host, flags)
    ensures Lookup(m', root, other) != Lookup(m, root, other) <==> Key(other) == Key(guest)
    ensures guest < 0x1_0000_0000_0000 && other < 0x1_0000_0000_0000 ==>
              (Key(other) == Key(guest) <==> other / PAGE == guest / PAGE)
    ensures guest + 0x1_0000_0000_0000 < U64_LIMIT ==> Key(guest + 0x1_0000_0000_0000) == Key(guest)
  {
    assert Lookup(m', root, other) != Lookup(m, root, other) <==> Key(other) == Key(guest);
    hide Lookup, MapDone, LeafEntry, Walk;
    KeyBelow48(guest);
    KeyBelow48(other);
  }

  lemma KeyBelow48(guest: u64)
    ensures guest < 0x1_0000_0000_0000 ==> Key(guest) == guest / PAGE
    ensures guest + 0x1_0000_0000_0000 < U64_LIMIT ==> Key(guest + 0x1_0000_0000_0000) == Key(guest)
  {
    var g := guest / PAGE;
    assert (guest + KEYS * PAGE) / PAGE == g + KEYS;
    assert (g + KEYS) % KEYS == g % KEYS;
  }

  lemma StartDescending(m: seq<u64>, next: nat, root: nat, places: map<nat, Place>, lo: nat, key: nat)
    requires Tree(m, root, places, lo, next) && key < KEYS
    ensures Descending(m, next, m, next, root, places, places, lo, root, 3, key)
  {
    RootOnPath(places, root, key);
  }

  lemma PathBounds(m0: seq<u64>, next0: nat, m: seq<u64>, next: nat, root: nat, places0: map<nat, Place>,
                   places: map<nat, Place>, lo: nat, cur: nat, level: nat, key: nat)
    requires Descending(m0, next0, m, next, root, places0, places, lo, cur, level, key)
    ensures cur % PAGE == 0 && cur + PAGE <= next <= 8 * |m|
  {
  }

  lemma LinkedIntro(m: seq<u64>, m1: seq<u64>, m2: seq<u64>, cur: nat, i: nat, child: u64)
    requires cur % PAGE == 0 && cur + PAGE <= 8 * |m| && i < ENTRIES && child % PAGE == 0 && child + PAGE <= 8 * |m|
    requires |m1| == |m| && OneEntry(m1, m2, cur, i) && Entry(m2, cur, i) == NewEntry(child, PTE_V)
               && ZeroTable(m1, child)
    requires forall a :: 0 <= a < |m| && !(child <= 8 * a < child + PAGE) ==> m1[a] == m[a]
    ensures Linked(m, m1, m2, cur, i, child)
  {
  }

  /** The panic of the allocator: the page is not mapped, and its tables do not fit. */
  lemma OutOfTables(m0: seq<u64>, next0: nat, m: seq<u64>, next: nat, root: nat, places0: map<nat, Place>,
                    places: map<nat, Place>, lo: nat, cur: nat, level: nat, key: nat, end: nat)
    requires Descending(m0, next0, m, next, root, places0, places, lo, cur, level, key) && level > 0
    requires !Valid(Entry(m, cur, Index(key, level))) && RoundUp(next) + PAGE > end
    ensures Walk(m0, root, 3, key) == None && Missing(m0, root, 3, key) > 0
    ensures RoundUp(next0) + Missing(m0, root, 3, key) * PAGE > end
  {
    WalkFromTable(m, root, 3, level, key);
    assert Missing(m, cur, level, key) == level;
    NextAfter(next0, next, Missing(m0, root, 3, key) - level);
  }

  /** At the leaf table: the page was mapped already exactly if its entry is valid. */
  lemma LeafFound(m0: seq<u64>, next0: nat, m: seq<u64>, next: nat, root: nat, places0: map<nat, Place>,
                  places: map<nat, Place>, lo: nat, cur: nat, key: nat)
    requires Descending(m0, next0, m, next, root, places0, places, lo, cur, 0, key)
    ensures Walk(m0, root, 3, key).Some? <==> Valid(Entry(m, cur, Index(key, 0)))
    ensures Walk(m0, root, 3, key).Some? ==> m == m0 && next == next0 && places == places0
    ensures next == if Missing(m0, root, 3, key) == 0 then next0 else RoundUp(next0) + Missing(m0, root, 3, key) * PAGE
  {
    WalkFromTable(m, root, 3, 0, key);
    if Walk(m0, root, 3, key).Some? {
      MappedNeedsNoTable(m0, root, 3, key);
    }
  }

  lemma LeafDone(m0: seq<u64>, next0: nat, m: seq<u64>, m': seq<u64>, next: nat, root: nat, places0: map<nat, Place>,
                 places: map<nat, Place>, lo: nat, cur: nat, guest: u64, host: u64, flags: u64)
    requires Descending(m0, next0, m, next, root, places0, places, lo, cur, 0, Key(guest))
    requires OneEntry(m, m', cur, Index(Key(guest), 0))
               && Entry(m', cur, Index(Key(guest), 0)) == LeafEntry(host, flags)
    ensures Tree(m', root, places, lo, next)
    ensures MapDone(m0, next0, m', next, root, places, guest, host, flags)
  {
    LeafMeaning(host, flags);
    hide LeafEntry;
    LeafWritten(m0, next0, m, next, m', root, places0, places, lo, cur, Key(guest), LeafEntry(host, flags));
    LeafFound(m0, next0, m, next, root, places0, places, lo, cur, Key(guest));
  }

  /** So the entry that the lookup finds has these bits. */
  lemma LeafMapped(m: seq<u64>, next: nat, m': seq<u64>, next': nat, root: nat, places: map<nat, Place>,
                   guest: u64, host: u64, flags: u64)
    requires MapDone(m, next, m', next', root, places, guest, host, flags)
    ensures var e := Lookup(m', root, guest);
            && e.Some?
            && (forall i :: 0 <= i < 64 ==>
                  (Bit(e.value, i) <==> i == 0 || i == 4 || Bit(flags, i) || (i >= 10 && Bit(host / 0x1000, i - 10))))
  {
    LeafMeaning(host, flags);
    hide Lookup, LeafEntry, Walk, Missing, SameOutsideTables, Bit;
  }

  // ---------------------------------------------------------------- host memory

  /** A store anywhere but into a table keeps the tree and every translation. */
  lemma HostStore(m: seq<u64>, a: nat, w: u64, root: nat, places: map<nat, Place>, lo: nat, top: nat)
    requires Tree(m, root, places, lo, top) && a < |m| && !InTable(places, a)
    ensures Tree(m[a := w], root, places, lo, top) && SameWalks(m, m[a := w], root)
  {
    var m' := m[a := w];
    forall t, i | t in places && 0 <= i < ENTRIES
      ensures Entry(m', t, i) == Entry(m, t, i)
    {
      assert t / 8 == 0x200 * (t / PAGE);
      assert a == t / 8 + i ==> InTable(places, a);
    }
    forall t, i | t in places && places[t].level > 0 && 0 <= i < ENTRIES && Valid(Entry(m', t, i))
      ensures LeadsTo(places, places[t], i, Paddr(Entry(m', t, i)))
    {
      assert LeadsTo(places, places[t], i, Paddr(Entry(m, t, i)));
    }
    EntriesKeepWalks(m, m', root, places, lo, top);
  }

  lemma EntriesKeepWalks(m: seq<u64>, m': seq<u64>, root: nat, places: map<nat, Place>, lo: nat, top: nat)
    requires Tree(m, root, places, lo, top) && |m'| == |m|
    requires forall t, i :: t in places && 0 <= i < ENTRIES ==> Entry(m', t, i) == Entry(m, t, i)
    ensures SameWalks(m, m', root)
  {
    forall key | 0 <= key < KEYS
      ensures Walk(m', root, 3, key) == Walk(m, root, 3, key)
    {
      RootOnPath(places, root, key);
      WalkFrame(m, m', root, places, lo, top, root, 3, key);
    }
  }

  /** Memory handed out before the table, such as the guest's own, holds none of its tables. */
  lemma BelowNoTable(m: seq<u64>, root: nat, places: map<nat, Place>, lo: nat, top: nat, a: nat)
    requires Tree(m, root, places, lo, top) && 8 * a < lo
    ensures !InTable(places, a)
  {
  }

  lemma BelowKept(m: seq<u64>, next: nat, m': seq<u64>, next': nat, root: nat, places: map<nat, Place>, lo: nat,
                  guest: u64, host: u64, flags: u64)
    requires Tree(m', root, places, lo, next') && MapDone(m, next, m', next', root, places, guest, host, flags)
    ensures |m'| == |m| && forall a :: 0 <= a < |m| && 8 * a < lo ==> m'[a] == m[a]
  {
    hide Tree, Lookup, Walk, Missing, LeafEntry;
    forall a | 0 <= a < |m| && 8 * a < lo
      ensures m'[a] == m[a]
    {
      BelowNoTable(m', root, places, lo, next', a);
    }
  }

  /** How many tables a map of guest allocates: those from the first invalid entry of its path down. */
  lemma TablesNeeded(m: seq<u64>, root: nat, places: map<nat, Place>, lo: nat, top: nat, guest: u64)
    requires Tree(m, root, places, lo, top)
    ensures var e3 := Hop(m, root, guest, 0x80_0000_0000);
            var e2 := Hop(m, Named(e3), guest, 0x4000_0000);
            var e1 := Hop(m, Named(e2), guest, 0x20_0000);
            Missing(m, root, 3, Key(guest)) == if e3.None? then 3 else if e2.None? then 2 else if e1.None? then 1 else 0
  {
    var key := Key(guest);
    RootOnPath(places, root, key);
    forall level: nat | level <= 3
      ensures Index(key, level) == EntryIndex(guest, level)
    {
      IndexBits(guest, level);
    }
    hide Index, Key, Node;
    assert EntryIndex(guest, 3) == guest / 0x80_0000_0000 % 512 && EntryIndex(guest, 2) == guest / 0x4000_0000 % 512;
    assert EntryIndex(guest, 1) == guest / 0x20_0000 % 512;
    hide EntryIndex;
    var e3 := Hop(m, root, guest, 0x80_0000_0000);
    if e3.Some? {
      PathChild(m, root, places, lo, top, root, 3, key);
      var e2 := Hop(m, Named(e3), guest, 0x4000_0000);
      if e2.Some? {
        PathChild(m, root, places, lo, top, Named(e3), 2, key);
      }
    }
  }

  /** Memory handed out in between for other purposes does not matter either. */
  lemma OtherAllocation(m: seq<u64>, m': seq<u64>, root: nat, places: map<nat, Place>, lo: nat, top: nat, top': nat)
    requires Tree(m, root, places, lo, top) && |m'| == |m| && top <= top' <= 8 * |m| && top' <= U64_LIMIT
    requires forall a :: 0 <= a < |m| && 8 * a < top ==> m'[a] == m[a]
    ensures Tree(m', root, places, lo, top') && SameWalks(m, m', root)
  {
    TreeFrame(m, m', root, places, lo, top);
    EntriesKeepWalks(m, m', root, places, lo, top);
  }

  class GuestPageTable {
    const heap: BumpAllocator
    const table: u64
    ghost const lo: nat
    ghost var places: map<nat, Place>

    ghost predicate Valid()
      reads this, heap, heap.words
    {
      heap.Valid() && Tree(heap.words[..], table, places, lo, heap.next)
    }

    constructor (heap: BumpAllocator, table: u64)
      requires heap.Valid() && table % PAGE == 0 && table + PAGE <= heap.next && ZeroTable(heap.words[..], table)
      ensures Valid() && this.heap == heap && this.table == lo == table && places == map[table := Place(3, 0)]
    {
      this.heap := heap;
      this.table := table;
      this.lo := table;
      this.places := map[table := Place(3, 0)];
    }

    /** GuestPageTable::new; None is the allocator's panic. */
    static method New(heap: BumpAllocator) returns (r: Option<GuestPageTable>)
      requires heap.Valid()
      modifies heap`next, heap.words
      ensures r.Some? <==> RoundUp(old(heap.next)) + PAGE <= heap.end
      ensures r.Some? ==> fresh(r.value) && r.value.Valid() && r.value.heap == heap
                          && old(heap.next) <= r.value.table == r.value.lo
                          && forall k :: 0 <= k < KEYS ==> Walk(heap.words[..], r.value.table, 3, k) == None
    {
      RoundUpAligned(heap.next);
      var t := heap.AllocTable();
      if t.OutOfMemory? {
        return None;
      }
      var g := new GuestPageTable(heap, t.addr);
      forall k | 0 <= k < KEYS
        ensures Walk(heap.words[..], t.addr, 3, k) == None
      {
        MissingFresh(heap.words[..], t.addr, 3, k);
      }
      return Some(g);
    }

    method ReadEntry(t: nat, i: nat) returns (e: u64)
      requires t % PAGE == 0 && t + PAGE <= 8 * heap.words.Length && i < ENTRIES
      ensures e == Entry(heap.words[..], t, i)
    {
      e := heap.words[t / 8 + i];
    }

    method WriteEntry(t: nat, i: nat, e: u64)
      requires t % PAGE == 0 && t + PAGE <= 8 * heap.words.Length && i < ENTRIES
      modifies heap.words
      ensures OneEntry(old(heap.words[..]), heap.words[..], t, i) && Entry(heap.words[..], t, i) == e
    {
      heap.words[t / 8 + i] := e;
    }

    method Map(guest: u64, host: u64, flags: u64) returns (r: MapResult)
      requires Valid()
      modifies this`places, heap`next, heap.words
      ensures var missing := Missing(old(heap.words[..]), table, 3, Key(guest));
              r == if Lookup(old(heap.words[..]), table, guest).Some? then AlreadyMapped
                   else if missing > 0 && RoundUp(old(heap.next)) + missing * PAGE > heap.end then NoMemory
                   else Mapped
      ensures r.Mapped? ==> Valid() && old(places).Keys <= places.Keys
                            && MapDone(old(heap.words[..]), old(heap.next), heap.words[..], heap.next, table, places,
                                 guest, host, flags)
      ensures r.Mapped? ==>
                var e := Lookup(heap.words[..], table, guest);
                && e.Some?
                && (forall i :: 0 <= i < 64 ==>
                      (Bit(e.value, i) <==>
                         i == 0 || i == 4 || Bit(flags, i) || (i >= 10 && Bit(host / 0x1000, i - 10))))
      ensures r.Mapped? ==> forall a :: 0 <= a < heap.words.Length && 8 * a < lo ==>
                heap.words[..][a] == old(heap.words[..])[a]
      ensures r.AlreadyMapped? ==> heap.words[..] == old(heap.words[..]) && heap.next == old(heap.next) && Valid()
    {
      ghost var m0, next0, places0, key := heap.words[..], heap.next, places, Key(guest);
      StartDescending(m0, next0, table, places0, lo, key);
      hide Descending, Tree, SameWalks, SameOutsideTables, OneEntry, Key, MapDone, Index, EntryIndex, InTable;
      var t := table;
      var level := 3;
      while level >= 1
        invariant 0 <= level <= 3 && heap.Valid()
        invariant Descending(m0, next0, heap.words[..], heap.next, table, places0, places, lo, t, level, key)
      {
        var next := NextTable(t, level, guest, m0, next0, places0);
        if next.OutOfMemory? {
          return NoMemory;
        }
        t := next.addr;
        level := level - 1;
      }
      ghost var m := heap.words[..];
      PathBounds(m0, next0, m, heap.next, table, places0, places, lo, t, 0, key);
      IndexBits(guest, 0);
      var i := EntryIndex(guest, 0);
      var e := ReadEntry(t, i);
      LeafFound(m0, next0, m, heap.next, table, places0, places, lo, t, key);
      if RadixTree.Valid(e) {
        assert heap.words[..] == m0;
        return AlreadyMapped;
      }
      WriteEntry(t, i, LeafEntry(host, flags));
      LeafDone(m0, next0, m, heap.words[..], heap.next, table, places0, places, lo, t, guest, host, flags);
      BelowKept(m0, next0, heap.words[..], heap.next, table, places, lo, guest, host, flags);
      LeafMapped(m0, next0, heap.words[..], heap.next, table, places, guest, host, flags);
      return Mapped;
    }

    /** One round of map's loop: the table below t on the path of guest, allocated if missing. */
    method NextTable(t: u64, level: nat, guest: u64, ghost m0: seq<u64>, ghost next0: nat,
                     ghost places0: map<nat, Place>)
      returns (r: Alloc)
      requires heap.Valid() && 1 <= level <= 3
      requires Descending(m0, next0, heap.words[..], heap.next, table, places0, places, lo, t, level, Key(guest))
      modifies this`places, heap`next, heap.words
      ensures heap.Valid()
      ensures r.At? ==> Descending(m0, next0, heap.words[..], heap.next, table, places0, places, lo, r.addr,
                level - 1, Key(guest))
      ensures r.OutOfMemory? ==> Walk(m0, table, 3, Key(guest)) == None && Missing(m0, table, 3, Key(guest)) > 0
                                 && RoundUp(next0) + Missing(m0, table, 3, Key(guest)) * PAGE > heap.end
    {
      hide Descending, Tree, SameWalks, OneEntry, Key, Index, EntryIndex, ZeroTable, Linked, Node;
      ghost var m, next, key := heap.words[..], heap.next, Key(guest);
      PathBounds(m0, next0, m, next, table, places0, places, lo, t, level, key);
      IndexBits(guest, level);
      var i := EntryIndex(guest, level);
      var e := ReadEntry(t, i);
      if RadixTree.Valid(e) {
        Descend(m0, next0, m, next, table, places0, places, lo, t, level, key);
        return At(Paddr(e));
      }
      RoundUpAligned(next);
      var child := heap.AllocTable();
      if child.OutOfMemory? {
        OutOfTables(m0, next0, m, next, table, places0, places, lo, t, level, key, heap.end);
        return OutOfMemory;
      }
      ghost var m1 := heap.words[..];
      WriteEntry(t, i, NewEntry(child.addr, PTE_V));
      LinkedIntro(m, m1, heap.words[..], t, i, child.addr);
      DescendFresh(m0, next0, m, next, m1, heap.words[..], table, places0, places, lo, t, level, key);
      places := places[child.addr := Place(level - 1, Node(key, level))];
      EntryRoundTrip(child.addr, PTE_V);
      return At(child.addr);
    }
  }
}
