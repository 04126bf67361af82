/** The guest page table of the RISC-V hypervisor as a four-level radix tree in memory:
    what an address translates to, and why writing one entry touches one page only. */
module RadixTree {
  import opened Basics

  const PAGE := 0x1000
  const ENTRIES := 0x200
  const KEYS := 0x10_0000_0000     // 2^36 guest pages that 4 x 9 index bits tell apart

  const PTE_V := 1
  const PTE_U := 0x10

  /** Entry::new for flags below 2^10 */
  function NewEntry(paddr: u64, flags: nat): (e: u64)
    requires flags < 0x400
  {
    paddr / PAGE * 0x400 + flags
  }

  predicate Valid(e: u64) { e % 2 == 1 }

  /** Entry::paddr */
  function Paddr(e: u64): u64 { e / 0x400 * PAGE % U64_LIMIT }

  /** A page-aligned address survives an entry; any other is rounded down to its page. */
  lemma EntryRoundTrip(paddr: u64, flags: nat)
    requires flags < 0x400
    ensures Paddr(NewEntry(paddr, flags)) == paddr - paddr % PAGE && NewEntry(paddr, flags) % 0x400 == flags
    ensures NewEntry(paddr, flags) / 0x400 == paddr / 0x1000
    ensures Valid(NewEntry(paddr, flags)) <==> flags % 2 == 1
  {
    var ppn := paddr / PAGE;
    assert (ppn * 0x400 + flags) / 0x400 == ppn;
    EvenPlus(ppn * 0x200, flags);
    assert paddr / 0x1000 * 0x1000 == paddr - paddr % 0x1000;
  }

  /** Entry i of the table at byte address t. */
  function Entry(m: seq<u64>, t: nat, i: nat): u64
    requires t % PAGE == 0 && t + PAGE <= 8 * |m| && i < ENTRIES
  {
    m[t / 8 + i]
  }

  /** The index bits of a guest page above level: its number is Node(key, 0). */
  function Node(key: nat, level: nat): nat {
    if level == 0 then key else Node(key, level - 1) / ENTRIES
  }

  function Index(key: nat, level: nat): (i: nat)
    ensures i < ENTRIES
  {
    Node(key, level) % ENTRIES
  }

  /** Table::entry_by_addr's index: (guest_paddr >> (12 + 9 * level)) & 0x1ff */
  function EntryIndex(guest: u64, level: nat): (i: nat)
    requires level <= 3
    ensures i < ENTRIES
  {
    guest / (if level == 0 then 0x1000 else if level == 1 then 0x20_0000 else if level == 2 then 0x4000_0000
        else 0x80_0000_0000) % ENTRIES
  }

  /** The guest page of an address, as far as the tree can tell: bits 12 to 47. */
  function Key(guest: u64): (key: nat)
    ensures key < KEYS
  {
    guest / PAGE % KEYS
  }

  lemma DivSplit(k: nat, low: nat)
    ensures (ENTRIES * k + low) / ENTRIES == k + low / ENTRIES
  {
  }

  lemma NodeAbove(key: nat, level: nat)
    requires level > 0
    ensures Node(key, level) == Node(key, level - 1) / ENTRIES
  {
  }

  /** Shifting keeps what stands above the key apart from it. */
  lemma NodeSplit(n: nat, low: nat, level: nat)
    requires level <= 3
    ensures Node(n * KEYS + low, level) == n * (KEYS / Size(level)) + Node(low, level)
  {
    if level > 0 {
      NodeSplit(n, low, level - 1);
      hide Node;
      var k := n * (if level == 1 then 0x800_0000 else if level == 2 then 0x4_0000 else 0x200);
      assert n * (KEYS / Size(level - 1)) == ENTRIES * k && n * (KEYS / Size(level)) == k;
      DivSplit(k, Node(low, level - 1));
      NodeAbove(n * KEYS + low, level);
      NodeAbove(low, level);
    }
  }

  /** Pages below one entry of a table at level. */
  function Size(level: nat): nat
    requires level <= 3
  {
    if level == 0 then 1 else if level == 1 then 0x200 else if level == 2 then 0x4_0000 else 0x800_0000
  }

  lemma NodeShifts(guest: u64)
    ensures guest / 0x20_0000 == Node(guest / PAGE, 1)
    ensures guest / 0x4000_0000 == Node(guest / PAGE, 2)
    ensures guest / 0x80_0000_0000 == Node(guest / PAGE, 3)
  {
    assert guest / 0x20_0000 == guest / PAGE / ENTRIES;
    assert guest / 0x4000_0000 == guest / 0x20_0000 / ENTRIES;
    assert guest / 0x80_0000_0000 == guest / 0x4000_0000 / ENTRIES;
    assert Node(guest / PAGE, 1) == guest / PAGE / ENTRIES;
    assert Node(guest / PAGE, 2) == Node(guest / PAGE, 1) / ENTRIES;
    assert Node(guest / PAGE, 3) == Node(guest / PAGE, 2) / ENTRIES;
  }

  lemma IndexIgnoresHigh(n: nat, key: nat, level: nat)
    requires level <= 3
    ensures Index(n * KEYS + key, level) == Index(key, level)
  {
    NodeSplit(n, key, level);
    hide Node;
    var c := if level == 0 then 0x800_0000 else if level == 1 then 0x4_0000 else if level == 2 then 0x200 else 1;
    assert KEYS / Size(level) == ENTRIES * c;
    assert n * (ENTRIES * c) == ENTRIES * (n * c);
    LowIndex(n * c, Node(key, level));
  }

  /** The index the code computes from the full address is the tree's index of its key. */
  lemma IndexBits(guest: u64, level: nat)
    requires level <= 3
    ensures EntryIndex(guest, level) == Index(Key(guest), level)
  {
    NodeShifts(guest);
    var g := guest / PAGE;
    IndexIgnoresHigh(g / KEYS, g % KEYS, level);
    assert g / KEYS * KEYS + g % KEYS == g;
  }

  lemma LowIndex(k: nat, low: nat)
    ensures (ENTRIES * k + low) % ENTRIES == low % ENTRIES
  {
  }

  /** The entry that maps page key, from the table at t on. */
  function Walk(m: seq<u64>, t: nat, level: nat, key: nat): Option<u64>
    decreases level
  {
    if t % PAGE != 0 || t + PAGE > 8 * |m| then None
    else
      var e := Entry(m, t, Index(key, level));
      if !Valid(e) then None else if level == 0 then Some(e) else Walk(m, Paddr(e), level - 1, key)
  }

  /** Tables that map would have to allocate to reach page key. */
  function Missing(m: seq<u64>, t: nat, level: nat, key: nat): nat
    decreases level
  {
    if level == 0 || t % PAGE != 0 || t + PAGE > 8 * |m| then 0
    else
      var e := Entry(m, t, Index(key, level));
      if !Valid(e) then level else Missing(m, Paddr(e), level - 1, key)
  }

  /** Where a table stands in the tree: all pages it serves agree on prefix. */
  datatype Place = Place(level: nat, prefix: nat)

  /** Every table has one place, and every entry above level 0 leads to a table whose place
      is the one that entry stands for. So no two entries share a table. */
  ghost predicate Tree(m: seq<u64>, root: nat, places: map<nat, Place>, lo: nat, top: nat) {
    && top <= 8 * |m| && top <= U64_LIMIT
    && root in places && places[root] == Place(3, 0)
    && (forall t :: t in places ==> t % PAGE == 0 && lo <= t && t + PAGE <= top && places[t].level <= 3)
    && (forall t, i :: t in places && places[t].level > 0 && 0 <= i < ENTRIES && Valid(Entry(m, t, i)) ==>
          LeadsTo(places, places[t], i, Paddr(Entry(m, t, i))))
  }

  ghost predicate LeadsTo(places: map<nat, Place>, p: Place, i: nat, child: nat) {
    p.level > 0 && child in places && places[child] == Place(p.level - 1, p.prefix * ENTRIES + i)
  }

  /** Table t lies on the path of page key. */
  ghost predicate OnPath(places: map<nat, Place>, t: nat, level: nat, key: nat) {
    t in places && places[t] == Place(level, Node(key, level + 1))
  }

  lemma PathChild(m: seq<u64>, root: nat, places: map<nat, Place>, lo: nat, top: nat, t: nat, level: nat, key: nat)
    requires Tree(m, root, places, lo, top) && OnPath(places, t, level, key) && level > 0
    requires Valid(Entry(m, t, Index(key, level)))
    ensures OnPath(places, Paddr(Entry(m, t, Index(key, level))), level - 1, key)
  {
    assert LeadsTo(places, places[t], Index(key, level), Paddr(Entry(m, t, Index(key, level))));
  }

  lemma RootOnPath(places: map<nat, Place>, root: nat, key: nat)
    requires root in places && places[root] == Place(3, 0) && key < KEYS
    ensures OnPath(places, root, 3, key)
  {
    assert Node(key, 4) == Node(key, 3) / ENTRIES;
    assert Node(key, 1) == key / 0x200 && Node(key, 2) == key / 0x4_0000 && Node(key, 3) == key / 0x800_0000;
  }

  /** m' is m with entry i of table t changed. */
  ghost predicate OneEntry(m: seq<u64>, m': seq<u64>, t: nat, i: nat) {
    && |m'| == |m|
    && forall a :: 0 <= a < |m| && a != t / 8 + i ==> m'[a] == m[a]
  }

  lemma OtherEntry(m: seq<u64>, m': seq<u64>, t: nat, i: nat, u: nat, j: nat)
    requires t % PAGE == 0 && u % PAGE == 0 && u + PAGE <= 8 * |m| && i < ENTRIES && j < ENTRIES
    requires OneEntry(m, m', t, i) && (u != t || j != i)
    ensures Entry(m', u, j) == Entry(m, u, j)
  {
    var a, b := t / PAGE, u / PAGE;
    assert t / 8 == 0x200 * a && u / 8 == 0x200 * b;
  }

  /** Writing a leaf entry changes the translation of that page only. */
  lemma {:induction false} LeafWrite(m: seq<u64>, m': seq<u64>, root: nat, places: map<nat, Place>, lo: nat, top: nat,
                                     t: nat, page: nat, u: nat, level: nat, key: nat)
    requires Tree(m, root, places, lo, top) && OnPath(places, t, 0, page)
    requires OneEntry(m, m', t, Index(page, 0))
    requires OnPath(places, u, level, key) && key != page
    ensures Walk(m', u, level, key) == Walk(m, u, level, key)
    decreases level
  {
    if u == t {
      assert Node(key, 1) == Node(page, 1);
      assert Index(key, 0) != Index(page, 0);
    }
    OtherEntry(m, m', t, Index(page, 0), u, Index(key, level));
    if level > 0 && Valid(Entry(m, u, Index(key, level))) {
      PathChild(m, root, places, lo, top, u, level, key);
      LeafWrite(m, m', root, places, lo, top, t, page, Paddr(Entry(m, u, Index(key, level))), level - 1, key);
    }
  }

  /** A leaf write keeps the tree. */
  lemma LeafWriteTree(m: seq<u64>, m': seq<u64>, root: nat, places: map<nat, Place>, lo: nat, top: nat, t: nat, i: nat)
    requires Tree(m, root, places, lo, top) && t in places && places[t].level == 0 && i < ENTRIES
    requires OneEntry(m, m', t, i)
    ensures Tree(m', root, places, lo, top)
  {
    forall u, j | u in places && places[u].level > 0 && 0 <= j < ENTRIES && Valid(Entry(m', u, j))
      ensures LeadsTo(places, places[u], j, Paddr(Entry(m', u, j)))
    {
      OtherEntry(m, m', t, i, u, j);
    }
  }

  ghost predicate ZeroTable(m: seq<u64>, t: nat)
    requires t % PAGE == 0 && t + PAGE <= 8 * |m|
  {
    forall i :: 0 <= i < ENTRIES ==> Entry(m, t, i) == 0
  }

  /** Hanging a zeroed table under an invalid entry changes no translation. */
  lemma {:induction false} LinkWalk(m: seq<u64>, m': seq<u64>, root: nat, places: map<nat, Place>, lo: nat, top: nat,
                                    t: nat, i: nat, child: nat, u: nat, level: nat, key: nat)
    requires Tree(m, root, places, lo, top) && t in places && places[t].level > 0 && i < ENTRIES
    requires !Valid(Entry(m, t, i)) && OneEntry(m, m', t, i)
    requires Paddr(Entry(m', t, i)) == child && child % PAGE == 0 && child + PAGE <= 8 * |m'| && ZeroTable(m', child)
    requires OnPath(places, u, level, key)
    ensures Walk(m', u, level, key) == Walk(m, u, level, key)
    decreases level
  {
    if u == t && Index(key, level) == i {
      assert Entry(m', child, Index(key, level - 1)) == 0;
    } else {
      OtherEntry(m, m', t, i, u, Index(key, level));
      if level > 0 && Valid(Entry(m, u, Index(key, level))) {
        PathChild(m, root, places, lo, top, u, level, key);
        LinkWalk(m, m', root, places, lo, top, t, i, child, Paddr(Entry(m, u, Index(key, level))), level - 1, key);
      }
    }
  }

  /** The tree with the fresh table at the place its entry stands for. */
  lemma LinkTree(m: seq<u64>, m': seq<u64>, root: nat, places: map<nat, Place>, lo: nat, top: nat,
                 t: nat, i: nat, child: nat, top': nat)
    requires Tree(m, root, places, lo, top) && t in places && places[t].level > 0 && i < ENTRIES
    requires OneEntry(m, m', t, i)
    requires Paddr(Entry(m', t, i)) == child && child % PAGE == 0 && top <= child && lo <= child
    requires child + PAGE <= top' <= 8 * |m'| && top' <= U64_LIMIT && ZeroTable(m', child)
    ensures Tree(m', root, places[child := Place(places[t].level - 1, places[t].prefix * ENTRIES + i)], lo, top')
  {
    var places' := places[child := Place(places[t].level - 1, places[t].prefix * ENTRIES + i)];
    forall u, j | u in places' && places'[u].level > 0 && 0 <= j < ENTRIES && Valid(Entry(m', u, j))
      ensures LeadsTo(places', places'[u], j, Paddr(Entry(m', u, j)))
    {
      if u == child {
        assert false;
      } else if u != t || j != i {
        OtherEntry(m, m', t, i, u, j);
        assert LeadsTo(places, places[u], j, Paddr(Entry(m, u, j)));
      }
    }
  }

  /** Memory outside the tables does not matter. */
  lemma TreeFrame(m: seq<u64>, m': seq<u64>, root: nat, places: map<nat, Place>, lo: nat, top: nat)
    requires Tree(m, root, places, lo, top) && |m'| == |m|
    requires forall a :: 0 <= a < |m| && lo <= 8 * a < top ==> m'[a] == m[a]
    ensures Tree(m', root, places, lo, top)
    ensures forall t, i :: t in places && 0 <= i < ENTRIES ==> Entry(m', t, i) == Entry(m, t, i)
  {
    forall t, i | t in places && 0 <= i < ENTRIES
      ensures Entry(m', t, i) == Entry(m, t, i)
    {
      assert t / 8 == 0x200 * (t / PAGE);
      assert lo <= t <= 8 * (t / 8 + i) < t + PAGE <= top;
    }
    forall t, i | t in places && places[t].level > 0 && 0 <= i < ENTRIES && Valid(Entry(m', t, i))
      ensures LeadsTo(places, places[t], i, Paddr(Entry(m', t, i)))
    {
      assert LeadsTo(places, places[t], i, Paddr(Entry(m, t, i)));
    }
  }

  lemma {:induction false} WalkFrame(m: seq<u64>, m': seq<u64>, root: nat, places: map<nat, Place>, lo: nat, top: nat,
                                     u: nat, level: nat, key: nat)
    requires Tree(m, root, places, lo, top) && |m'| == |m| && OnPath(places, u, level, key)
    requires forall t, i :: t in places && 0 <= i < ENTRIES ==> Entry(m', t, i) == Entry(m, t, i)
    ensures Walk(m', u, level, key) == Walk(m, u, level, key)
    ensures Missing(m', u, level, key) == Missing(m, u, level, key)
    decreases level
  {
    assert Entry(m', u, Index(key, level)) == Entry(m, u, Index(key, level));
    if level > 0 && Valid(Entry(m, u, Index(key, level))) {
      PathChild(m, root, places, lo, top, u, level, key);
      WalkFrame(m, m', root, places, lo, top, Paddr(Entry(m, u, Index(key, level))), level - 1, key);
    }
  }

  /** The table of level target on the path of page key, from the table at t on. */
  function TableAt(m: seq<u64>, t: nat, level: nat, target: nat, key: nat): Option<nat>
    decreases level
  {
    if level <= target then Some(t)
    else if t % PAGE != 0 || t + PAGE > 8 * |m| then None
    else
      var e := Entry(m, t, Index(key, level));
      if !Valid(e) then None else TableAt(m, Paddr(e), level - 1, target, key)
  }

  lemma {:induction false} WalkFromTable(m: seq<u64>, t: nat, level: nat, target: nat, key: nat)
    requires target <= level && TableAt(m, t, level, target, key).Some?
    ensures var u := TableAt(m, t, level, target, key).value;
            Walk(m, t, level, key) == Walk(m, u, target, key) && Missing(m, t, level, key) == Missing(m, u, target, key)
    decreases level
  {
    if level > target {
      WalkFromTable(m, Paddr(Entry(m, t, Index(key, level))), level - 1, target, key);
    }
  }

  lemma {:induction false} TableBelow(m: seq<u64>, t: nat, level: nat, target: nat, key: nat)
    requires 0 < target <= level && TableAt(m, t, level, target, key).Some?
    requires var u := TableAt(m, t, level, target, key).value;
             u % PAGE == 0 && u + PAGE <= 8 * |m| && Valid(Entry(m, u, Index(key, target)))
    ensures var u := TableAt(m, t, level, target, key).value;
            TableAt(m, t, level, target - 1, key) == Some(Paddr(Entry(m, u, Index(key, target))))
    decreases level
  {
    if level > target {
      TableBelow(m, Paddr(Entry(m, t, Index(key, level))), level - 1, target, key);
    } else {
      assert TableAt(m, Paddr(Entry(m, t, Index(key, level))), level - 1, target - 1, key)
          == Some(Paddr(Entry(m, t, Index(key, level))));
    }
  }

  /** A path down to level target depends only on the tables above that level. */
  lemma {:induction false} TableAtFrame(m: seq<u64>, m': seq<u64>, root: nat, places: map<nat, Place>, lo: nat,
      top: nat,
                                        u: nat, level: nat, target: nat, key: nat)
    requires Tree(m, root, places, lo, top) && |m'| == |m| && OnPath(places, u, level, key)
    requires forall t, i :: t in places && places[t].level > target && 0 <= i < ENTRIES ==>
               Entry(m', t, i) == Entry(m, t, i)
    ensures TableAt(m', u, level, target, key) == TableAt(m, u, level, target, key)
    decreases level
  {
    if level > target {
      assert Entry(m', u, Index(key, level)) == Entry(m, u, Index(key, level));
      if Valid(Entry(m, u, Index(key, level))) {
        PathChild(m, root, places, lo, top, u, level, key);
        TableAtFrame(m, m', root, places, lo, top, Paddr(Entry(m, u, Index(key, level))), level - 1, target, key);
      }
    }
  }

  lemma {:induction false} MappedNeedsNoTable(m: seq<u64>, t: nat, level: nat, key: nat)
    requires Walk(m, t, level, key).Some?
    ensures Missing(m, t, level, key) == 0
    decreases level
  {
    if level > 0 {
      MappedNeedsNoTable(m, Paddr(Entry(m, t, Index(key, level))), level - 1, key);
    }
  }
}
