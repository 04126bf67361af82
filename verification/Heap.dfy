/** The first-fit heap of HLeOs (src/hleos/kmalloc.rs): 16-byte chunks, one bit each. */
module HeapSpec {
  import opened Basics

  const HEAP_BASE := 0x80_0000_0000
  const HEAP_MEM := HEAP_BASE + 0x3f90
  const HEAP_END := HEAP_BASE + 0x20_0000
  const CHUNKS := 130055
  const CHUNK := 0x10

  /** (size + 0xf) / 0x10 */
  function ChunksFor(size: nat): nat { (size + 0xf) / CHUNK }

  /** n clear bits in a row from at on. */
  predicate Free(bits: seq<bool>, at: nat, n: nat) {
    at + n <= |bits| && forall k :: at <= k < at + n ==> !bits[k]
  }

  /** The lowest place from at on where n chunks fit, |bits| if there is none. */
  function FirstFit(bits: seq<bool>, n: nat, at: nat := 0): (r: nat)
    requires at <= |bits|
    ensures at <= r <= |bits| && (r < |bits| ==> Free(bits, r, n))
    ensures forall k :: at <= k < r && k < |bits| ==> !Free(bits, k, n)
    decreases |bits| - at
  {
    if at == |bits| || Free(bits, at, n) then at else FirstFit(bits, n, at + 1)
  }

  /** bits with [start, start + n) set to v, as far as there are bits. */
  function Fill(bits: seq<bool>, start: nat, n: nat, v: bool): (r: seq<bool>)
    ensures |r| == |bits|
    ensures forall i :: 0 <= i < |r| ==> r[i] == if start <= i < start + n then v else bits[i]
  {
    seq(|bits|, i requires 0 <= i < |bits| => if start <= i < start + n then v else bits[i])
  }

  // ---------------------------------------------------------------- what the bits mean

  /** A live allocation: its first chunk, and the size that was asked for. */
  datatype Block = Block(start: nat, size: nat) {
    function Count(): nat { ChunksFor(size) }
    function Address(): nat { HEAP_MEM + start * CHUNK }
    predicate Holds(i: nat) { start <= i < start + Count() }
    predicate ApartFrom(b: Block) { start + Count() <= b.start || b.start + b.Count() <= start }
  }

  /** The set bits are exactly the chunks of the live blocks; blocks do not overlap. */
  ghost predicate Accounts(bits: seq<bool>, live: set<Block>) {
    && (forall b :: b in live ==> 0 < b.Count() && b.start + b.Count() <= |bits|)
    && (forall b, c :: b in live && c in live && b != c ==> b.ApartFrom(c))
    && (forall i :: 0 <= i < |bits| ==> (bits[i] <==> exists b :: b in live && b.Holds(i)))
  }

  lemma NothingLive(bits: seq<bool>)
    requires forall i :: 0 <= i < |bits| ==> !bits[i]
    ensures Accounts(bits, {})
  {
  }

  lemma Occupied(bits: seq<bool>, live: set<Block>, c: Block, k: nat)
    requires Accounts(bits, live) && c in live && c.Holds(k)
    ensures k < |bits| && bits[k]
  {
  }

  lemma BlockTaken(bits: seq<bool>, live: set<Block>, at: nat, size: nat)
    requires Accounts(bits, live) && 0 < ChunksFor(size) && Free(bits, at, ChunksFor(size))
    ensures Accounts(Fill(bits, at, ChunksFor(size), true), live + {Block(at, size)})
    ensures Block(at, size) !in live
  {
    hide ChunksFor;
    var b, n := Block(at, size), ChunksFor(size);
    assert b.Holds(at);
    forall c | c in live
      ensures b.ApartFrom(c)
    {
      if !b.ApartFrom(c) {
        var k := if at < c.start then c.start else at;
        Occupied(bits, live, c, k);
      }
    }
    var bits', live' := Fill(bits, at, n, true), live + {b};
    forall i | 0 <= i < |bits'|
      ensures bits'[i] <==> exists c :: c in live' && c.Holds(i)
    {
      if b.Holds(i) {
        assert b in live';
      } else if bits[i] {
        var c :| c in live && c.Holds(i);
        assert c in live';
      }
    }
  }

  lemma BlockReturned(bits: seq<bool>, live: set<Block>, b: Block)
    requires Accounts(bits, live) && b in live
    ensures Accounts(Fill(bits, b.start, b.Count(), false), live - {b})
  {
    var bits', live' := Fill(bits, b.start, b.Count(), false), live - {b};
    forall i | 0 <= i < |bits'|
      ensures bits'[i] <==> exists c :: c in live' && c.Holds(i)
    {
      if bits'[i] {
        var c :| c in live && c.Holds(i);
        assert c in live';
      }
      if exists c :: c in live' && c.Holds(i) {
        var c :| c in live' && c.Holds(i);
        assert c.ApartFrom(b);
      }
    }
  }

  // ---------------------------------------------------------------- calls and runs

  /** What an allocation returns: null, the address of the block, or the arithmetic
      overflow panic of size + 0xf. */
  datatype Pointer = Null | At(addr: nat) | Panic

  /** FreeBlock is free of what kmalloc returned for the block; FreeStack is free of what
      stack_kmalloc returned for it, the address of its last chunk. */
  datatype Call = Kmalloc(size: u64) | StackKmalloc(size: u64) | FreeBlock(block: Block) | FreeStack(block: Block)

  datatype HeapState = HeapState(bits: seq<bool>, live: set<Block>)

  /** Where an allocation of that size goes; None when it returns null or panics. */
  function Target(bits: seq<bool>, size: u64): (at: nat)
    ensures at <= |bits|
  {
    if size == 0 || size + 0xf >= U64_LIMIT then |bits| else FirstFit(bits, ChunksFor(size))
  }

  function KmallocResult(bits: seq<bool>, size: u64): Pointer {
    if size == 0 then Null
    else if size + 0xf >= U64_LIMIT then Panic
    else if Target(bits, size) < |bits| then At(HEAP_MEM + Target(bits, size) * CHUNK) else Null
  }

  /** stack_kmalloc returns the address of the block's last chunk. */
  function StackKmallocResult(bits: seq<bool>, size: u64): Pointer {
    match KmallocResult(bits, size)
    case At(addr) => At(addr + (ChunksFor(size) - 1) * CHUNK)
    case other => other
  }

  /** The chunk a pointer handed to free names. */
  function ChunkOf(addr: nat): nat
    requires addr >= HEAP_MEM
  {
    (addr - HEAP_MEM) / CHUNK
  }

  /** The bitmap after free(addr, size); None is a panic of its unsigned arithmetic. */
  function FreeResult(bits: seq<bool>, addr: nat, size: u64): Freed {
    if size + 0xf >= U64_LIMIT || addr < HEAP_MEM then FreePanic
    else Bits(Fill(bits, ChunkOf(addr), ChunksFor(size), false))
  }

  datatype Freed = Bits(bits: seq<bool>) | FreePanic

  function Step(s: HeapState, c: Call): HeapState {
    match c
    case FreeBlock(b) =>
      if b in s.live then HeapState(Fill(s.bits, b.start, b.Count(), false), s.live - {b}) else s
    case FreeStack(b) =>
      if b in s.live && b.Count() > 0
      then HeapState(Fill(s.bits, b.start + b.Count() - 1, b.Count(), false), s.live - {b})
      else s
    case _ =>
      var at := Target(s.bits, c.size);
      if at == |s.bits| then s
      else HeapState(Fill(s.bits, at, ChunksFor(c.size), true), s.live + {Block(at, c.size)})
  }

  function Run(s: HeapState, calls: seq<Call>): HeapState
    decreases |calls|
  {
    if calls == [] then s else Run(Step(s, calls[0]), calls[1..])
  }

  /** Which chunks of another block free loses it, when it is given the last chunk of b: those
      among the b.Count() - 1 chunks right behind b. */
  lemma StackFreeHits(bits: seq<bool>, live: set<Block>, b: Block, c: Block)
    requires Accounts(bits, live) && b in live && c in live && b != c
    ensures var bits' := Fill(bits, b.start + b.Count() - 1, b.Count(), false);
            (forall i :: c.start <= i < c.start + c.Count() ==> bits'[i])
            <==> c.start + c.Count() <= b.start || b.start + 2 * b.Count() - 1 <= c.start
  {
    var bits' := Fill(bits, b.start + b.Count() - 1, b.Count(), false);
    assert b.ApartFrom(c);
    forall i | c.start <= i < c.start + c.Count()
      ensures bits[i]
    {
      Occupied(bits, live, c, i);
    }
    if b.start + b.Count() <= c.start < b.start + 2 * b.Count() - 1 {
      assert !bits'[c.start];
    }
  }

  /** The accounts survive exactly if the block is a single chunk: otherwise its first chunk
      stays set and belongs to nobody. */
  lemma StackFreeAccounts(bits: seq<bool>, live: set<Block>, b: Block)
    requires Accounts(bits, live) && b in live
    ensures Accounts(Fill(bits, b.start + b.Count() - 1, b.Count(), false), live - {b}) <==> b.Count() == 1
  {
    if b.Count() == 1 {
      BlockReturned(bits, live, b);
    } else {
      var bits' := Fill(bits, b.start + b.Count() - 1, b.Count(), false);
      Occupied(bits, live, b, b.start);
      forall c | c in live - {b}
        ensures !c.Holds(b.start)
      {
        assert b.ApartFrom(c);
      }
      assert bits'[b.start];
    }
  }

  lemma StepAccounts(s: HeapState, c: Call)
    requires Accounts(s.bits, s.live)
    ensures Accounts(Step(s, c).bits, Step(s, c).live) <==> (c.FreeStack? && c.block in s.live ==> c.block.Count() == 1)
    ensures |Step(s, c).bits| == |s.bits|
  {
    assert forall b :: b in s.live ==> b.Count() > 0;
    hide Accounts, FirstFit;
    match c {
      case FreeBlock(b) =>
        if b in s.live {
          BlockReturned(s.bits, s.live, b);
        }
      case FreeStack(b) =>
        if b in s.live && b.Count() > 0 {
          StackFreeAccounts(s.bits, s.live, b);
        }
      case _ =>
        if Target(s.bits, c.size) < |s.bits| {
          TargetFits(s.bits, c.size);
          BlockTaken(s.bits, s.live, Target(s.bits, c.size), c.size);
        }
    }
  }

  lemma TargetFits(bits: seq<bool>, size: u64)
    requires Target(bits, size) < |bits|
    ensures ChunksFor(size) > 0 && Free(bits, Target(bits, size), ChunksFor(size))
  {
  }

  /** The set bits are exactly the live blocks in every state of the run. */
  ghost predicate AlwaysAccounts(s: HeapState, calls: seq<Call>)
    decreases |calls|
  {
    Accounts(s.bits, s.live) && (calls != [] ==> AlwaysAccounts(Step(s, calls[0]), calls[1..]))
  }

  /** Whenever the run passes the pointer of stack_kmalloc to free, the block is one chunk. */
  predicate SingleStackFrees(s: HeapState, calls: seq<Call>)
    decreases |calls|
  {
    calls != [] ==>
      && (calls[0].FreeStack? && calls[0].block in s.live ==> calls[0].block.Count() == 1)
      && SingleStackFrees(Step(s, calls[0]), calls[1..])
  }

  /** Over any run of allocations and frees the set bits stay exactly the live blocks, if and
      only if every pointer of stack_kmalloc that is freed as it is names a single chunk. */
  lemma {:induction false} RunAccountsExactly(s: HeapState, calls: seq<Call>)
    requires Accounts(s.bits, s.live)
    ensures AlwaysAccounts(s, calls) <==> SingleStackFrees(s, calls)
    decreases |calls|
  {
    if calls != [] {
      hide Accounts, Step;
      StepAccounts(s, calls[0]);
      if Accounts(Step(s, calls[0]).bits, Step(s, calls[0]).live) {
        RunAccountsExactly(Step(s, calls[0]), calls[1..]);
      } else {
        assert !AlwaysAccounts(Step(s, calls[0]), calls[1..]);
      }
    }
  }

  /** So after such a run the accounts hold. */
  lemma {:induction false} RunKeepsAccounts(s: HeapState, calls: seq<Call>)
    requires Accounts(s.bits, s.live) && SingleStackFrees(s, calls)
    ensures Accounts(Run(s, calls).bits, Run(s, calls).live) && |Run(s, calls).bits| == |s.bits|
    decreases |calls|
  {
    if calls != [] {
      hide Accounts, Step;
      StepAccounts(s, calls[0]);
      RunKeepsAccounts(Step(s, calls[0]), calls[1..]);
    }
  }

  /** From a cleared bitmap on: after every run the set bits are exactly the live blocks. */
  lemma ClearedRun(bits: seq<bool>, calls: seq<Call>)
    requires forall i :: 0 <= i < |bits| ==> !bits[i]
    requires SingleStackFrees(HeapState(bits, {}), calls)
    ensures var end := Run(HeapState(bits, {}), calls);
            Accounts(end.bits, end.live) && |end.bits| == |bits|
  {
    NothingLive(bits);
    RunKeepsAccounts(HeapState(bits, {}), calls);
  }

  /** What the functions do is what the runs are made of: kmalloc and stack_kmalloc add the
      block whose first or last chunk they return, and free, given such an address of a live
      block and a size of as many chunks, makes the run's step. */
  lemma CallsAreSteps(s: HeapState, size: u64, b: Block)
    requires Accounts(s.bits, s.live)
    ensures match KmallocResult(s.bits, size)
            case At(addr) =>
              var taken := Block(ChunkOf(addr), size);
              taken !in s.live && addr == taken.Address()
              && StackKmallocResult(s.bits, size) == At(addr + (taken.Count() - 1) * CHUNK)
              && Step(s, Kmalloc(size)) == Step(s, StackKmalloc(size))
                 == HeapState(Fill(s.bits, taken.start, taken.Count(), true), s.live + {taken})
            case other =>
              StackKmallocResult(s.bits, size) == other
              && Step(s, Kmalloc(size)) == Step(s, StackKmalloc(size)) == s
    ensures b in s.live && ChunksFor(size) == b.Count() && size + 0xf < U64_LIMIT ==>
              FreeResult(s.bits, b.Address(), size) == Bits(Step(s, FreeBlock(b)).bits)
              && FreeResult(s.bits, b.Address() + (b.Count() - 1) * CHUNK, size) ==
                   Bits(Step(s, FreeStack(b)).bits)
  {
    hide FirstFit, ChunkOf, Accounts, ChunksFor;
    var at := Target(s.bits, size);
    ChunkAt(at);
    if KmallocResult(s.bits, size).At? {
      TargetFits(s.bits, size);
      BlockTaken(s.bits, s.live, at, size);
    }
    if b in s.live {
      FreesAreSteps(s, size, b);
    }
  }

  lemma FreesAreSteps(s: HeapState, size: u64, b: Block)
    requires Accounts(s.bits, s.live) && b in s.live
    ensures ChunksFor(size) == b.Count() && size + 0xf < U64_LIMIT ==>
              FreeResult(s.bits, b.Address(), size) == Bits(Step(s, FreeBlock(b)).bits)
              && FreeResult(s.bits, b.Address() + (b.Count() - 1) * CHUNK, size) ==
                   Bits(Step(s, FreeStack(b)).bits)
  {
    assert b.Count() > 0;
    hide FirstFit, ChunkOf, Accounts, ChunksFor;
    ChunkAt(b.start);
    ChunkAt(b.start + b.Count() - 1);
  }

  lemma ChunkAt(i: nat)
    ensures ChunkOf(HEAP_MEM + i * CHUNK) == i
  {
  }

  /** First fit: an allocation succeeds exactly if enough clear chunks stand together, and
      then takes the lowest such place. */
  lemma TargetIsLowest(bits: seq<bool>, size: u64)
    requires 0 < size && size + 0xf < U64_LIMIT
    ensures KmallocResult(bits, size).At? <==> exists at :: 0 <= at < |bits| && Free(bits, at, ChunksFor(size))
    ensures KmallocResult(bits, size).At? ==>
              var at := ChunkOf(KmallocResult(bits, size).addr);
              Free(bits, at, ChunksFor(size)) && forall k :: 0 <= k < at ==> !Free(bits, k, ChunksFor(size))
  {
    var at := Target(bits, size);
    if at < |bits| {
      assert ChunkOf(HEAP_MEM + at * CHUNK) == at;
    }
  }

  /** The chunks of a block hold the size asked for, with less than a chunk to spare. */
  lemma ChunksCover(size: nat)
    ensures size <= ChunksFor(size) * 0x10 < size + 0x10
    ensures ChunksFor(size) > 0 <==> size > 0
  {
  }

  /** A block's bytes lie inside the heap's 2 MB, past the bitmap, and no byte asked for belongs
      to two live allocations. */
  lemma BlocksInHeap(bits: seq<bool>, live: set<Block>, b: Block, c: Block)
    requires Accounts(bits, live) && |bits| == CHUNKS && b in live && c in live && b != c
    ensures HEAP_BASE + 8 * ((CHUNKS + 63) / 64) <= HEAP_MEM <= b.Address() && b.Address() % 0x10 == 0
    ensures b.Address() + b.Count() * CHUNK <= HEAP_END
    ensures b.Address() + b.Count() * CHUNK <= c.Address() || c.Address() + c.Count() * CHUNK <= b.Address()
    ensures b.Address() + b.size <= HEAP_END
    ensures b.Address() + b.size <= c.Address() || c.Address() + c.size <= b.Address()
  {
    assert b.ApartFrom(c);
    ChunksCover(b.size);
    ChunksCover(c.size);
    hide ChunksFor;
  }

  /** [addr, addr + size) lies in the heap and shares no byte with a live allocation. */
  predicate FreshBytes(live: set<Block>, addr: nat, size: nat) {
    && 0x80_0000_3f90 <= addr && addr + size <= 0x80_0020_0000 && addr % 0x10 == 0
    && forall b :: b in live ==> addr + size <= b.Address() || b.Address() + b.size <= addr
  }

  /** What kmalloc returns in any state with its accounts in order. */
  lemma FreshAllocation(bits: seq<bool>, live: set<Block>, size: u64)
    requires Accounts(bits, live) && |bits| == CHUNKS && KmallocResult(bits, size).At?
    ensures FreshBytes(live, KmallocResult(bits, size).addr, size)
  {
    var at := Target(bits, size);
    TargetFits(bits, size);
    BlockTaken(bits, live, at, size);
    var b, live' := Block(at, size), live + {Block(at, size)};
    hide Accounts, ChunksFor, Target;
    assert b in live' && KmallocResult(bits, size).addr == b.Address();
    ChunksCover(size);
    assert |Fill(bits, at, ChunksFor(size), true)| == CHUNKS;
    forall c | c in live
      ensures b.Address() + size <= c.Address() || c.Address() + c.size <= b.Address()
    {
      BlocksInHeap(Fill(bits, at, ChunksFor(size), true), live', b, c);
    }
    assert b.Address() % 0x10 == 0;
  }

  /** Over every run from a cleared bitmap that frees no multi-chunk block by stack_kmalloc's
      pointer: the bytes asked for by the live allocations lie in the heap and are pairwise
      disjoint, and whatever kmalloc returns next is disjoint from all of them. */
  lemma RunServesBytes(bits: seq<bool>, calls: seq<Call>, size: u64)
    requires |bits| == CHUNKS && forall i :: 0 <= i < |bits| ==> !bits[i]
    requires SingleStackFrees(HeapState(bits, {}), calls)
    ensures var end := Run(HeapState(bits, {}), calls);
            && (forall b :: b in end.live ==> FreshBytes(end.live - {b}, b.Address(), b.size))
            && (KmallocResult(end.bits, size).At? ==>
                  FreshBytes(end.live, KmallocResult(end.bits, size).addr, size))
  {
    ClearedRun(bits, calls);
    var end := Run(HeapState(bits, {}), calls);
    hide Run, KmallocResult;
    forall b | b in end.live
      ensures FreshBytes(end.live - {b}, b.Address(), b.size)
    {
      AloneInHeap(end.bits, end.live, b);
      forall c | c in end.live - {b}
        ensures b.Address() + b.size <= c.Address() || c.Address() + c.size <= b.Address()
      {
        BlocksInHeap(end.bits, end.live, b, c);
      }
      hide Accounts;
    }
    if KmallocResult(end.bits, size).At? {
      FreshAllocation(end.bits, end.live, size);
    }
  }

  lemma AloneInHeap(bits: seq<bool>, live: set<Block>, b: Block)
    requires Accounts(bits, live) && |bits| == CHUNKS && b in live
    ensures HEAP_MEM <= b.Address() && b.Address() + b.size <= HEAP_END && b.Address() % 0x10 == 0
  {
    ChunksCover(b.size);
  }

  /** Which bits kmalloc sets: those of the chunks that begin in the bytes asked for, all of them
      clear before. */
  lemma TakenExactly(bits: seq<bool>, size: u64, i: nat)
    requires KmallocResult(bits, size).At? && i < |bits|
    ensures var addr, chunk := KmallocResult(bits, size).addr, HEAP_MEM + 0x10 * i;
            && (addr <= chunk < addr + size ==> !bits[i])
            && (Fill(bits, Target(bits, size), ChunksFor(size), true)[i] <==> bits[i] || addr <= chunk < addr + size)
  {
    TargetFits(bits, size);
    ChunksCover(size);
    hide Target, ChunksFor;
  }

  /** stack_kmalloc returns the last of them. */
  lemma StackTakenExactly(bits: seq<bool>, size: u64, i: nat)
    requires StackKmallocResult(bits, size).At? && i < |bits|
    ensures var addr, chunk := StackKmallocResult(bits, size).addr, HEAP_MEM + 0x10 * i;
            && (chunk <= addr < chunk + size ==> !bits[i])
            && (Fill(bits, Target(bits, size), ChunksFor(size), true)[i] <==> bits[i] || chunk <= addr < chunk + size)
  {
    TargetFits(bits, size);
    ChunksCover(size);
    hide Target, ChunksFor;
  }

  /** Which bits free clears: those of the chunks that begin in size bytes from the start of the
      chunk at that address. */
  lemma FreedExactly(bits: seq<bool>, addr: nat, size: u64, i: nat)
    requires i < |bits|
    ensures FreeResult(bits, addr, size).FreePanic? <==> addr < HEAP_MEM || size + 0xf >= U64_LIMIT
    ensures FreeResult(bits, addr, size).Bits? ==>
              var first, chunk := addr - (addr - HEAP_MEM) % 0x10, HEAP_MEM + 0x10 * i;
              && |FreeResult(bits, addr, size).bits| == |bits|
              && (FreeResult(bits, addr, size).bits[i] <==> bits[i] && !(first <= chunk < first + size))
  {
    ChunksCover(size);
    hide ChunksFor;
  }

  /** free undoes kmalloc. */
  lemma FreeUndoesKmalloc(bits: seq<bool>, size: u64)
    requires KmallocResult(bits, size).At?
    ensures FreeResult(Fill(bits, Target(bits, size), ChunksFor(size), true), KmallocResult(bits, size).addr,
              size) == Bits(bits)
  {
    var at, n := Target(bits, size), ChunksFor(size);
    assert ChunkOf(HEAP_MEM + at * CHUNK) == at;
    assert Fill(Fill(bits, at, n, true), at, n, false) == bits;
  }

  /** The pointer stack_kmalloc returns, handed to free as it is, gives the block back exactly
      if the block is a single chunk; otherwise its first chunk stays taken. */
  lemma FreeOfStackPointer(bits: seq<bool>, size: u64)
    requires StackKmallocResult(bits, size).At?
    ensures FreeResult(Fill(bits, Target(bits, size), ChunksFor(size), true), StackKmallocResult(bits, size).addr,
              size) == Bits(bits)
       <==> ChunksFor(size) == 1
  {
    var at, n := Target(bits, size), ChunksFor(size);
    var addr := StackKmallocResult(bits, size).addr;
    assert addr == HEAP_MEM + (at + n - 1) * CHUNK;
    assert ChunkOf(addr) == at + n - 1;
    var taken := Fill(bits, at, n, true);
    if n == 1 {
      assert Fill(taken, at, 1, false) == bits;
    } else {
      assert Fill(taken, at + n - 1, n, false)[at] && !bits[at];
    }
  }

  /** Moved back to the block's first chunk, it does for every size. */
  lemma FreeUndoesStackKmalloc(bits: seq<bool>, size: u64)
    requires StackKmallocResult(bits, size).At?
    ensures FreeResult(Fill(bits, Target(bits, size), ChunksFor(size), true),
                       StackKmallocResult(bits, size).addr - (ChunksFor(size) - 1) * CHUNK, size) == Bits(bits)
  {
    FreeUndoesKmalloc(bits, size);
  }
}

module Heap {
  import opened Basics
  import opened PackedBits
  import opened BitMaps
  import opened HeapSpec

  class Heap {
    const bitmap: BitMap

    ghost predicate Valid() { bitmap.Valid() && bitmap.len == CHUNKS }

    ghost function View(): seq<bool>
      requires Valid()
      reads bitmap.bits
    {
      bitmap.View()
    }

    /** words is the memory at HEAP_BASE up to HEAP_MEM. */
    constructor (words: array<bv64>)
      requires words.Length == 0x7f2
      ensures Valid() && bitmap.bits == words
    {
      bitmap := new BitMap(words, CHUNKS);
    }

    /** init_kmalloc */
    method Init()
      requires Valid() && bitmap.bits.Length == 0x7f2
      modifies bitmap.bits
      ensures |View()| == 130055 && forall i :: 0 <= i < |View()| ==> !View()[i]
      ensures forall calls :: SingleStackFrees(HeapState(View(), {}), calls) ==>
                Accounts(Run(HeapState(View(), {}), calls).bits, Run(HeapState(View(), {}), calls).live)
    {
      var i := 0;
      while i < 0x7f2
        invariant i <= 0x7f2
        invariant forall k :: 0 <= k < i ==> bitmap.bits[k] == 0
      {
        bitmap.bits[i] := 0;
        i := i + 1;
      }
      hide Mask, Hits;
      forall k | 0 <= k < CHUNKS
        ensures !View()[k]
      {
        NoBits(Mask(k % 64));
      }
      forall calls | SingleStackFrees(HeapState(View(), {}), calls)
        ensures Accounts(Run(HeapState(View(), {}), calls).bits, Run(HeapState(View(), {}), calls).live)
      {
        ClearedRun(View(), calls);
      }
    }

    /** find_continuous_false */
    method FindContinuousFalse(num: nat) returns (at: nat)
      requires Valid() && num > 0
      ensures at == FirstFit(View(), num)
    {
      hide Test, FirstFit;
      ghost var v := View();
      var i, tmp, first := 0, num, bitmap.len;
      while i < bitmap.len
        invariant i <= bitmap.len && 1 <= tmp <= num <= i + tmp
        invariant tmp < num ==> first == i - (num - tmp)
        invariant forall k :: i - (num - tmp) <= k < i ==> !v[k]
        invariant i == num - tmp || v[i - (num - tmp) - 1]
        invariant forall k :: 0 <= k && k + num <= i ==> !Free(v, k, num)
      {
        var on := bitmap.IsSet(i);
        ghost var start := i - (num - tmp);
        if !on {
          if tmp == num {
            first := i;
          }
          tmp := tmp - 1;
        } else {
          tmp := num;
        }
        if tmp == 0 {
          assert Free(v, first, num);
          LowestIsFirst(v, num, first);
          return first;
        }
        NoRunYet(v, num, i, start, on);
        i := i + 1;
      }
      NowhereIsNone(v, num);
      return bitmap.len;
    }

    method SetRun(at: nat, n: nat)
      requires Valid() && at + n <= CHUNKS
      modifies bitmap.bits
      ensures View() == Fill(old(View()), at, n, true)
    {
      var i := 0;
      while i < n
        invariant i <= n && View() == Fill(old(View()), at, i, true)
      {
        var _ := bitmap.SetBit(at + i);
        i := i + 1;
      }
    }

    method Kmalloc(size: u64) returns (p: Pointer)
      requires Valid()
      modifies bitmap.bits
      ensures p == KmallocResult(old(View()), size)
      ensures View() == if p.At? then Fill(old(View()), Target(old(View()), size), ChunksFor(size), true)
                else old(View())
      ensures (size == 0 ==> p == Null) && (p == Panic <==> size + 0xf >= U64_LIMIT)
      ensures p.At? ==> p.addr + size <= HEAP_END
      ensures forall i :: 0 <= i < CHUNKS && p.At? && p.addr <= HEAP_MEM + 0x10 * i < p.addr + size ==> !old(View())[i]
      ensures forall i :: 0 <= i < CHUNKS ==>
                (View()[i] <==> old(View())[i] || (p.At? && p.addr <= HEAP_MEM + 0x10 * i < p.addr + size))
    {
      if size == 0 {
        return Null;
      }
      if size + 0xf >= U64_LIMIT {
        return Panic;
      }
      var n := ChunksFor(size);
      var chk := FindContinuousFalse(n);
      if chk != bitmap.len {
        KmallocTakes(View(), size);
        SetRun(chk, n);
        return At(HEAP_MEM + chk * CHUNK);
      }
      return Null;
    }

    method StackKmalloc(size: u64) returns (p: Pointer)
      requires Valid()
      modifies bitmap.bits
      ensures p == StackKmallocResult(old(View()), size)
      ensures View() == if p.At? then Fill(old(View()), Target(old(View()), size), ChunksFor(size), true)
                else old(View())
      ensures (size == 0 ==> p == Null) && (p == Panic <==> size + 0xf >= U64_LIMIT)
      ensures forall i :: 0 <= i < CHUNKS && p.At? && HEAP_MEM + 0x10 * i <= p.addr < HEAP_MEM + 0x10 * i + size ==>
                !old(View())[i]
      ensures forall i :: 0 <= i < CHUNKS ==>
                (View()[i] <==>
                   old(View())[i] || (p.At? && HEAP_MEM + 0x10 * i <= p.addr < HEAP_MEM + 0x10 * i + size))
    {
      if size == 0 {
        return Null;
      }
      if size + 0xf >= U64_LIMIT {
        return Panic;
      }
      var n := ChunksFor(size);
      var chk := FindContinuousFalse(n);
      if chk != bitmap.len {
        StackKmallocTakes(View(), size);
        SetRun(chk, n);
        return At(HEAP_MEM + chk * CHUNK + (n - 1) * CHUNK);
      }
      return Null;
    }

    /** free; ok is false when its unsigned arithmetic panics. */
    method Release(addr: nat, size: u64) returns (ok: bool)
      requires Valid()
      modifies bitmap.bits
      ensures match FreeResult(old(View()), addr, size)
              case Bits(bits) => ok && View() == bits
              case FreePanic => !ok && View() == old(View())
      ensures ok <==> addr >= HEAP_MEM && size + 0xf < U64_LIMIT
      ensures ok ==> forall i :: 0 <= i < CHUNKS ==>
                var first := addr - (addr - HEAP_MEM) % 0x10;
                (View()[i] <==> old(View())[i] && !(first <= HEAP_MEM + 0x10 * i < first + size))
    {
      if size + 0xf >= U64_LIMIT || addr < HEAP_MEM {
        return false;
      }
      FreeReturns(View(), addr, size);
      var n := ChunksFor(size);
      var chk := (addr - HEAP_MEM) / CHUNK;
      var i := 0;
      while i < n
        invariant i <= n && View() == Fill(old(View()), chk, i, false)
      {
        var _ := bitmap.UnsetBit(chk + i);
        i := i + 1;
      }
      return true;
    }
  }

  lemma KmallocTakes(bits: seq<bool>, size: u64)
    requires KmallocResult(bits, size).At? && |bits| == CHUNKS
    ensures var addr := KmallocResult(bits, size).addr;
            && addr + size <= HEAP_END
            && (forall i :: 0 <= i < CHUNKS && addr <= HEAP_MEM + 0x10 * i < addr + size ==> !bits[i])
            && forall i :: 0 <= i < CHUNKS ==>
                (Fill(bits, Target(bits, size), ChunksFor(size), true)[i] <==>
                   bits[i] || addr <= HEAP_MEM + 0x10 * i < addr + size)
  {
    TargetFits(bits, size);
    ChunksCover(size);
    hide Target, ChunksFor;
    forall i | 0 <= i < CHUNKS
      ensures var addr, taken := KmallocResult(bits, size).addr, Fill(bits, Target(bits, size), ChunksFor(size), true);
              && (addr <= HEAP_MEM + 0x10 * i < addr + size ==> !bits[i])
              && (taken[i] <==> bits[i] || addr <= HEAP_MEM + 0x10 * i < addr + size)
    {
      TakenExactly(bits, size, i);
    }
  }

  lemma StackKmallocTakes(bits: seq<bool>, size: u64)
    requires StackKmallocResult(bits, size).At? && |bits| == CHUNKS
    ensures var addr := StackKmallocResult(bits, size).addr;
            && (forall i :: 0 <= i < CHUNKS && HEAP_MEM + 0x10 * i <= addr < HEAP_MEM + 0x10 * i + size ==> !bits[i])
            && forall i :: 0 <= i < CHUNKS ==>
                (Fill(bits, Target(bits, size), ChunksFor(size), true)[i] <==>
                   bits[i] || HEAP_MEM + 0x10 * i <= addr < HEAP_MEM + 0x10 * i + size)
  {
    hide Target, ChunksFor;
    forall i | 0 <= i < CHUNKS
      ensures var addr, taken := StackKmallocResult(bits, size).addr,
                                 Fill(bits, Target(bits, size), ChunksFor(size), true);
              && (HEAP_MEM + 0x10 * i <= addr < HEAP_MEM + 0x10 * i + size ==> !bits[i])
              && (taken[i] <==> bits[i] || HEAP_MEM + 0x10 * i <= addr < HEAP_MEM + 0x10 * i + size)
    {
      StackTakenExactly(bits, size, i);
    }
  }

  lemma FreeReturns(bits: seq<bool>, addr: nat, size: u64)
    requires FreeResult(bits, addr, size).Bits? && |bits| == CHUNKS
    ensures addr >= HEAP_MEM
    ensures var first := addr - (addr - HEAP_MEM) % 0x10;
            forall i :: 0 <= i < CHUNKS ==>
                |FreeResult(bits, addr, size).bits| == CHUNKS
                && (FreeResult(bits, addr, size).bits[i] <==> bits[i] && !(first <= HEAP_MEM + 0x10 * i < first + size))
  {
    forall i | 0 <= i < CHUNKS
      ensures var first := addr - (addr - HEAP_MEM) % 0x10;
              |FreeResult(bits, addr, size).bits| == CHUNKS
              && (FreeResult(bits, addr, size).bits[i] <==> bits[i] && !(first <= HEAP_MEM + 0x10 * i < first + size))
    {
      FreedExactly(bits, addr, size, i);
    }
  }

  lemma NoBits(m: bv64)
    ensures !Hits(0, m)
  {
  }

  /** The scan at i, inside a clear run that began at start: no n clear bits end at i unless
      the run itself has that length. */
  lemma NoRunYet(v: seq<bool>, n: nat, i: nat, start: nat, on: bool)
    requires start <= i < |v| && on == v[i] && (on || i + 1 - start < n) && (start == 0 || v[start - 1])
    requires forall k :: 0 <= k && k + n <= i ==> !Free(v, k, n)
    ensures n > 0 ==> forall k :: 0 <= k && k + n <= i + 1 ==> !Free(v, k, n)
  {
    forall k | 0 <= k && k + n <= i + 1 && n > 0
      ensures !Free(v, k, n)
    {
      if k + n == i + 1 {
        assert if on then v[i] else v[start - 1];
      }
    }
  }

  lemma LowestIsFirst(v: seq<bool>, n: nat, at: nat)
    requires at < |v| && Free(v, at, n) && forall k :: 0 <= k < at ==> !Free(v, k, n)
    ensures FirstFit(v, n) == at
  {
  }

  lemma NowhereIsNone(v: seq<bool>, n: nat)
    requires n > 0 && forall k :: 0 <= k && k + n <= |v| ==> !Free(v, k, n)
    ensures FirstFit(v, n) == |v|
  {
  }
}
