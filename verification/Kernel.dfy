/** The kernel's state and the operations that change it (os-1k/kernel.c): create_process with
    its loops, kernel_main, yield, exit, and what running code can store. */
module Kernel1K {
  import opened Basics
  import opened PhysicalMemory
  import opened Paging32
  import opened KernelMemory
  import opened AddressSpace
  import opened Scheduler
  import opened Processes
  import opened Isolation
  import opened BootTables
  import ProcessRuns

  /** A store by running code: a page fault, an address beyond the RAM, or a byte written. */
  datatype Store = Faulted | NoRam | Stored(at: nat)

  class Kernel {
    ghost var userPages: seq<nat>   // user pages of each slot's process
    const memory: PageAllocator
    const procs: array<Process>
    var current: nat    // slot of current_proc
    var idle: nat       // slot of idle_proc
    var cr3: nat        // the directory the CPU translates with

    ghost predicate Ready()
      reads this, memory
    {
      memory.Valid() && procs.Length == PROCS_MAX && (memory.onBoot ==> cr3 == BOOT_DIR)
    }

    ghost predicate Valid()
      reads this, memory, memory.mem, procs
    {
      && Ready()
      && SystemOk(memory.mem[..], procs[..], userPages, memory.freeRam - KERNEL_BASE, memory.Top())
    }

    constructor (mem: array<byte>, freeRam: u32)
      requires TOP_LIMIT <= mem.Length <= WORD_LIMIT
      requires KERNEL_BASE <= freeRam <= FREE_RAM_END && freeRam % PAGE_SIZE == 0
      ensures Valid() && memory.mem == mem && memory.nextPaddr == memory.freeRam == freeRam && fresh(procs)
                && fresh(memory)
      ensures memory.onBoot && cr3 == BOOT_DIR
      ensures forall s :: 0 <= s < PROCS_MAX ==> procs[s] == Process(0, Unused, 0)
    {
      memory := new PageAllocator(mem, freeRam);
      procs := new Process[PROCS_MAX](_ => Process(0, Unused, 0));
      userPages := seq(PROCS_MAX, _ => 0);
      current, idle, cr3 := 0, 0, BOOT_DIR;
    }

    ghost function AsSched(): Sched
      requires procs.Length == PROCS_MAX
      reads this, procs
    {
      Sched(procs[..], current, idle)
    }

    ghost function AsState(): ProcessRuns.State
      requires Ready()
      reads this, memory, memory.mem, procs
    {
      ProcessRuns.State(memory.mem[..], procs[..], memory.Top())
    }

    /** The kernel once kernel_main is done: CR3 always names the current process's directory. */
    ghost predicate Scheduling()
      reads this, memory, memory.mem, procs
    {
      Valid() && !memory.onBoot && SchedOk(AsSched()) && cr3 == procs[current].pageTable
    }

    /** map_page of the next page that create_process maps outside the user region, at the stage
        g of the address space, with g' the stage after it. */
    method MapNext(pageTable: u32, vaddr: u32, paddr: u32, ghost g: Progress, ghost g': Progress,
                   ghost m0: seq<byte>, ghost image: seq<byte>) returns (r: Result<()>)
      requires Ready() && pageTable >= KERNEL_BASE && vaddr % PAGE_SIZE == 0 && paddr % PAGE_SIZE == 0
      requires Building(m0, memory.mem[..], pageTable - KERNEL_BASE, g, memory.Top(), image) && g.user == 0
                 && g'.user == 0
      requires Granted(memory.onBoot, pageTable - KERNEL_BASE, memory.Top()).Ok?
      requires Adds(pageTable - KERNEL_BASE, g, g', memory.Top(), vaddr / PAGE_SIZE, paddr, PAGE_RW)
      requires TopAfter(pageTable - KERNEL_BASE, g') ==
               memory.Top() + if ExpectedEntry(pageTable - KERNEL_BASE, g, vaddr / PAGE_SIZE / ENTRIES) == 0
                   then PAGE_SIZE else 0
      modifies memory`nextPaddr, memory.mem
      ensures r == Granted(memory.onBoot, pageTable - KERNEL_BASE, TopAfter(pageTable - KERNEL_BASE, g'))
      ensures r.Ok? ==> Ready() && Building(m0, memory.mem[..], pageTable - KERNEL_BASE, g', memory.Top(), image)
      ensures r == Halt(PageFault) ==> BootBroken(m0, memory.mem[..])
    {
      hide Stage, Loaded, PageMapped, WellFormed, SameOutside, Entry, Granted, BootBroken, TopAfter, Adds,
           ExpectedEntry, Present, OrFrame;
      ghost var lo, before, top := pageTable - KERNEL_BASE, memory.mem[..], memory.Top();
      BuildingParts(m0, before, lo, g, top, image);
      NextSlot(before, lo, g, g', top, vaddr / PAGE_SIZE, paddr, PAGE_RW);
      r := memory.MapPage(pageTable, vaddr, paddr, PAGE_RW, lo);
      StepGranted(m0, before, memory.mem[..], lo, top, TopAfter(lo, g'), memory.onBoot, r);
      if r.Halt? {
        return;
      }
      BuildingMaps(m0, before, top, memory.mem[..], memory.Top(), lo, vaddr / PAGE_SIZE, paddr, PAGE_RW, g, g', image);
    }

    /** for (vaddr = 0x80000000; vaddr < 0x80400000; vaddr += PAGE_SIZE) ... */
    method MapKernelHalf(pageTable: u32, ghost m0: seq<byte>, ghost image: seq<byte>) returns (r: Result<()>)
      requires Ready() && pageTable >= KERNEL_BASE
      requires Building(m0, memory.mem[..], pageTable - KERNEL_BASE, Progress(0, 0, 0), memory.Top(), image)
      requires Granted(memory.onBoot, pageTable - KERNEL_BASE, memory.Top()).Ok?
      modifies memory`nextPaddr, memory.mem
      ensures r == Granted(memory.onBoot, pageTable - KERNEL_BASE,
                TopAfter(pageTable - KERNEL_BASE, Progress(REGION, 0, 0)))
      ensures r.Ok? ==>
                Ready()
                && Building(m0, memory.mem[..], pageTable - KERNEL_BASE, Progress(REGION, 0, 0), memory.Top(), image)
      ensures r == Halt(PageFault) ==> BootBroken(m0, memory.mem[..])
    {
      hide Stage, Loaded, SameOutside, Adds, Granted, BootBroken;
      ghost var lo := pageTable - KERNEL_BASE;
      ghost var high := 0;
      var vaddr := KERNEL_BASE;
      while vaddr < 0x8040_0000
        invariant Ready() && high <= REGION && vaddr == KERNEL_BASE + high * PAGE_SIZE
        invariant Building(m0, memory.mem[..], lo, Progress(high, 0, 0), memory.Top(), image)
        invariant Granted(memory.onBoot, lo, memory.Top()).Ok?
      {
        BuildingParts(m0, memory.mem[..], lo, Progress(high, 0, 0), memory.Top(), image);
        var paddr := vaddr - KERNEL_BASE;
        HighAdds(lo, high);
        r := MapNext(pageTable, vaddr, paddr, Progress(high, 0, 0), Progress(high + 1, 0, 0), m0, image);
        if r.Halt? {
          return;
        }
        vaddr := vaddr + PAGE_SIZE;
        high := high + 1;
      }
      return Ok(());
    }

    /** for (vaddr = 0; vaddr < 0x400000; vaddr += PAGE_SIZE) ... */
    method MapIdentity(pageTable: u32, ghost m0: seq<byte>, ghost image: seq<byte>) returns (r: Result<()>)
      requires Ready() && pageTable >= KERNEL_BASE
      requires Building(m0, memory.mem[..], pageTable - KERNEL_BASE, Progress(REGION, 0, 0), memory.Top(), image)
      requires Granted(memory.onBoot, pageTable - KERNEL_BASE, memory.Top()).Ok?
      modifies memory`nextPaddr, memory.mem
      ensures r == Granted(memory.onBoot, pageTable - KERNEL_BASE, TopAfter(pageTable - KERNEL_BASE, Finished(0)))
      ensures r.Ok? ==>
                Ready()
                && Building(m0, memory.mem[..], pageTable - KERNEL_BASE, Finished(0), memory.Top(), image)
      ensures r == Halt(PageFault) ==> BootBroken(m0, memory.mem[..])
    {
      hide Stage, Loaded, SameOutside, Adds, Granted, BootBroken;
      ghost var lo := pageTable - KERNEL_BASE;
      ghost var low := 0;
      var vaddr := 0;
      while vaddr < 0x40_0000
        invariant Ready() && low <= REGION && vaddr == low * PAGE_SIZE
        invariant Building(m0, memory.mem[..], lo, Progress(REGION, low, 0), memory.Top(), image)
        invariant Granted(memory.onBoot, lo, memory.Top()).Ok?
      {
        BuildingParts(m0, memory.mem[..], lo, Progress(REGION, low, 0), memory.Top(), image);
        LowAdds(lo, low);
        r := MapNext(pageTable, vaddr, vaddr, Progress(REGION, low, 0), Progress(REGION, low + 1, 0), m0, image);
        if r.Halt? {
          return;
        }
        vaddr := vaddr + PAGE_SIZE;
        low := low + 1;
      }
      return Ok(());
    }

    /** Allocate one frame and copy chunk to its start. */
    method LoadFrame(chunk: seq<byte>, ghost lo: nat, ghost user: nat, ghost m0: seq<byte>, ghost image: seq<byte>)
      returns (r: Result<u32>)
      requires Ready() && chunk == Chunk(image, user)
      requires Building(m0, memory.mem[..], lo, Finished(user), memory.Top(), image)
      requires Granted(memory.onBoot, lo, memory.Top()).Ok?
      modifies memory`nextPaddr, memory.mem
      ensures r == match Granted(memory.onBoot, lo, old(memory.Top()) + PAGE_SIZE)
                   case Ok(_) => Ok(old(memory.nextPaddr))
                   case Halt(panic) => Halt(panic)
      ensures r == Halt(PageFault) ==> BootBroken(m0, memory.mem[..])
      ensures r.Ok? ==> Ready() && memory.Top() == old(memory.Top()) + PAGE_SIZE
                        && Stage(memory.mem[..], lo, Finished(user), memory.Top())
                             && Loaded(memory.mem[..], lo, user + 1, image)
                        && SameOutside(m0, memory.mem[..], lo, memory.Top())
    {
      hide Stage, Loaded, SameOutside, BootBroken, Granted;
      ghost var m, top := memory.mem[..], memory.Top();
      BuildingParts(m0, m, lo, Finished(user), top, image);
      OnePage(memory.onBoot, top);
      r := memory.AllocPages(1);
      StepGranted(m0, m, memory.mem[..], lo, top, top + PAGE_SIZE, memory.onBoot,
                  if r.Ok? then Ok(()) else Halt(r.panic));
      if r.Halt? {
        return;
      }
      ghost var zeroed := memory.mem[..];
      CopyBytes(memory.mem, r.value - KERNEL_BASE, chunk);
      ChunkLoaded(zeroed, memory.mem[..], top, image, user);
      SameOutsideThen(m, zeroed, memory.mem[..], top, top + |chunk|, top + PAGE_SIZE);
      FrameAdded(m0, m, memory.mem[..], lo, user, top, image);
    }

    /** Allocate one frame, copy chunk to its start and map it at vaddr for the user. */
    method AddUserPage(pageTable: u32, vaddr: u32, chunk: seq<byte>, ghost user: nat, ghost m0: seq<byte>,
        ghost image: seq<byte>)
      returns (r: Result<()>)
      requires Ready() && pageTable >= KERNEL_BASE && user < REGION && vaddr == USER_BASE + user * PAGE_SIZE
      requires Building(m0, memory.mem[..], pageTable - KERNEL_BASE, Finished(user), memory.Top(), image)
      requires chunk == Chunk(image, user)
      requires Granted(memory.onBoot, pageTable - KERNEL_BASE, memory.Top()).Ok?
      modifies memory`nextPaddr, memory.mem
      ensures r == Granted(memory.onBoot, pageTable - KERNEL_BASE,
                TopAfter(pageTable - KERNEL_BASE, Finished(user + 1)))
      ensures r == Halt(PageFault) ==> BootBroken(m0, memory.mem[..])
      ensures r.Ok? ==>
                Ready()
                && Building(m0, memory.mem[..], pageTable - KERNEL_BASE, Finished(user + 1), memory.Top(), image)
    {
      hide Stage, Loaded, PageMapped, WellFormed, SameOutside, Entry, Adds, Granted, BootBroken, Building,
           TopAfter, UserFrame, ExpectedEntry, Chunk;
      ghost var lo, top := pageTable - KERNEL_BASE, memory.Top();
      UserTop(lo, user);
      BuildingParts(m0, memory.mem[..], lo, Finished(user), top, image);
      GrantedThen(memory.onBoot, lo, top + PAGE_SIZE, TopAfter(lo, Finished(user + 1)));
      var page := LoadFrame(chunk, lo, user, m0, image);
      if page.Halt? {
        return Halt(page.panic);
      }
      r := MapUserFrame(pageTable, vaddr, page.value - KERNEL_BASE, user, m0, image);
    }

    /** Map the frame that was just loaded. */
    method MapUserFrame(pageTable: u32, vaddr: u32, paddr: u32, ghost user: nat, ghost m0: seq<byte>,
        ghost image: seq<byte>)
      returns (r: Result<()>)
      requires Ready() && pageTable >= KERNEL_BASE && user < REGION && vaddr == USER_BASE + user * PAGE_SIZE
      requires Stage(memory.mem[..], pageTable - KERNEL_BASE, Finished(user), memory.Top())
      requires memory.Top() == TopAfter(pageTable - KERNEL_BASE, Finished(user)) + PAGE_SIZE
                 && paddr == memory.Top() - PAGE_SIZE
      requires Loaded(memory.mem[..], pageTable - KERNEL_BASE, user + 1, image)
      requires SameOutside(m0, memory.mem[..], pageTable - KERNEL_BASE, memory.Top())
      requires Granted(memory.onBoot, pageTable - KERNEL_BASE, memory.Top()).Ok?
      modifies memory`nextPaddr, memory.mem
      ensures r == Granted(memory.onBoot, pageTable - KERNEL_BASE,
                TopAfter(pageTable - KERNEL_BASE, Finished(user + 1)))
      ensures r == Halt(PageFault) ==> BootBroken(m0, memory.mem[..])
      ensures r.Ok? ==>
                Ready()
                && Building(m0, memory.mem[..], pageTable - KERNEL_BASE, Finished(user + 1), memory.Top(), image)
    {
      hide Stage, Loaded, PageMapped, WellFormed, SameOutside, Entry, Adds, Granted, BootBroken, Building,
           TopAfter, UserFrame, ExpectedEntry, Present, OrFrame;
      ghost var lo, m, top := pageTable - KERNEL_BASE, memory.mem[..], memory.Top();
      UserTop(lo, user);
      UserSlot(m, lo, user, top);
      UserAdds(lo, user);
      UserVaddr(user);
      r := memory.MapPage(pageTable, vaddr, paddr, PAGE_U + PAGE_RW, lo);
      StepGranted(m0, m, memory.mem[..], lo, top, TopAfter(lo, Finished(user + 1)), memory.onBoot, r);
      if r.Halt? {
        return;
      }
      UserPageMapped(m0, m, top, memory.mem[..], memory.Top(), lo, user, image, USER_PAGE + user, paddr);
    }

    /** for (off = 0; off < image_size; off += PAGE_SIZE) ... */
    method LoadImage(pageTable: u32, image: seq<byte>, ghost m0: seq<byte>) returns (r: Result<()>)
      requires Ready() && pageTable >= KERNEL_BASE && |image| < WORD_LIMIT
      requires Building(m0, memory.mem[..], pageTable - KERNEL_BASE, Finished(0), memory.Top(), image)
      requires Granted(memory.onBoot, pageTable - KERNEL_BASE, memory.Top()).Ok?
      modifies memory`nextPaddr, memory.mem
      ensures r == Granted(memory.onBoot, pageTable - KERNEL_BASE,
                TopAfter(pageTable - KERNEL_BASE, Finished(ImagePages(|image|))))
      ensures r == Halt(PageFault) ==> BootBroken(m0, memory.mem[..])
      ensures r.Ok? ==> Ready() && ImagePages(|image|) < REGION
                        && Building(m0, memory.mem[..], pageTable - KERNEL_BASE, Finished(ImagePages(|image|)),
                             memory.Top(), image)
    {
      hide Stage, Loaded, SameOutside, Granted, BootBroken;
      ghost var lo := pageTable - KERNEL_BASE;
      ghost var user := 0;
      var off: u32 := 0;
      while off < |image|
        invariant Ready() && user < REGION && off == user * PAGE_SIZE && user <= ImagePages(|image|)
        invariant Building(m0, memory.mem[..], lo, Finished(user), memory.Top(), image)
        invariant Granted(memory.onBoot, lo, memory.Top()).Ok?
      {
        assert user < ImagePages(|image|);
        var remaining := |image| - off;
        var copySize := if PAGE_SIZE <= remaining then PAGE_SIZE else remaining;
        assert image[off..off + copySize] == Chunk(image, user);
        UserStep(memory.onBoot, lo, user, ImagePages(|image|));
        r := AddUserPage(pageTable, USER_BASE + off, image[off..off + copySize], user, m0, image);
        if r.Halt? {
          return;
        }
        user := user + 1;
        off := off + PAGE_SIZE;
      }
      return Ok(());
    }

    /** for (vaddr = code_end; vaddr < stack_top; vaddr += PAGE_SIZE) ... */
    method MapStack(pageTable: u32, image: seq<byte>, ghost m0: seq<byte>) returns (r: Result<()>)
      requires Ready() && pageTable >= KERNEL_BASE && ImagePages(|image|) < REGION
      requires Building(m0, memory.mem[..], pageTable - KERNEL_BASE, Finished(ImagePages(|image|)), memory.Top(), image)
      requires Granted(memory.onBoot, pageTable - KERNEL_BASE, memory.Top()).Ok?
      modifies memory`nextPaddr, memory.mem
      ensures r == Granted(memory.onBoot, pageTable - KERNEL_BASE,
                TopAfter(pageTable - KERNEL_BASE, Finished(UserPages(|image|))))
      ensures r == Halt(PageFault) ==> BootBroken(m0, memory.mem[..])
      ensures r.Ok? ==> Ready()
                        && Building(m0, memory.mem[..], pageTable - KERNEL_BASE, Finished(UserPages(|image|)),
                             memory.Top(), image)
    {
      hide Stage, Loaded, SameOutside, Granted, BootBroken;
      ghost var lo := pageTable - KERNEL_BASE;
      ghost var user := ImagePages(|image|);
      var codeEnd: u32 := USER_BASE + FrameOf(|image| + PAGE_SIZE - 1);
      var vaddr := codeEnd;
      assert codeEnd == USER_BASE + user * PAGE_SIZE;
      while vaddr < STACK_TOP
        invariant Ready() && ImagePages(|image|) <= user <= UserPages(|image|) && vaddr == USER_BASE + user * PAGE_SIZE
        invariant Building(m0, memory.mem[..], lo, Finished(user), memory.Top(), image)
        invariant Granted(memory.onBoot, lo, memory.Top()).Ok?
      {
        UserStep(memory.onBoot, lo, user, UserPages(|image|));
        r := AddUserPage(pageTable, vaddr, [], user, m0, image);
        if r.Halt? {
          return;
        }
        user := user + 1;
        vaddr := vaddr + PAGE_SIZE;
      }
      return Ok(());
    }

    method CreateProcess(image: seq<byte>) returns (r: Result<nat>)
      requires Valid() && |image| < WORD_LIMIT
      modifies this`userPages, memory`nextPaddr, memory.mem, procs
      ensures var slot := FirstUnused(old(procs[..]));
              r == if slot == PROCS_MAX then Halt(NoFreeSlot)
                   else match Granted(memory.onBoot, old(memory.Top()),
                       RegionEnd(old(memory.Top()), UserPages(|image|)))
                        case Ok(_) => Ok(slot)
                        case Halt(panic) => Halt(panic)
      ensures r.Ok? ==> Valid() && userPages == old(userPages)[r.value := UserPages(|image|)]
      ensures r.Ok? ==> ProcessCreated(old(memory.mem[..]), old(procs[..]), old(memory.Top()),
                                       memory.mem[..], procs[..], memory.Top(), r.value, image)
      ensures r.Ok? ==> ImageInPlace(memory.mem[..], procs[r.value].pageTable, image)
      ensures r.Halt? ==> procs[..] == old(procs[..]) && userPages == old(userPages)
      ensures r == Halt(PageFault) ==> BootBroken(old(memory.mem[..]), memory.mem[..])
      ensures BootMapped(old(memory.mem[..])) && memory.onBoot ==>
                (r.Ok? ==>
                   BootMapped(memory.mem[..]) && KernelSees(memory.mem[..], cr3)
                   && KernelSees(memory.mem[..], procs[r.value].pageTable))
                && (r == Halt(PageFault) ==> KernelBlind(memory.mem[..]))
    {
      assert |userPages| == PROCS_MAX;
      hide SystemOk, Layout, Stage, Loaded, SameOutside, UserPages, RegionEnd, FirstUnused, ProcessCreated,
           Granted, BootBroken, BootMapped, KernelSees, KernelBlind, ImageInPlace;
      ghost var m, ps, lo := memory.mem[..], procs[..], memory.Top();
      var i := FindUnused();
      if i == PROCS_MAX {
        return Halt(NoFreeSlot);
      }
      var built := BuildAddressSpace(image);
      if built.Halt? {
        Blinded(m, memory.mem[..], built.panic);
        return Halt(built.panic);
      }
      var pageTable := built.value;
      ghost var m' := memory.mem[..];
      SystemGrows(m, m', ps, userPages, memory.freeRam - KERNEL_BASE, lo, i, Process(i + 1, Runnable, lo),
          UserPages(|image|));
      procs[i] := Process(i + 1, Runnable, pageTable - KERNEL_BASE);
      assert procs[..] == ps[i := Process(i + 1, Runnable, lo)];
      assert memory.mem[..] == m';
      LoadedInPlace(m', lo, image);
      CreatedIntro(m, ps, lo, m', i, image);
      GrantedView(m, ps, lo, m', procs[..], memory.Top(), i, image, memory.onBoot);
      userPages := userPages[i := UserPages(|image|)];
      return Ok(i);
    }

    /** The first loop of create_process. */
    method FindUnused() returns (i: nat)
      requires procs.Length == PROCS_MAX
      ensures i == FirstUnused(procs[..])
    {
      i := 0;
      while i < PROCS_MAX
        invariant i <= PROCS_MAX && FirstUnused(procs[..]) == FirstUnused(procs[..], i)
      {
        if procs[i].state == Unused {
          return;
        }
        i := i + 1;
      }
    }

    /** Directory and page mappings of create_process; returns the kernel pointer to the directory. */
    method BuildAddressSpace(image: seq<byte>) returns (r: Result<u32>)
      requires Ready() && |image| < WORD_LIMIT
      modifies memory`nextPaddr, memory.mem
      ensures r == match Granted(memory.onBoot, old(memory.Top()), RegionEnd(old(memory.Top()), UserPages(|image|)))
                   case Ok(_) => Ok(old(memory.nextPaddr))
                   case Halt(panic) => Halt(panic)
      ensures r == Halt(PageFault) ==> BootBroken(old(memory.mem[..]), memory.mem[..])
      ensures r.Ok? ==> Ready() && memory.Top() == RegionEnd(old(memory.Top()), UserPages(|image|))
                        && Layout(memory.mem[..], old(memory.Top()), UserPages(|image|))
                        && Loaded(memory.mem[..], old(memory.Top()), UserPages(|image|), image)
                        && SameOutside(old(memory.mem[..]), memory.mem[..], old(memory.Top()), memory.Top())
    {
      hide Stage, Loaded, SameOutside, BootBroken, UserPages, ImagePages, Granted, Building, Layout, TopAfter,
           RegionEnd;
      ghost var m0, lo, onBoot := memory.mem[..], memory.Top(), memory.onBoot;
      ghost var end := RegionEnd(lo, UserPages(|image|));
      RegionGrows(lo, |image|);
      GrantedThen(onBoot, lo, lo + PAGE_SIZE, end);
      OnePage(onBoot, lo);
      r := memory.AllocPages(1);
      if r.Halt? {
        return;
      }
      EmptyDirectoryBuilt(m0, memory.mem[..], lo, image);
      GrantedThen(onBoot, lo, TopAfter(lo, Progress(REGION, 0, 0)), end);
      var done := MapKernelHalf(r.value, m0, image);
      if done.Halt? {
        return Halt(done.panic);
      }
      BuildingParts(m0, memory.mem[..], lo, Progress(REGION, 0, 0), memory.Top(), image);
      GrantedThen(onBoot, lo, TopAfter(lo, Finished(0)), end);
      done := MapIdentity(r.value, m0, image);
      if done.Halt? {
        return Halt(done.panic);
      }
      BuildingParts(m0, memory.mem[..], lo, Finished(0), memory.Top(), image);
      GrantedThen(onBoot, lo, TopAfter(lo, Finished(ImagePages(|image|))), end);
      done := LoadImage(r.value, image, m0);
      if done.Halt? {
        return Halt(done.panic);
      }
      BuildingParts(m0, memory.mem[..], lo, Finished(ImagePages(|image|)), memory.Top(), image);
      done := MapStack(r.value, image, m0);
      if done.Halt? {
        return Halt(done.panic);
      }
      Completed(m0, memory.mem[..], lo, memory.Top(), image);
    }

    /** kernel_main: idle_proc = create_process(NULL, 0); idle_proc->pid = 0; */
    method CreateIdle() returns (r: Result<()>)
      requires Valid() && forall s :: 0 <= s < PROCS_MAX ==> !Used(procs[s])
      modifies this`idle, this`userPages, memory`nextPaddr, memory.mem, procs
      ensures r == Granted(memory.onBoot, old(memory.Top()), RegionEnd(old(memory.Top()), 4))
      ensures r.Ok? ==> Valid() && idle == 0 && memory.Top() == RegionEnd(old(memory.Top()), 4)
      ensures r.Ok? ==> procs[..] == old(procs[..])[0 := Process(0, Runnable, old(memory.Top()))]
      ensures r.Ok? ==> userPages == old(userPages)[0 := 4] && Loaded(memory.mem[..], old(memory.Top()), 4, [])
      ensures r.Ok? ==> ImageInPlace(memory.mem[..], old(memory.Top()), [])
      ensures r.Ok? ==> ProcessRuns.Creates(old(AsState()), AsState(), [])
      ensures BootMapped(old(memory.mem[..])) && memory.onBoot ==>
                (r.Ok? ==> BootMapped(memory.mem[..])) && (r == Halt(PageFault) ==> KernelBlind(memory.mem[..]))
    {
      assert UserPages(0) == 4;
      assert |userPages| == PROCS_MAX;
      FirstUnusedIs(procs[..], 0);
      hide Layout, Loaded, SameOutside, SystemOk, ProcessCreated, UserPages, FirstUnused, RegionEnd, Granted,
           BootBroken, BootMapped, KernelSees, KernelBlind, ProcessRuns.Creates, ImageInPlace;
      ghost var before := AsState();
      var first := CreateProcess([]);
      if first.Halt? {
        return Halt(first.panic);
      }
      idle := first.value;
      ghost var m, ps := memory.mem[..], procs[..];
      CreatedTable(old(memory.mem[..]), old(procs[..]), old(memory.Top()), m, ps, memory.Top(), idle, []);
      CreatedImage(before.m, before.procs, before.top, m, ps, memory.Top(), idle, []);
      PidIrrelevant(m, ps, userPages, memory.freeRam - KERNEL_BASE, memory.Top(), idle);
      procs[idle] := procs[idle].(pid := 0);
      assert procs[..] == ps[0 := ps[0].(pid := 0)] && memory.mem[..] == m;
      ProcessRuns.CreatesIntro(before, m, ps, memory.Top(), procs[..], []);
      return Ok(());
    }

    /** kernel_main: create the idle process, then the shell, and enter the shell. It runs under
        the VMM's boot directory until it loads the shell's. idleMade is the state in between. */
    method Boot(shell: seq<byte>) returns (r: Result<()>, ghost idleMade: ProcessRuns.State)
      requires Valid() && |shell| < WORD_LIMIT
      requires forall s :: 0 <= s < PROCS_MAX ==> !Used(procs[s])
      requires memory.onBoot && BootMapped(memory.mem[..])
      modifies this, memory`nextPaddr, memory`onBoot, memory.mem, procs
      ensures r == var end := RegionEnd(RegionEnd(old(memory.Top()), 4), UserPages(|shell|));
                   if MeetsBoot(old(memory.Top()), end) then Halt(PageFault)
                   else if end <= 0x3f_f000 then Ok(()) else Halt(OutOfMemory)
      ensures r.Ok? ==> Scheduling() && current == 1 && cr3 == RegionEnd(old(memory.Top()), 4)
      ensures r.Ok? ==>
                procs[..] ==
                old(procs[..])[0 := Process(0, Runnable, old(memory.Top()))][1 := Process(2, Runnable, cr3)]
      ensures r.Ok? ==> userPages == old(userPages)[0 := 4][1 := UserPages(|shell|)]
      ensures r.Ok? ==>
                Loaded(memory.mem[..], old(memory.Top()), 4, [])
                && Loaded(memory.mem[..], cr3, userPages[1], shell)
      ensures r.Ok? ==>
                ImageInPlace(memory.mem[..], old(memory.Top()), []) && ImageInPlace(memory.mem[..], cr3, shell)
      ensures r.Ok? ==> ProcessRuns.Run([old(AsState()), idleMade, AsState()], [[], shell])
      ensures r.Ok? ==> forall i, va: u32, b: byte :: 0 <= i < 2 ==>
                          ProcessRuns.WriteStaysInside([old(AsState()), idleMade, AsState()], [[], shell], i, va, b)
      ensures r.Ok? ==> KernelSees(memory.mem[..], BOOT_DIR) && KernelSees(memory.mem[..], cr3)
      ensures r == Halt(PageFault) ==> KernelBlind(memory.mem[..])
    {
      ghost var unused, lo := procs[..], memory.Top();
      assert |userPages| == PROCS_MAX;
      UserPagesPositive(|shell|);
      BootTable(unused, lo, RegionEnd(lo, 4));
      BootGranted(lo, |shell|);
      hide Layout, Loaded, SameOutside, SystemOk, ProcessCreated, UserPages, FirstUnused, SchedOk, Granted,
           RegionEnd, MeetsBoot, BootBroken, BootMapped, KernelSees, KernelBlind, ProcessRuns.Creates,
           ProcessRuns.Resident, ProcessRuns.WriteStaysInside, ProcessRuns.Run, ImageInPlace;
      ghost var before := AsState();
      r := CreateIdle();
      idleMade := before;
      if r.Halt? {
        return;
      }
      idleMade := AsState();
      ghost var m, ps, top := memory.mem[..], procs[..], memory.Top();
      var second := CreateProcess(shell);
      if second.Halt? {
        return Halt(second.panic), idleMade;
      }
      CreatedTable(m, ps, top, memory.mem[..], procs[..], memory.Top(), second.value, shell);
      CreatedImage(m, ps, top, memory.mem[..], procs[..], memory.Top(), second.value, shell);
      current := second.value;
      cr3 := procs[current].pageTable;
      memory.onBoot := false;
      ProcessRuns.CreatesIntro(idleMade, memory.mem[..], procs[..], memory.Top(), procs[..], shell);
      ProcessRuns.KernelMainRun(before, idleMade, AsState(), shell);
      ProcessRuns.IdleLoaded(before.top, idleMade.top, AsState());
      return Ok(()), idleMade;
    }

    /** Pick the next process and load its directory; switched tells whether yield came back
        to its caller at once. */
    method Yield() returns (switched: bool)
      requires Ready() && current < PROCS_MAX && idle < PROCS_MAX && cr3 == procs[current].pageTable
      modifies this`current, this`cr3
      ensures current == Next(old(AsSched())) && cr3 == procs[current].pageTable
      ensures switched <==> current != old(current)
      ensures old(Scheduling()) ==>
                Scheduling() && Step(old(AsSched()), Event.Yield) == Going(AsSched()) && KernelSees(memory.mem[..], cr3)
    {
      hide SystemOk, Layout, KernelSees, SchedOk, Scan, Step;
      ghost var before := AsSched();
      if Scheduling() {
        YieldGoesOn(before);
        EveryDirectoryKeepsView(memory.mem[..], procs[..], userPages, memory.freeRam - KERNEL_BASE, memory.Top());
      }
      var next := idle;
      var i := 0;
      while i < PROCS_MAX
        invariant i <= PROCS_MAX && next == idle && current == old(current) && cr3 == old(cr3)
        invariant Next(AsSched()) == Scan(procs[..], procs[current].pid, idle, i)
      {
        var at := (procs[current].pid + i) % PROCS_MAX;
        ScanStep(procs[..], procs[current].pid, idle, i);
        if procs[at].state == Runnable && procs[at].pid > 0 {
          next := at;
          break;
        }
        i := i + 1;
      }
      ScanEnd(procs[..], procs[current].pid, idle);
      assert next == Next(before);
      if next == current {
        return false;
      }
      current := next;
      cr3 := procs[next].pageTable;
      return true;
    }

    /** The exit case of handle_syscall. A process that exits stays inside its yield; picked again
        it returns from there, and so does one that was never left: the panic comes next. */
    method Exit() returns (r: Result<()>)
      requires Scheduling()
      modifies this`current, this`cr3, procs
      ensures var o := Step(old(AsSched()), Event.Exit);
              match o
              case Halted => r == Halt(Unreachable)
              case Going(s) => r == Ok(()) && AsSched() == s && Scheduling()
      ensures procs[..] == old(procs[..])[old(current) := old(procs[current]).(state := Exited)]
      ensures r.Ok? ==> current != old(current) && procs[current].state == Runnable
    {
      hide Layout;
      ghost var before := AsSched();
      procs[current] := procs[current].(state := Exited);
      assert procs[..] == Gone(before).procs;
      assert AsSched() == Gone(before);
      NextRunnable(Gone(before));
      var switched := Yield();
      if !switched || procs[current].state == Exited {
        return Halt(Unreachable);
      }
      ExitMarks(before);
      return Ok(());
    }

    /** One byte stored by the code of the current process. It runs at privilege level 0, so
        the store goes wherever the directory leads. A store below the allocator's memory hits
        the kernel's image: its code, and the data that are fields here. */
    method StoreByte(va: u32, b: byte) returns (r: Store)
      requires Scheduling()
      modifies memory.mem
      ensures r == match Walk(old(memory.mem[..]), cr3, va)
                   case None => Faulted
                   case Some(a) => if a < memory.mem.Length then Stored(a) else NoRam
      ensures r.Faulted? <==> !InUserWindow(va, userPages[current]) && !KernelVa(va)
      ensures memory.mem[..] == if r.Stored? then old(memory.mem[..])[r.at := b] else old(memory.mem[..])
      ensures r.Stored? && (InUserWindow(va, userPages[current])
                || !Foreign(procs[..], userPages, current, va % KERNEL_BASE)) ==>
                OthersKept(old(memory.mem[..]), r.at, b, procs[..], userPages, current)
      ensures r.Stored? && !InUserWindow(va, userPages[current]) ==>
                r.at < memory.freeRam - KERNEL_BASE || Foreign(procs[..], userPages, PROCS_MAX, r.at) || Scheduling()
      ensures !r.Stored? || InUserWindow(va, userPages[current]) ==> Scheduling()
    {
      ghost var m := memory.mem[..];
      assert |userPages| == PROCS_MAX && Layout(m, cr3, userPages[current]);
      SupervisorAccessExactly(m, cr3, userPages[current], va);
      hide Layout, WalkPage, Walk, UserAccess, Untouched, SameUserView, OthersKept, Foreign, KernelVa,
           InUserWindow, SchedOk, SystemOk, Next;
      var a := Translate(va);
      if a.None? {
        return Faulted;
      }
      if a.value >= memory.mem.Length {
        return NoRam;
      }
      WriteByte(va, a.value, b);
      return Stored(a.value);
    }

    method WriteByte(ghost va: u32, a: nat, b: byte)
      requires Scheduling() && Walk(memory.mem[..], cr3, va) == Some(a) && a < memory.mem.Length
      modifies memory.mem
      ensures memory.mem[..] == old(memory.mem[..])[a := b]
      ensures InUserWindow(va, userPages[current]) || !Foreign(procs[..], userPages, current, va % KERNEL_BASE) ==>
                OthersKept(old(memory.mem[..]), a, b, procs[..], userPages, current)
      ensures InUserWindow(va, userPages[current]) || !Foreign(procs[..], userPages, PROCS_MAX, a) ==> Scheduling()
    {
      ghost var m, ps, base, top := memory.mem[..], procs[..], memory.freeRam - KERNEL_BASE, memory.Top();
      hide SchedOk, SystemOk, Foreign, OthersKept, Walk, InUserWindow;
      StoreEffects(m, ps, userPages, base, top, current, va, a, b);
      memory.mem[a] := b;
      assert memory.mem[..] == m[a := b] && procs[..] == ps;
    }

    /** The MMU's walk for a store at privilege level 0: the U bit does not count, and no page of
        a process's address space is read-only. */
    method Translate(va: u32) returns (a: Option<nat>)
      requires Scheduling()
      ensures a == Walk(memory.mem[..], cr3, va)
    {
      ghost var m := memory.mem[..];
      var page := va / PAGE_SIZE;
      assert Layout(m, cr3, userPages[current]);
      assert cr3 % PAGE_SIZE == 0;
      var pde := memory.ReadEntry(cr3, page / ENTRIES);
      if !Present(pde) {
        return None;
      }
      assert OwnTable(Entry(m, cr3, page / ENTRIES), cr3, cr3, RegionEnd(cr3, userPages[current]));
      var pte := memory.ReadEntry(FrameOf(pde), page % ENTRIES);
      if !Present(pte) {
        return None;
      }
      return Some(FrameOf(pte) + va % PAGE_SIZE);
    }
  }
}
