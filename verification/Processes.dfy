/** What create_process (os-1k/kernel.c) builds: one address space after another out of the
    same bump allocator, every one complete, and apart from all built before. */
module Processes {
  import opened Basics
  import opened PhysicalMemory
  import opened Paging32
  import opened KernelMemory
  import opened AddressSpace
  import opened Scheduler

  const USER_BASE := 0x0100_0000
  const STACK_TOP := 0x0100_4000

  /** Pages an image of that many bytes occupies. */
  function ImagePages(size: nat): nat { (size + PAGE_SIZE - 1) / PAGE_SIZE }

  /** User pages of a process: its image, and at least the 16 KB up to STACK_TOP. */
  function UserPages(size: nat): nat { Max(4, ImagePages(size)) }

  /** What create_process has done so far at lo: memory below lo and from the allocator's
      top upwards is as it was in m0. */
  ghost predicate Building(m0: seq<byte>, m: seq<byte>, lo: nat, g: Progress, top: nat, image: seq<byte>) {
    && top == TopAfter(lo, g) && Stage(m, lo, g, top)
    && SameOutside(m0, m, lo, top)
    && Loaded(m, lo, g.user, image)
  }

  lemma FrameKept(m: seq<byte>, m': seq<byte>, frame: nat, image: seq<byte>, k: nat)
    requires FrameHolds(m, frame, image, k) && SameWithin(m, m', frame, frame + PAGE_SIZE)
    ensures FrameHolds(m', frame, image, k)
  {
  }

  /** One more step of a process under construction that may take the page at the allocator's
      top: whether the pages up to there were granted, and what a fault means. */
  lemma StepGranted(m0: seq<byte>, m: seq<byte>, m': seq<byte>, lo: nat, top: nat, top': nat, onBoot: bool,
      r: Result<()>)
    requires lo <= top && lo % PAGE_SIZE == 0 && top % PAGE_SIZE == 0
    requires SameOutside(m0, m, lo, top) && Granted(onBoot, lo, top).Ok?
    requires (top' == top && r == Ok(())) || (top' == top + PAGE_SIZE && r == Granted(onBoot, top, top + PAGE_SIZE))
    requires r == Halt(PageFault) ==> BootBroken(m, m')
    ensures r == Granted(onBoot, lo, top')
    ensures r == Halt(PageFault) ==> BootBroken(m0, m')
  {
    hide BootBroken, SameOutside;
    if r == Halt(PageFault) {
      BrokenSince(m0, m, m', lo, top);
    }
  }

  lemma BuildingParts(m0: seq<byte>, m: seq<byte>, lo: nat, g: Progress, top: nat, image: seq<byte>)
    requires Building(m0, m, lo, g, top, image)
    ensures top == TopAfter(lo, g) && lo < top && lo % PAGE_SIZE == 0 && top % PAGE_SIZE == 0
    ensures SameOutside(m0, m, lo, top) && |m| == |m0|
  {
    assert lo % PAGE_SIZE == 0;
    hide Stage, Loaded, SameOutside;
  }

  /** The directory slot of the next page: present exactly if the stage expects a table there. */
  lemma NextSlot(m: seq<byte>, lo: nat, g: Progress, g': Progress, top: nat, page: Page, frame: nat, flags: nat)
    requires Stage(m, lo, g, top) && Adds(lo, g, g', top, page, frame, flags)
    ensures WellFormed(m, lo, lo, top)
    ensures Entry(m, lo, page / ENTRIES) == ExpectedEntry(lo, g, page / ENTRIES)
    ensures Present(Entry(m, lo, page / ENTRIES)) <==> ExpectedEntry(lo, g, page / ENTRIES) != 0
  {
    hide WalkPage, ExpectedPage, Word;
  }

  lemma EmptyDirectoryBuilt(m0: seq<byte>, m: seq<byte>, lo: nat, image: seq<byte>)
    requires lo % PAGE_SIZE == 0 && lo + PAGE_SIZE <= |m| && lo + PAGE_SIZE <= WORD_LIMIT
    requires ZeroWithin(m, lo, lo + PAGE_SIZE) && SameOutside(m0, m, lo, lo + PAGE_SIZE)
    ensures Building(m0, m, lo, Progress(0, 0, 0), lo + PAGE_SIZE, image)
  {
    EmptyDirectory(m, lo, lo + PAGE_SIZE);
  }

  /** A user frame is none of the process's tables, and lies below what comes next. */
  lemma FrameIsNoTable(lo: nat, k: nat, user: nat)
    requires k < user
    ensures var f := UserFrame(lo, k);
            && (f + PAGE_SIZE <= lo + 4 * PAGE_SIZE || lo + 5 * PAGE_SIZE <= f)
            && lo + 3 * PAGE_SIZE <= f && f + PAGE_SIZE <= TopAfter(lo, Finished(user))
  {
  }

  /** Mapping pages without user frames keeps Building. */
  lemma BuildingMaps(m0: seq<byte>, m: seq<byte>, top: nat, m': seq<byte>, top': nat, lo: nat,
                     page: Page, frame: nat, flags: nat, g: Progress, g': Progress, image: seq<byte>)
    requires Building(m0, m, lo, g, top, image) && g.user == 0 && g'.user == 0
    requires Adds(lo, g, g', top, page, frame, flags) && PageMapped(m, top, m', top', lo, lo, page, frame, flags)
    requires TopAfter(lo, g') == if ExpectedEntry(lo, g, page / ENTRIES) == 0 then top + PAGE_SIZE else top
    ensures Building(m0, m', lo, g', top', image)
  {
    Advance(m, top, m', top', lo, page, frame, flags, g, g');
    var pde := Entry(m', lo, page / ENTRIES);
    assert OwnTable(pde, lo, lo, top');
    OutsideRegionKept(m0, m, m', lo, FrameOf(pde), top, top');
  }

  lemma OutsideRegionKept(m0: seq<byte>, m: seq<byte>, m': seq<byte>, lo: nat, table: nat, top: nat, top': nat)
    requires |m| == |m'| && SameOutside(m0, m, lo, top) && lo <= top <= top'
    requires lo + PAGE_SIZE <= top' && lo <= table && table + PAGE_SIZE <= top'
    requires SameOutsidePages(m, m', lo, table, top, top')
    ensures SameOutside(m0, m', lo, top')
  {
  }

  /** A new frame at the allocator's top, filled before it is mapped. */
  lemma FrameAdded(m0: seq<byte>, m: seq<byte>, m': seq<byte>, lo: nat, user: nat, top: nat, image: seq<byte>)
    requires Building(m0, m, lo, Finished(user), top, image)
    requires SameOutside(m, m', top, top + PAGE_SIZE) && top + PAGE_SIZE <= |m| && top + PAGE_SIZE <= WORD_LIMIT
    requires FrameHolds(m', top, image, user)
    ensures Stage(m', lo, Finished(user), top + PAGE_SIZE) && Loaded(m', lo, user + 1, image)
    ensures SameOutside(m0, m', lo, top + PAGE_SIZE)
  {
    StageFrame(m, m', lo, Finished(user), top, top + PAGE_SIZE);
    forall k | 0 <= k < user
      ensures FrameHolds(m', UserFrame(lo, k), image, k)
    {
      FrameIsNoTable(lo, k, user);
      assert FrameHolds(m, UserFrame(lo, k), image, k);
      FrameKept(m, m', UserFrame(lo, k), image, k);
    }
    assert UserFrame(lo, user) == top;
  }

  lemma FramesKeptWhileMapping(m: seq<byte>, m': seq<byte>, lo: nat, user: nat, image: seq<byte>, top: nat, top': nat)
    requires |m| == |m'| && Loaded(m, lo, user + 1, image) && top == TopAfter(lo, Finished(user)) + PAGE_SIZE
    requires SameOutsidePages(m, m', lo, lo + 4 * PAGE_SIZE, top, top')
    ensures Loaded(m', lo, user + 1, image)
  {
    forall k | 0 <= k < user + 1
      ensures FrameHolds(m', UserFrame(lo, k), image, k)
    {
      FrameIsNoTable(lo, k, user + 1);
      assert FrameHolds(m, UserFrame(lo, k), image, k);
      FrameKept(m, m', UserFrame(lo, k), image, k);
    }
  }

  lemma UserSlot(m: seq<byte>, lo: nat, user: nat, top: nat)
    requires user < REGION && Stage(m, lo, Finished(user), top)
    ensures lo % PAGE_SIZE == 0 && (USER_PAGE + user) / ENTRIES == USER_SLOT
    ensures Entry(m, lo, USER_SLOT) == ExpectedEntry(lo, Finished(user), USER_SLOT)
    ensures Present(Entry(m, lo, USER_SLOT)) <==> user > 0
    ensures WellFormed(m, lo, lo, top)
  {
    assert lo % PAGE_SIZE == 0;
    assert lo + 4 * PAGE_SIZE + TABLE_FLAGS == PAGE_SIZE * (lo / PAGE_SIZE + 4) + TABLE_FLAGS;
    LowBits(lo / PAGE_SIZE + 4, TABLE_FLAGS);
  }

  /** Mapping the new frame completes one more user page. */
  lemma UserPageMapped(m0: seq<byte>, m: seq<byte>, top: nat, m': seq<byte>, top': nat, lo: nat, user: nat,
      image: seq<byte>,
                       page: Page, frame: nat)
    requires page == USER_PAGE + user && frame == UserFrame(lo, user)
    requires user < REGION && Stage(m, lo, Finished(user), top) && top == TopAfter(lo, Finished(user)) + PAGE_SIZE
    requires Loaded(m, lo, user + 1, image) && SameOutside(m0, m, lo, top)
    requires PageMapped(m, top, m', top', lo, lo, page, frame, PAGE_U + PAGE_RW)
    ensures Building(m0, m', lo, Finished(user + 1), top', image)
  {
    UserAdds(lo, user);
    UserSlot(m, lo, user, top);
    Advance(m, top, m', top', lo, USER_PAGE + user, UserFrame(lo, user),
            PAGE_U + PAGE_RW, Finished(user), Finished(user + 1));
    assert Entry(m', lo, USER_SLOT) == ExpectedEntry(lo, Finished(user + 1), USER_SLOT);
    assert FrameOf(Entry(m', lo, USER_SLOT)) == lo + 4 * PAGE_SIZE;
    FramesKeptWhileMapping(m, m', lo, user, image, top, top');
    OutsideRegionKept(m0, m, m', lo, lo + 4 * PAGE_SIZE, top, top');
  }

  /** The part of the image that goes into user page k, empty past its end. */
  function Chunk(image: seq<byte>, k: nat): (c: seq<byte>)
    ensures |c| <= PAGE_SIZE
  {
    image[Min(k * PAGE_SIZE, |image|)..Min((k + 1) * PAGE_SIZE, |image|)]
  }

  /** A zeroed frame that received the image's next chunk holds that part of the image. */
  lemma ChunkLoaded(zeroed: seq<byte>, m: seq<byte>, frame: nat, image: seq<byte>, k: nat)
    requires frame + PAGE_SIZE <= |m|
    requires ZeroWithin(zeroed, frame, frame + PAGE_SIZE) && SameOutside(zeroed, m, frame, frame + |Chunk(image, k)|)
    requires m[frame..frame + |Chunk(image, k)|] == Chunk(image, k)
    ensures FrameHolds(m, frame, image, k)
  {
    var chunk := Chunk(image, k);
    forall a | frame <= a < frame + PAGE_SIZE
      ensures m[a] == ImageByte(image, k * PAGE_SIZE + (a - frame))
    {
      var b := a - frame;
      if b < |chunk| {
        assert m[frame..frame + |chunk|][b] == chunk[b];
      } else {
        assert m[a] == zeroed[a] == 0;
      }
    }
  }

  /** A process's pages: [lo, RegionEnd(lo, n)). */
  function RegionEnd(lo: nat, n: nat): nat { lo + PagesFor(n) * PAGE_SIZE }

  predicate Apart(lo: nat, n: nat, lo': nat, n': nat) {
    RegionEnd(lo, n) <= lo' || RegionEnd(lo', n') <= lo
  }

  /** Every process has its own complete address space in [base, top), disjoint from all others. */
  ghost predicate SystemOk(m: seq<byte>, procs: Table, pages: seq<nat>, base: nat, top: nat) {
    && |pages| == PROCS_MAX
    && (forall s :: 0 <= s < PROCS_MAX && Used(procs[s]) ==>
          && Layout(m, procs[s].pageTable, pages[s])
          && base <= procs[s].pageTable && RegionEnd(procs[s].pageTable, pages[s]) <= top)
    && (forall s, t :: 0 <= s < t < PROCS_MAX && Used(procs[s]) && Used(procs[t]) ==>
          Apart(procs[s].pageTable, pages[s], procs[t].pageTable, pages[t]))
  }

  /** A new address space above top joins the system; the old ones do not notice. */
  lemma SystemGrows(m: seq<byte>, m': seq<byte>, procs: Table, pages: seq<nat>, base: nat, top: nat,
                    slot: nat, p: Process, n: nat)
    requires SystemOk(m, procs, pages, base, top) && slot < PROCS_MAX && !Used(procs[slot])
    requires SameOutside(m, m', top, RegionEnd(top, n)) && Layout(m', top, n) && base <= top
    requires p.pageTable == top
    ensures SystemOk(m', procs[slot := p], pages[slot := n], base, RegionEnd(top, n))
  {
    hide Stage;
    var procs', pages' := procs[slot := p], pages[slot := n];
    forall s | 0 <= s < PROCS_MAX && Used(procs'[s])
      ensures Layout(m', procs'[s].pageTable, pages'[s])
    {
      if s != slot {
        var lo, end := procs[s].pageTable, RegionEnd(procs[s].pageTable, pages[s]);
        StageBelow(m, m', lo, pages[s], top, RegionEnd(top, n));
      }
    }
  }

  lemma StageBelow(m: seq<byte>, m': seq<byte>, lo: nat, n: nat, top: nat, top': nat)
    requires Layout(m, lo, n) && RegionEnd(lo, n) <= top && SameOutside(m, m', top, top')
    ensures Layout(m', lo, n)
  {
    StageFrame(m, m', lo, Finished(n), RegionEnd(lo, n), RegionEnd(lo, n));
  }

  /** One user page more on the way to n of them. */
  lemma UserStep(onBoot: bool, lo: nat, user: nat, n: nat)
    requires user < n
    ensures TopAfter(lo, Finished(user + 1)) <= TopAfter(lo, Finished(n))
    ensures Granted(onBoot, lo, TopAfter(lo, Finished(user + 1))).Halt? ==>
              Granted(onBoot, lo, TopAfter(lo, Finished(n))) == Granted(onBoot, lo, TopAfter(lo, Finished(user + 1)))
  {
    GrantedThen(onBoot, lo, TopAfter(lo, Finished(user + 1)), TopAfter(lo, Finished(n)));
  }

  lemma UserVaddr(user: nat)
    ensures (USER_BASE + user * PAGE_SIZE) / PAGE_SIZE == USER_PAGE + user
              && (USER_BASE + user * PAGE_SIZE) % PAGE_SIZE == 0
  {
    assert USER_BASE + user * PAGE_SIZE == 0x1000 * (0x1000 + user);
  }

  lemma UserTop(lo: nat, user: nat)
    ensures TopAfter(lo, Finished(user + 1)) == TopAfter(lo, Finished(user)) + PAGE_SIZE
              + (if user == 0 then PAGE_SIZE else 0)
    ensures lo < TopAfter(lo, Finished(user))
  {
  }

  /** The stages of create_process on the way to the whole region. */
  lemma RegionGrows(lo: nat, size: nat)
    ensures var end := RegionEnd(lo, UserPages(size));
            && end == TopAfter(lo, Finished(UserPages(size)))
            && lo + PAGE_SIZE <= TopAfter(lo, Progress(REGION, 0, 0)) <= TopAfter(lo, Finished(0))
            && TopAfter(lo, Finished(0)) <= TopAfter(lo, Finished(ImagePages(size))) <= end
  {
    assert UserPages(size) >= 4 && UserPages(size) >= ImagePages(size);
    hide UserPages, ImagePages;
  }

  /** What create_process leaves behind in slot: a complete address space at the old top of
      the allocator, with the image in its frames, and everything outside it untouched. */
  ghost predicate ProcessCreated(m: seq<byte>, ps: Table, top: nat, m': seq<byte>, ps': Table, top': nat, slot: nat,
      image: seq<byte>) {
    var n := UserPages(|image|);
    && top' == RegionEnd(top, n)
    && slot < PROCS_MAX && ps' == ps[slot := Process(slot + 1, Runnable, top)]
    && Layout(m', top, n) && Loaded(m', top, n, image) && SameOutside(m, m', top, top')
  }

  lemma Completed(m0: seq<byte>, m: seq<byte>, lo: nat, top: nat, image: seq<byte>)
    requires Building(m0, m, lo, Finished(UserPages(|image|)), top, image)
    ensures var n := UserPages(|image|);
            top == RegionEnd(lo, n) && Layout(m, lo, n) && Loaded(m, lo, n, image) && SameOutside(m0, m, lo, top)
  {
    UserPagesPositive(|image|);
    hide UserPages, Loaded, SameOutside;
  }

  lemma CreatedIntro(m: seq<byte>, ps: Table, top: nat, m': seq<byte>, slot: nat, image: seq<byte>)
    requires slot < PROCS_MAX
    requires var n := UserPages(|image|);
             Layout(m', top, n) && Loaded(m', top, n, image) && SameOutside(m, m', top, RegionEnd(top, n))
    ensures ProcessCreated(m, ps, top, m', ps[slot := Process(slot + 1, Runnable, top)],
              RegionEnd(top, UserPages(|image|)), slot, image)
  {
  }

  lemma CreatedTable(m: seq<byte>, ps: Table, top: nat, m': seq<byte>, ps': Table, top': nat, slot: nat,
      image: seq<byte>)
    requires ProcessCreated(m, ps, top, m', ps', top', slot, image)
    ensures top' == RegionEnd(top, UserPages(|image|))
    ensures slot < PROCS_MAX && ps' == ps[slot := Process(slot + 1, Runnable, top)]
  {
  }

  lemma CreatedImage(m: seq<byte>, ps: Table, top: nat, m': seq<byte>, ps': Table, top': nat, slot: nat,
      image: seq<byte>)
    requires ProcessCreated(m, ps, top, m', ps', top', slot, image)
    ensures Loaded(m', top, UserPages(|image|), image)
  {
  }

  /** On the process table, create_process is the scheduler's creation. */
  lemma CreatedIsStep(m: seq<byte>, s: Sched, top: nat, m': seq<byte>, ps': Table, top': nat, image: seq<byte>)
    requires SchedOk(s) && ProcessCreated(m, s.procs, top, m', ps', top', FirstUnused(s.procs), image)
    ensures Step(s, Create(top)) == Going(s.(procs := ps'))
  {
    hide Layout, Loaded, SameOutside, FirstUnused, SchedOk;
  }

  lemma FirstUnusedIs(ps: Table, slot: nat)
    requires slot < PROCS_MAX && forall s :: 0 <= s < PROCS_MAX ==> (Used(ps[s]) <==> s < slot)
    ensures FirstUnused(ps) == slot
  {
  }

  /** The table kernel_main fills: idle in slot 0, the shell in slot 1, which runs first. */
  lemma BootTable(unused: Table, idleDir: nat, shellDir: nat)
    requires forall s :: 0 <= s < PROCS_MAX ==> !Used(unused[s])
    ensures FirstUnused(unused[0 := Process(0, Runnable, idleDir)]) == 1
    ensures SchedOk(Sched(unused[0 := Process(0, Runnable, idleDir)][1 := Process(2, Runnable, shellDir)], 1, 0))
  {
    FirstUnusedIs(unused[0 := Process(0, Runnable, idleDir)], 1);
  }

  /** What becomes of the system that kernel_main starts when its processes exit: the shell's
      exit leads to idle, and idle's to the panic. */
  lemma BootExits(unused: Table, idleDir: nat, shellDir: nat)
    requires forall s :: 0 <= s < PROCS_MAX ==> !Used(unused[s])
    ensures var s := Sched(unused[0 := Process(0, Runnable, idleDir)][1 := Process(2, Runnable, shellDir)], 1, 0);
            && SchedOk(s) && Run(s, [Exit]).Going? && Run(s, [Exit]).s.current == 0
            && Run(s, [Exit, Exit]).Halted?
  {
    BootTable(unused, idleDir, shellDir);
    var s := Sched(unused[0 := Process(0, Runnable, idleDir)][1 := Process(2, Runnable, shellDir)], 1, 0);
    LastExitThenIdle(s);
    hide SchedOk, Step;
    assert [Exit][1..] == [] && [Exit, Exit][1..] == [Exit];
    assert Run(Step(s, Exit).s, []) == Step(s, Exit);
    assert Run(Step(s, Exit).s, [Exit]).Halted?;
  }

  lemma UserPagesPositive(size: nat)
    ensures UserPages(size) >= 4
  {
  }

  lemma PidIrrelevant(m: seq<byte>, procs: Table, pages: seq<nat>, base: nat, top: nat, slot: nat)
    requires SystemOk(m, procs, pages, base, top) && slot < PROCS_MAX
    ensures SystemOk(m, procs[slot := procs[slot].(pid := 0)], pages, base, top)
  {
  }
}
