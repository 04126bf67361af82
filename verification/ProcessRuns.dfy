/** Runs of create_process (os-1k/kernel.c): whatever is created one after the other stays as
    it was created, each process in its own stretch of physical memory. */
module ProcessRuns {
  import opened Basics
  import opened PhysicalMemory
  import opened Paging32
  import opened KernelMemory
  import opened AddressSpace
  import opened Scheduler
  import opened Processes
  import Isolation

  /** Memory, process table, and the allocator's position. */
  datatype State = State(m: seq<byte>, procs: Table, top: nat)

  /** The same slots are taken, with the same directories. Pids and states may differ: idle gets
      its pid after its creation, and a process may exit. */
  predicate SameSlots(procs: Table, procs': Table) {
    forall s :: 0 <= s < PROCS_MAX ==> Used(procs'[s]) == Used(procs[s]) && procs'[s].pageTable == procs[s].pageTable
  }

  /** From s a process is created from image; what changes in the table after that, up to t,
      keeps its slots. */
  ghost predicate Creates(s: State, t: State, image: seq<byte>) {
    var slot := FirstUnused(s.procs);
    && slot < PROCS_MAX
    && var created := s.procs[slot := Process(slot + 1, Runnable, s.top)];
    && ProcessCreated(s.m, s.procs, s.top, t.m, created, t.top, slot, image)
    && SameSlots(created, t.procs)
  }

  /** A run from an empty process table: states[i + 1] follows states[i] by creating a process
      from images[i]. */
  ghost predicate Run(states: seq<State>, images: seq<seq<byte>>) {
    && |states| == |images| + 1
    && (forall s :: 0 <= s < PROCS_MAX ==> !Used(states[0].procs[s]))
    && (forall i :: 0 <= i < |images| ==> Creates(states[i], states[i + 1], images[i]))
  }

  /** The process in that slot occupies [at, end) of s, complete and with its image in place. */
  ghost predicate Resident(s: State, slot: nat, at: nat, end: nat, image: seq<byte>) {
    var n := UserPages(|image|);
    && slot < PROCS_MAX && Used(s.procs[slot]) && s.procs[slot].pageTable == at
    && end == RegionEnd(at, n) && end <= s.top
    && Layout(s.m, at, n) && Loaded(s.m, at, n, image)
  }

  /** Slots below n are taken, the others free. */
  ghost predicate Filled(procs: Table, n: nat) {
    n <= PROCS_MAX && forall s :: 0 <= s < PROCS_MAX ==> (Used(procs[s]) <==> s < n)
  }

  lemma NextSlot(s: State, t: State, image: seq<byte>, n: nat)
    requires Creates(s, t, image) && Filled(s.procs, n)
    ensures n < PROCS_MAX && FirstUnused(s.procs) == n && Filled(t.procs, n + 1)
    ensures SameSlots(s.procs[n := Process(n + 1, Runnable, s.top)], t.procs)
    ensures s.top <= t.top && t.top == RegionEnd(s.top, UserPages(|image|))
    ensures Resident(t, n, s.top, t.top, image)
  {
    hide Layout, Loaded, SameOutside, UserPages;
    var slot := FirstUnused(s.procs);
    assert slot < PROCS_MAX && !Used(s.procs[slot]);
    if n < PROCS_MAX {
      FirstUnusedIs(s.procs, n);
    }
  }

  lemma LoadedBelow(m: seq<byte>, m': seq<byte>, lo: nat, n: nat, image: seq<byte>, top: nat, top': nat)
    requires Loaded(m, lo, n, image) && RegionEnd(lo, n) <= top && SameOutside(m, m', top, top')
    ensures Loaded(m', lo, n, image)
  {
    forall k | 0 <= k < n
      ensures FrameHolds(m', UserFrame(lo, k), image, k)
    {
      FrameIsNoTable(lo, k, n);
      assert FrameHolds(m, UserFrame(lo, k), image, k);
      FrameKept(m, m', UserFrame(lo, k), image, k);
    }
  }

  /** A process does not notice the creation of another one above it. */
  lemma ResidentStays(s: State, t: State, image: seq<byte>, slot: nat, at: nat, end: nat, own: seq<byte>)
    requires Resident(s, slot, at, end, own) && Creates(s, t, image) && slot != FirstUnused(s.procs)
    ensures Resident(t, slot, at, end, own)
  {
    hide Stage, Loaded, SameOutside, UserPages;
    var n := UserPages(|own|);
    StageBelow(s.m, t.m, at, n, s.top, t.top);
    LoadedBelow(s.m, t.m, at, n, own, s.top, t.top);
  }

  /** After k creations the first k slots hold the first k processes, each in the stretch the
      allocator moved over while it was created, still with its image. */
  lemma {:induction false} AllResident(states: seq<State>, images: seq<seq<byte>>, k: nat)
    requires Run(states, images) && k <= |images|
    ensures Filled(states[k].procs, k)
    ensures forall i :: 0 <= i < k ==> Resident(states[k], i, states[i].top, states[i + 1].top, images[i])
    ensures forall i, j :: 0 <= i <= j <= k ==> states[i].top <= states[j].top
    decreases k
  {
    if k > 0 {
      hide Resident, Creates, Filled;
      AllResident(states, images, k - 1);
      assert Creates(states[k - 1], states[k - 1 + 1], images[k - 1]);
      NextSlot(states[k - 1], states[k], images[k - 1], k - 1);
      forall i | 0 <= i < k - 1
        ensures Resident(states[k], i, states[i].top, states[i + 1].top, images[i])
      {
        ResidentStays(states[k - 1], states[k], images[k - 1], i, states[i].top, states[i + 1].top, images[i]);
      }
    }
  }

  /** Address va of process i, at the end of the run: it is in the user mapping exactly if it
      lies in the pages of the image, or the 16 KB; then b written there lands in the process's
      own stretch, and changes no other process's user translations or memory. */
  ghost predicate WriteStaysInside(states: seq<State>, images: seq<seq<byte>>, i: nat, va: u32, b: byte)
    requires |states| == |images| + 1 && i < |images|
  {
    var m := states[|images|].m;
    var access := UserAccess(m, states[i].top, va, true);
    && (access.Some? <==> Isolation.InUserWindow(va, UserPages(|images[i]|)))
    && (access.Some? ==>
          && states[i].top <= access.value < states[i + 1].top <= |m|
          && (forall j :: 0 <= j < |images| && j != i ==>
                Isolation.SameUserView(m, m[access.value := b], states[j].top)))
  }

  lemma InPlace(s: State, slot: nat, at: nat, end: nat, image: seq<byte>)
    requires Resident(s, slot, at, end, image)
    ensures Isolation.ImageInPlace(s.m, at, image)
    ensures var user := end - at - 0x4000;
            user % 0x1000 == 0 && |image| <= user && 0x4000 <= user && (user == 0x4000 || user < |image| + 0x1000)
  {
    Isolation.PagesCover(|image|);
    Isolation.LoadedInPlace(s.m, at, image);
    hide Layout, Loaded, UserPages;
  }

  /** Isolation over every run: at most PROCS_MAX processes were created, process i occupies four
      pages and the least number of user pages that hold its image and 16 KB, finds its image there,
      and writes through its user mapping stay inside. */
  lemma RunIsolates(states: seq<State>, images: seq<seq<byte>>, i: nat, va: u32, b: byte)
    requires Run(states, images) && i < |images|
    ensures |images| <= 8
    ensures states[i + 1].top == states[i].top + (4 + Max(4, ImagePages(|images[i]|))) * PAGE_SIZE
    ensures var user := states[i + 1].top - states[i].top - 0x4000;
            && user % 0x1000 == 0 && |images[i]| <= user && 0x4000 <= user
            && (user == 0x4000 || user < |images[i]| + 0x1000)
    ensures Isolation.ImageInPlace(states[|images|].m, states[i].top, images[i])
    ensures WriteStaysInside(states, images, i, va, b)
  {
    AllResident(states, images, |images|);
    var last := states[|images|];
    InPlace(last, i, states[i].top, states[i + 1].top, images[i]);
    hide Stage, Loaded, Creates, UserAccess, FirstUnused, Isolation.ImageInPlace;
    assert Resident(last, i, states[i].top, states[i + 1].top, images[i]);
    var n := UserPages(|images[i]|);
    Isolation.UserAccessExactly(last.m, states[i].top, n, va, true);
    if UserAccess(last.m, states[i].top, va, true).Some? {
      Isolation.FrameInRegion(last.m, states[i].top, n, va, true);
      var a := UserAccess(last.m, states[i].top, va, true).value;
      forall j | 0 <= j < |images| && j != i
        ensures Isolation.SameUserView(last.m, last.m[a := b], states[j].top)
      {
        assert Resident(last, j, states[j].top, states[j + 1].top, images[j]);
        assert if j < i then states[j + 1].top <= states[i].top else states[i + 1].top <= states[j].top;
        Isolation.ViewKept(last.m, a, b, states[j].top, UserPages(|images[j]|));
      }
    }
  }

  // ---------------------------------------------------------------- the run of kernel_main

  /** A creation, after which the table may change within its slots. */
  lemma CreatesIntro(s: State, m: seq<byte>, created: Table, top: nat, procs: Table, image: seq<byte>)
    requires FirstUnused(s.procs) < PROCS_MAX
    requires ProcessCreated(s.m, s.procs, s.top, m, created, top, FirstUnused(s.procs), image)
               && SameSlots(created, procs)
    ensures Creates(s, State(m, procs, top), image)
  {
    hide Layout, Loaded, SameOutside, UserPages, FirstUnused;
  }

  /** kernel_main creates idle, from no image, and the shell: a run of two. */
  lemma KernelMainRun(s: State, idle: State, t: State, shell: seq<byte>)
    requires forall i :: 0 <= i < PROCS_MAX ==> !Used(s.procs[i])
    requires Creates(s, idle, []) && Creates(idle, t, shell)
    ensures Run([s, idle, t], [[], shell])
    ensures Resident(t, 0, s.top, idle.top, []) && Resident(t, 1, idle.top, t.top, shell)
    ensures Isolation.ImageInPlace(t.m, s.top, []) && Isolation.ImageInPlace(t.m, idle.top, shell)
    ensures forall i, va: u32, b: byte :: 0 <= i < 2 ==> WriteStaysInside([s, idle, t], [[], shell], i, va, b)
  {
    hide Creates, Resident, WriteStaysInside, Isolation.ImageInPlace;
    var states, images := [s, idle, t], [[], shell];
    assert Run(states, images);
    AllResident(states, images, 2);
    assert images[0] == [] && images[1] == shell;
    InPlace(t, 0, s.top, idle.top, []);
    InPlace(t, 1, idle.top, t.top, shell);
    forall i, va: u32, b: byte | 0 <= i < 2
      ensures WriteStaysInside(states, images, i, va, b)
    {
      RunIsolates(states, images, i, va, b);
    }
  }

  lemma IdleLoaded(at: nat, end: nat, t: State)
    requires Resident(t, 0, at, end, [])
    ensures Loaded(t.m, at, 4, [])
  {
    assert UserPages(0) == 4;
    hide Layout, Loaded;
  }
}
