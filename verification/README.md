# Verified model of a KVM teaching stack: kernel, VMM, hypervisor, heap, boot

This project models the parts of the repository whose correctness is hardest to see by
reading one function, and proves what they are for. Each Dafny module follows one component:

| file | component |
|---|---|
| `Basics`, `LittleEndian` | bytes, machine words, bitwise or; numbers as bytes |
| `PhysicalMemory`, `Paging32` | guest memory as bytes with little-endian words; what a two-level page directory translates (the VMM's debug walker), and which writes change which translation |
| `KernelMemory`, `AddressSpace`, `Processes`, `Kernel` | the 1K OS kernel: `alloc_pages`, `map_page`, `create_process` with its four loops, `kernel_main`, `yield`, exit |
| `Isolation`, `ProcessRuns` | what the address spaces keep apart, over every run of `create_process`: writes through one process's user mapping are invisible to every other; and which stores of a process, running at privilege level 0, are |
| `Scheduler` | `yield` as a cyclic scan: nearest runnable process, no starvation, exited processes |
| `BootTables` | the VMM's boot page tables, and how long the kernel may rely on them |
| `RadixTree`, `GuestPageTable` | the RISC-V hypervisor's four-level guest page table, built on demand by a bump allocator |
| `BitMap`, `Heap` | HLeOs's first-fit heap over a bitmap packed into 64-bit words |
| `ByteQueue`, `Threads` | HLeOs's byte-packed ring queue, and preemptive round robin on top of it |
| `TarFormat`, `FileSystem` | the kernel's file system: a tar printer and parser over one disk array, mirrored by the file table |
| `Keyboard` | the VMM's keyboard ring with the two-phase GETCHAR hypercall, under every interleaving |
| `Decimal`, `Readline`, `Calculator`, `CalculatorRound` | console text: `printf("%d")`, the line editor and what the screen shows, the calculator's parser, and a whole round of it |
| `LongMode` | the VMM's 64-bit page tables with 2 MB pages |
| `LinuxBoot` | E820 map and initrd placement for a Linux guest |

State that the source changes in place is a class with the same fields, and its methods are
proved against specification functions; the theorems are lemmas about those functions and
the invariants that every method keeps. Bit masks and shifts of page-table entries are
written as division and remainder by powers of two; the heap's bitmap uses real 64-bit
vectors. `PANIC` prints and halts, so it is an outcome (`Halt`) after which nothing runs.

Three design points a reader may ask about:

- The kernel reads and writes its tables through virtual addresses 0x80000000 and up. The
  model accesses the physical byte directly, and proves when it may: up to its own CR3 load
  `kernel_main` runs under the VMM's boot directory, and every page it takes is checked against
  that (`Granted`). If the page is part of the kernel's own translation, the outcome is a page
  fault, and after it the kernel sees nothing (`KernelBlind`); otherwise both kernel windows
  lead to physical 0 and up, under the boot directory and under every process's
  (`CreateProcess`, `Boot`, `Yield`). Translations are those in memory; the TLB is not modelled.
  The fault is modelled after the page is cleared as a whole; in the code it comes partway
  through, when the entry for the running code or its stack is gone, so at that moment some
  entries of the kernel's table may still stand. A page at 0x101000 alone is granted: it takes the
  low window away, which the kernel does not run through.
- `WellFormed` (32-bit) and `Tree` (four levels) are the invariants under which map operations
  are correct; `Stage` and `Layout` describe the exact address space of a process while it is
  built and afterwards.
- Where a method and its specification share a function, a lemma says what that function means
  without using it: each bit of a page-table entry (`LeafMeaning`, `EntryWritten`, `TableWords`),
  each byte that a process, an allocation, a header or a record holds (`UserByte`, `TakenExactly`,
  `HeaderFields`, `FieldsStored`), each operator by its character code (`ComputeByCode`). Numbers in
  those contracts are written out.
- The keyboard lock makes each push, OUT and IN one atomic step, so a run is any sequence of
  such steps.

## What the proofs found

Where the code does not meet what its comments or users would expect, the code is modelled as
it is and the exact condition is proved.

- The pointer `stack_kmalloc` returns, passed to `free` as it is, gives the block back exactly
  if it is a single chunk (`FreeOfStackPointer`); moved back to the first chunk it always does.
  Over a run the heap's accounts stay right exactly if every such free is of a single chunk
  (`RunAccountsExactly`); otherwise the first chunk is lost, and chunks of
  blocks right behind are freed with it (`StackFreeHits`).
- `setup_page_tables_64bit_kernel` is described as mirroring memory at the kernel base. It
  maps all four combinations of low and kernel index (`WalkExactly`), and the base leads to
  physical 0 exactly if it is aligned to 1 GB (`KernelMirror`).
- The boot page tables at 0x100000 lie inside the RAM the kernel's allocator hands out. Creating
  processes under them ends in a page fault exactly if the memory taken meets their three pages
  (`Boot`, `CreateProcess`): the page that is cleared is one the kernel runs through.
- Nothing ever leaves privilege level 0: the VMM starts the guest there, and the kernel enters
  the shell by a jump. So the U bit restricts nothing, and the code of a process reaches all of
  the first 4 MB through the kernel's windows (`WindowsReachEverything`): a store at 0x1000
  overwrites the kernel, one at 0x80000000 + f the frame f of another process. A store leaves
  all other processes untouched exactly if it goes through the user window, or through a kernel
  window to memory that belongs to none of them (`StoreIsolatedExactly`).
- The panic marked unreachable after exit's `yield` is reached exactly when no other process can
  be picked and the idle process is exiting or has exited (`ExitPanicsExactly`): a process that
  exited is still inside its `yield`, so picking it again returns to the panic. The program's own
  run to it is the shell's exit and then idle's (`BootExits`); the other order ends there too
  (`PanicAfterIdleExit`).
- `alloc_pages` computes in 32 bits: a multiple of 2^20 pages succeeds with nothing, and a request
  that makes the position wrap passes the out-of-memory test and faults (`AllocPages`,
  `RequestWraps`). Every caller asks for one page.
- A read longer than the latest write, but within the file buffer, also returns bytes of older
  writes (`ReadAfterWrite`).
- Two files fit on the disk exactly unless both hold more than 512 bytes (`FitsExactly`).
- With a full ready queue a timer switch loses exactly the running thread (`SwitchConserves`).
- A second OUT before the IN keeps the keyboard accounting exactly if the first one had found
  the ring empty (`SecondOutLoses`); byte 0xFF looks like "no input" to the guest
  (`GuestSeesByte`).
- The calculator cannot read back INT_MIN although `printf` prints it (`ParseTyped`).
- `setup_linux_boot_params` replaces the `initrd_addr_max` of the kernel's header before
  `load_initrd` reads it, so the header's own limit is lost: with 256 MB a 4 KB initrd of a kernel
  that allows 128 MB goes to 0x0FFFF000 (`HeaderLimitLost`). It stays within the header's limit
  exactly if that limit would have led to the same place (`HeaderLimitKept`).
- The E820 map tiles the guest's memory exactly if there is at least 1 MB; below that it claims
  1 MB (`MapTilesExactly`).

## Model

| member | source | states |
|---|---|---|
| PhysicalMemory.StoreWord | kvm-vmm-x86/os-1k/kernel.c:76 | a 32-bit store reads back as that word and changes its four bytes only |
| PhysicalMemory.ClearBytes | kvm-vmm-x86/os-1k/common.c:3-8 | memset to zero clears exactly the range |
| PhysicalMemory.CopyBytes | kvm-vmm-x86/os-1k/common.c:10-16 | memcpy puts the source there and changes nothing else |
| Paging32.WalkPageFrame | kvm-vmm-x86/src/debug.c:228-279 | the walk of a page depends on one directory entry and one table entry only |
| Paging32.TwoLevels | kvm-vmm-x86/src/debug.c:228-279 | what an address translates to, by its index fields and the two words read: not present, a 4 MB page, or a table and a frame |
| Paging32.UserTwoLevels | kvm-vmm-x86/src/debug.c:248-277 | user mode gets through exactly if both words have U, and for a write W |
| Paging32.WellFormedFrame | kvm-vmm-x86/src/debug.c:228-279 | memory outside the pages handed out so far affects no translation |
| Paging32.LeafWrite | kvm-vmm-x86/os-1k/kernel.c:68-76 | writing one table entry keeps a well-formed directory and changes no other page's translation |
| Paging32.FreshTable | kvm-vmm-x86/os-1k/kernel.c:61-66 | hanging a fresh zeroed table into an empty slot changes no translation at all and keeps the directory well formed |
| KernelMemory.EntryValue | kvm-vmm-x86/os-1k/kernel.c:76 | the entry written for an aligned frame walks to that frame with flags and P |
| KernelMemory.EntryWritten | kvm-vmm-x86/os-1k/kernel.c:76 | for every 32-bit address and flags, each of the 32 bits of the entry: P, the bits of the flags, and from bit 12 up also those of the address |
| KernelMemory.LinkedThenWritten | kvm-vmm-x86/os-1k/kernel.c:58-76 | linking a table, then writing the entry, amounts to mapping exactly one page |
| KernelMemory.FreshTableLinked | kvm-vmm-x86/os-1k/kernel.c:61-66 | a table taken from the allocator is linked without changing a translation, within its own page and the directory |
| KernelMemory.PageAllocator.constructor | kvm-vmm-x86/os-1k/kernel.ld:45-47 | the allocator starts at the page-aligned end of the kernel image |
| KernelMemory.PageAllocator.AllocPages | kvm-vmm-x86/os-1k/kernel.c:30-40 | for every 32-bit count: pages are handed out in order, zeroed, nothing else changes; panic and both page faults with their exact conditions, and what a fault under the boot directory has cleared |
| KernelMemory.RequestWraps | kvm-vmm-x86/os-1k/kernel.c:33-38 | the byte count is the product cut to 32 bits: it covers all n pages exactly below 2^20, and a multiple of 2^20 pages is a request for nothing |
| KernelMemory.GrantedThen | kvm-vmm-x86/os-1k/kernel.c:30-40 | taking pages one after the other, the first that stops the kernel decides |
| KernelMemory.ClearedBoot | kvm-vmm-x86/os-1k/kernel.c:38 | clearing a range with a page the kernel runs through breaks the boot tables |
| KernelMemory.BrokenSince | kvm-vmm-x86/os-1k/kernel.c:331-371 | what create_process wrote before, away from those pages, makes no difference |
| KernelMemory.PageAllocator.LinkTable | kvm-vmm-x86/os-1k/kernel.c:61-66 | afterwards the slot has a table, no translation changed; stops exactly if a table was needed and none was left, or the page for it is one the kernel runs through |
| KernelMemory.PageAllocator.MapPage | kvm-vmm-x86/os-1k/kernel.c:51-77 | for every 32-bit flags: the page translates to the frame or-ed with the flags' high bits, with the low flags and P, every other page as before, the directory stays well formed; each panic and fault with its exact condition |
| AddressSpace.EmptyDirectory | kvm-vmm-x86/os-1k/kernel.c:330-331 | a zeroed page is a directory that translates nothing |
| AddressSpace.StageFrame | kvm-vmm-x86/os-1k/kernel.c:350-359 | memory above the allocator's position does not affect the address space under construction |
| AddressSpace.HighAdds | kvm-vmm-x86/os-1k/kernel.c:340-343 | one round of the kernel loop adds exactly one supervisor page of the high window |
| AddressSpace.LowAdds | kvm-vmm-x86/os-1k/kernel.c:346-348 | one round of the identity loop adds exactly one supervisor page |
| AddressSpace.UserAdds | kvm-vmm-x86/os-1k/kernel.c:351-359 | one round of the user loop adds exactly one user page, its table one page after the frame |
| AddressSpace.Advance | kvm-vmm-x86/os-1k/kernel.c:51-77 | map_page of the next expected page leads from one exact stage of the address space to the next |
| Processes.FrameIsNoTable | kvm-vmm-x86/os-1k/kernel.c:351-371 | a user frame is none of the process's tables and lies inside its region |
| Processes.FrameAdded | kvm-vmm-x86/os-1k/kernel.c:351-355 | filling a new frame leaves the address space and the earlier frames as they are |
| Processes.UserPageMapped | kvm-vmm-x86/os-1k/kernel.c:356-358 | mapping the filled frame completes one more user page, with all contents kept |
| Processes.ChunkLoaded | kvm-vmm-x86/os-1k/kernel.c:352-355 | a zeroed frame after the copy holds its part of the image, then zeros |
| Processes.StepGranted | kvm-vmm-x86/os-1k/kernel.c:330-371 | one more page of a process under construction: granted, or stopped as the whole stretch is |
| Processes.SystemGrows | kvm-vmm-x86/os-1k/kernel.c:307-380 | a new address space above the allocator's position joins a system of disjoint ones, which all stay intact |
| Processes.CreatedIsStep | kvm-vmm-x86/os-1k/kernel.c:307-380 | on the process table, create_process is the scheduler's creation |
| Processes.BootTable | kvm-vmm-x86/os-1k/kernel.c:529-546 | idle in slot 0 with pid 0 and the shell in slot 1 make a well-formed scheduler state |
| Processes.BootExits | kvm-vmm-x86/os-1k/kernel.c:437-441 | the program's own run to the panic: the shell exits, idle runs, idle exits |
| Isolation.UserAccessExactly | kvm-vmm-x86/os-1k/kernel.c:350-371 | the user mapping, with the U bit at both levels, covers exactly USER_BASE up to the process's size, and leads to its own frames, for reads and writes |
| Isolation.EveryPage | kvm-vmm-x86/os-1k/kernel.c:339-371 | what each of the 2^20 pages translates to, with its frame and both levels' flags |
| Isolation.PagesCover | kvm-vmm-x86/os-1k/kernel.c:350-371 | the user pages end at the first page boundary at or after the end of the image and 16 KB |
| Isolation.UserByte | kvm-vmm-x86/os-1k/kernel.c:350-371 | what a process reads at every address: byte i of its image at USER_BASE + i, zeros behind it to the end of the last page that the image or the 16 KB begin, nothing elsewhere |
| Isolation.KernelWindows | kvm-vmm-x86/os-1k/kernel.c:339-348 | both 4 MB windows lead to physical 0 and up with the U bit clear |
| Isolation.FrameWriteKeepsLayout | kvm-vmm-x86/os-1k/kernel.c:350-371 | a byte written into a user frame changes no translation of its process |
| Isolation.FrameInRegion | kvm-vmm-x86/os-1k/kernel.c:350-371 | whatever the user mapping reaches lies in the process's own stretch of memory |
| Isolation.UserWriteIsolated | kvm-vmm-x86/os-1k/kernel.c:307-380 | a write through one user mapping keeps every address space, stays above the kernel image, is read back there and invisible through all others |
| Isolation.SupervisorAccessExactly | kvm-vmm-x86/os-1k/kernel.c:339-371 | where any access at privilege level 0 goes: the user window, the two kernel windows, nowhere else |
| Isolation.WindowsReachEverything | kvm-vmm-x86/src/main.c:1049-1081 | the code of every process reaches every byte of the first 4 MB, at two addresses |
| Isolation.StoreTarget | kvm-vmm-x86/os-1k/kernel.c:339-371 | when the byte a store goes to belongs to another process |
| Isolation.StoreIsolatedExactly | kvm-vmm-x86/os-1k/kernel.c:559-567 | a store at privilege level 0 leaves every other process's tables, frames and translations untouched, whatever the byte, exactly if it goes through the user window or to memory of none of them |
| Isolation.StoreEffects | kvm-vmm-x86/os-1k/kernel.c:559-567 | which of them keep every address space complete and disjoint |
| ProcessRuns.NextSlot | kvm-vmm-x86/os-1k/kernel.c:311-317 | creation takes the first unused slot and the memory from the allocator's position on |
| ProcessRuns.ResidentStays | kvm-vmm-x86/os-1k/kernel.c:307-380 | creating a process leaves the earlier ones and their images untouched |
| ProcessRuns.AllResident | kvm-vmm-x86/os-1k/kernel.c:307-380 | over every run of creations, with pids and states changing in between, the i-th process stays in slot i, complete and with its image, in the stretch taken while it was created |
| ProcessRuns.RunIsolates | kvm-vmm-x86/os-1k/kernel.c:307-380 | over every such run: at most PROCS_MAX processes, each takes four pages and the fewest user pages that hold its image and 16 KB, finds its whole image in place through its mapping, which covers exactly those, and a write there is invisible through all others |
| ProcessRuns.KernelMainRun | kvm-vmm-x86/os-1k/kernel.c:529-535 | kernel_main's two creations, with idle's pid set in between, are such a run: both processes stay complete, and apart |
| Kernel1K.Kernel.constructor | kvm-vmm-x86/os-1k/kernel.c:30-31 | all slots unused, nothing allocated, CR3 names the boot directory |
| Kernel1K.Kernel.MapNext | kvm-vmm-x86/os-1k/kernel.c:340-348 | map_page of the next page of a window leads to the next exact stage; stopped exactly as the whole stretch is |
| Kernel1K.Kernel.MapKernelHalf | kvm-vmm-x86/os-1k/kernel.c:340-343 | the loop maps the whole high window and nothing else; panic and fault with their exact conditions |
| Kernel1K.Kernel.MapIdentity | kvm-vmm-x86/os-1k/kernel.c:346-348 | the loop adds the whole identity window and nothing else |
| Kernel1K.Kernel.LoadFrame | kvm-vmm-x86/os-1k/kernel.c:351-355 | a fresh frame holds the next part of the image, the address space is unchanged |
| Kernel1K.Kernel.AddUserPage | kvm-vmm-x86/os-1k/kernel.c:351-359 | one more user page, mapped and filled; panic and fault with their exact conditions |
| Kernel1K.Kernel.MapUserFrame | kvm-vmm-x86/os-1k/kernel.c:356-358 | mapping the loaded frame completes the page |
| Kernel1K.Kernel.LoadImage | kvm-vmm-x86/os-1k/kernel.c:350-359 | the loop maps all the pages of the image, the last partial one included (`PagesCover`), holding it |
| Kernel1K.Kernel.MapStack | kvm-vmm-x86/os-1k/kernel.c:365-371 | the loop fills up to 16 KB with zero pages, none if the image is larger |
| Kernel1K.Kernel.BuildAddressSpace | kvm-vmm-x86/os-1k/kernel.c:330-371 | the complete address space, at the allocator's old position, with everything outside it unchanged; faults exactly if its region meets the boot tables in use, halts exactly if it does not fit |
| Kernel1K.Kernel.FindUnused | kvm-vmm-x86/os-1k/kernel.c:311-317 | the scan finds the first unused slot |
| Kernel1K.Kernel.CreateProcess | kvm-vmm-x86/os-1k/kernel.c:307-380 | slot, address space, image and footprint of the new process, every byte of the image readable at its address (`ImageInPlace`), panics and fault exactly, the invariant that all address spaces are complete and disjoint; under the boot directory the kernel's view is kept on success and gone after the fault |
| Kernel1K.Kernel.CreateIdle | kvm-vmm-x86/os-1k/kernel.c:529-532 | the idle process sits in slot 0 with pid 0 and four zero pages, readable as such, a step of a run of creations; fault and panic exactly |
| Kernel1K.Kernel.Boot | kvm-vmm-x86/os-1k/kernel.c:529-567 | from the boot tables: ends in the shell under its own directory, idle's zeros and every byte of the shell's image in place and readable at its address, a run of two creations with writes through either user mapping invisible to the other, a well-formed process table, the kernel seeing the same memory under both directories; faults, blind, exactly if the memory taken meets the boot tables |
| Kernel1K.Kernel.Yield | kvm-vmm-x86/os-1k/kernel.c:386-414 | the loop picks the specified next process and loads its directory; for a running process it is the scheduler's step, and the kernel's view stays |
| Kernel1K.Kernel.Exit | kvm-vmm-x86/os-1k/kernel.c:437-441 | exit marks the current process exited and changes no other slot, refines the scheduler's step, leaves that process and keeps the kernel invariant; it ends in the panic exactly when that step halts |
| Kernel1K.Kernel.StoreByte | kvm-vmm-x86/src/main.c:1049-1081 | a store by running code, at privilege level 0: where it goes, when it faults, the whole new memory, when every other process is untouched and when the kernel invariant is kept |
| Kernel1K.Kernel.WriteByte | kvm-vmm-x86/os-1k/kernel.c:559-567 | the same for the byte itself |
| Kernel1K.Kernel.Translate | kvm-vmm-x86/src/debug.c:228-279 | the two-level read of the current directory computes the walk |
| Scheduler.FirstUnused | kvm-vmm-x86/os-1k/kernel.c:311-317 | the slot is unused and all slots before it are in use |
| Scheduler.DistanceOf | kvm-vmm-x86/os-1k/kernel.c:390-391 | the slot the scan looks at in step i is the one at cyclic distance i |
| Scheduler.ScanFindsFirst | kvm-vmm-x86/os-1k/kernel.c:387-396 | the scan gives the pickable process at the least cyclic distance, idle if there is none |
| Scheduler.NextIsNearest | kvm-vmm-x86/os-1k/kernel.c:386-399 | yield picks the runnable non-idle process cyclically nearest, and idle exactly if none is runnable |
| Scheduler.Step | kvm-vmm-x86/os-1k/kernel.c:386-441 | every yield, exit and creation keeps the process table well formed, the current process runnable |
| Scheduler.YieldGoesOn | kvm-vmm-x86/os-1k/kernel.c:386-414 | a plain yield never ends in the panic |
| Scheduler.ExitPanicsExactly | kvm-vmm-x86/os-1k/kernel.c:437-441 | the panic after exit's yield happens exactly if no other process can be picked and idle is exiting or has exited |
| Scheduler.ExitMarks | kvm-vmm-x86/os-1k/kernel.c:437-441 | what an exit changes: the process that exits is marked exited, keeping pid and directory, and another, runnable one is current |
| Scheduler.ExitedNeverRuns | kvm-vmm-x86/os-1k/kernel.c:386-441 | over every run an exited process, idle included, never runs again and its slot is never reused |
| Scheduler.ExitIsForever | kvm-vmm-x86/os-1k/kernel.c:437-441 | so after exit, whatever follows, the process that called it never runs again and its slot stays taken |
| Scheduler.CreateTakesSlot | kvm-vmm-x86/os-1k/kernel.c:307-380 | a creation fills the first unused slot, with its pid, runnable, and changes nothing else; the panic exactly if there is none |
| Scheduler.LastExitThenIdle | kvm-vmm-x86/os-1k/kernel.c:437-441 | when the only process that can be picked exits, idle runs; its exit is the panic |
| Scheduler.PanicAfterIdleExit | kvm-vmm-x86/os-1k/kernel.c:437-441 | the other order: idle exits with one process left, then that one |
| Scheduler.StepCloser | kvm-vmm-x86/os-1k/kernel.c:389-396 | a call that does not pick a waiting process shortens its cyclic distance |
| Scheduler.ServedInTime | kvm-vmm-x86/os-1k/kernel.c:386-414 | a process that stays runnable is picked before more calls than its distance have passed |
| Scheduler.NoStarvation | kvm-vmm-x86/os-1k/kernel.c:386-414 | a process that stays runnable runs within seven scheduler calls, one fewer than there are slots, whatever the others do |
| BootTables.SetupPageTables | kvm-vmm-x86/src/main.c:693-748 | builds directory and two window tables and touches nothing else; fails exactly if they do not fit |
| BootTables.FillWindow | kvm-vmm-x86/src/main.c:723-735 | the loop maps entry i to the i-th physical page |
| BootTables.BootWalk | kvm-vmm-x86/src/main.c:716-735 | the boot tables translate exactly the two 4 MB windows, each page read-write without U at both levels |
| BootTables.SwitchKeepsKernelView | kvm-vmm-x86/os-1k/kernel.c:404-410 | loading a process's directory over the boot one changes no kernel translation |
| BootTables.EveryDirectoryKeepsView | kvm-vmm-x86/os-1k/kernel.c:404-410 | nor does any later load |
| BootTables.BootSurvivesPage | kvm-vmm-x86/os-1k/kernel.c:30-40 | a page handed out leaves the kernel's view intact exactly if it is none of the three boot pages |
| BootTables.BootSurvivesCreate | kvm-vmm-x86/os-1k/kernel.c:331-371 | at every point of the run of create_process: the next page taken leaves the kernel's view intact exactly if it is no boot table |
| BootTables.RegionCuts | kvm-vmm-x86/os-1k/kernel.c:331-371 | a process's region meets the boot tables exactly if it covers a page the kernel runs through |
| BootTables.BootBrokenBlinds | kvm-vmm-x86/os-1k/kernel.c:38 | with the boot directory or its kernel table cleared no kernel address translates |
| BootTables.GrantedView | kvm-vmm-x86/os-1k/kernel.c:331-377 | a creation that was granted keeps the boot tables and the kernel's view under both directories |
| BootTables.BootGranted | kvm-vmm-x86/os-1k/kernel.c:529-535 | idle's and the shell's memory together: fault exactly if it meets the boot tables, panic exactly if it does not fit |
| BootTables.CreatedBesideBoot | kvm-vmm-x86/os-1k/kernel.c:331-377 | after creating a process below or above the boot tables the kernel sees the same memory under both directories |
| RadixTree.EntryRoundTrip | experimental/hypervisor/src/guest_page_table.rs:15-28 | an entry holds its flags in the low ten bits and the page number above, gives both back, and is valid exactly with the V flag |
| RadixTree.IndexBits | experimental/hypervisor/src/guest_page_table.rs:38-41 | the shifted and masked index of each level depends on bits 12 to 47 only |
| GuestPageTable.FourLevels | experimental/hypervisor/src/guest_page_table.rs:38-41 | the lookup is four reads, by the address bits from 39, 30, 21 and 12, each through the table the entry before names |
| RadixTree.LeafWrite | experimental/hypervisor/src/guest_page_table.rs:71-74 | writing a leaf entry changes the walk of that page only |
| RadixTree.LeafWriteTree | experimental/hypervisor/src/guest_page_table.rs:71-74 | and keeps the tree: no two entries share a table |
| RadixTree.LinkWalk | experimental/hypervisor/src/guest_page_table.rs:63-66 | hanging a zeroed table under an invalid entry changes no walk |
| RadixTree.LinkTree | experimental/hypervisor/src/guest_page_table.rs:63-66 | and gives the fresh table its one place in the tree |
| RadixTree.WalkFrame | experimental/hypervisor/src/guest_page_table.rs:59-69 | memory outside the tables affects neither walks nor the tables still missing |
| GuestPageTable.BumpAllocator.AllocTable | experimental/hypervisor/src/allocator.rs:28-49 | a page-aligned zeroed table above all earlier ones; panics exactly if it does not fit |
| GuestPageTable.BumpAllocator.ClearTable | experimental/hypervisor/src/allocator.rs:45-49 | clearing a page makes it a table without entries and changes nothing else |
| GuestPageTable.LeafMeaning | experimental/hypervisor/src/guest_page_table.rs:74 | for every 64-bit host address and flags, each of the 64 bits of the leaf entry: V, U, the bits of the flags, and from bit 10 up also those of the host page number; it leads to that page |
| GuestPageTable.Descend | experimental/hypervisor/src/guest_page_table.rs:61-69 | going down a valid entry stays on the path of the address |
| GuestPageTable.LinkKeepsWalks | experimental/hypervisor/src/guest_page_table.rs:63-66 | allocating and linking a table keeps every walk, every path above it and the tree |
| GuestPageTable.DescendFresh | experimental/hypervisor/src/guest_page_table.rs:61-69 | going down a table just allocated stays on the path, with one table fewer missing |
| GuestPageTable.LeafWritten | experimental/hypervisor/src/guest_page_table.rs:71-74 | the final write makes the walk give that entry and leaves every other page's walk |
| GuestPageTable.MapTouchesExactly | experimental/hypervisor/src/guest_page_table.rs:38-41 | the addresses a map affects are exactly those equal to it in bits 12 to 47: below 2^48 its own page, above it an alias |
| GuestPageTable.OutOfTables | experimental/hypervisor/src/guest_page_table.rs:63-65 | when the allocator panics the page was unmapped and its tables do not fit |
| GuestPageTable.TablesNeeded | experimental/hypervisor/src/guest_page_table.rs:61-69 | how many tables a map allocates: those from the first invalid entry of its path down |
| GuestPageTable.LeafFound | experimental/hypervisor/src/guest_page_table.rs:71-73 | the leaf entry is valid exactly if the walk succeeded before the call |
| GuestPageTable.HostStore | experimental/hypervisor/src/main.rs:57-67 | a store anywhere but into a table keeps the tree and every translation |
| GuestPageTable.BelowNoTable | experimental/hypervisor/src/main.rs:57-67 | memory handed out before the table, as the guest's own is, holds none of its tables |
| GuestPageTable.OtherAllocation | experimental/hypervisor/src/allocator.rs:28-37 | neither does memory handed out for other purposes later matter |
| GuestPageTable.GuestPageTable.New | experimental/hypervisor/src/guest_page_table.rs:49-53 | a new table translates nothing, and all tables lie above what was handed out before |
| GuestPageTable.GuestPageTable.Map | experimental/hypervisor/src/guest_page_table.rs:59-75 | the page translates through an entry with exactly V, U, the bits of the flags and the host page number, every other page as before, only table words change, none of them below the root table, exactly the missing tables are allocated; "already mapped" exactly if the walk already succeeded |
| GuestPageTable.GuestPageTable.NextTable | experimental/hypervisor/src/guest_page_table.rs:61-69 | one round of the loop descends one level with no translation changed |
| PackedBits.OneBit | experimental/HLeOs/HLeOs/src/std/bit_map.rs:16-59 | one OR or AND on a 64-bit word changes the one bit it names |
| PackedBits.MaskDoubles | experimental/HLeOs/HLeOs/src/std/bit_map.rs:16-59 | bit b of a word is the one of weight 2^b |
| BitMaps.BitSet | experimental/HLeOs/HLeOs/src/std/bit_map.rs:21-26 | in the whole packed map too |
| BitMaps.BitCleared | experimental/HLeOs/HLeOs/src/std/bit_map.rs:35-40 | likewise for clearing |
| BitMaps.BitMap.SetBit | experimental/HLeOs/HLeOs/src/std/bit_map.rs:16-29 | sets exactly that bit; out of range it changes nothing and says so |
| BitMaps.BitMap.UnsetBit | experimental/HLeOs/HLeOs/src/std/bit_map.rs:30-43 | clears exactly that bit; out of range it changes nothing and says so |
| BitMaps.BitMap.IsSet | experimental/HLeOs/HLeOs/src/std/bit_map.rs:44-59 | the bit, false out of range |
| BitMaps.BitMap.FindFirst | experimental/HLeOs/HLeOs/src/std/bit_map.rs:60-69 | the first bit with that value, the length if there is none |
| HeapSpec.FirstFit | experimental/HLeOs/HLeOs/src/hleos/kmalloc.rs:68-88 | the lowest place where that many clear bits stand together |
| HeapSpec.BlockTaken | experimental/HLeOs/HLeOs/src/hleos/kmalloc.rs:16-22 | a new block is disjoint from all live ones and the set bits are again exactly the live blocks |
| HeapSpec.BlockReturned | experimental/HLeOs/HLeOs/src/hleos/kmalloc.rs:51-66 | returning a live block leaves exactly the other blocks' bits set |
| HeapSpec.StackFreeHits | experimental/HLeOs/HLeOs/src/hleos/kmalloc.rs:45-66 | which blocks lose chunks when stack_kmalloc's pointer is freed as it is |
| HeapSpec.StackFreeAccounts | experimental/HLeOs/HLeOs/src/hleos/kmalloc.rs:45-66 | the set bits stay exactly the live blocks exactly if the block is one chunk |
| HeapSpec.RunAccountsExactly | experimental/HLeOs/HLeOs/src/hleos/kmalloc.rs:5-66 | over every run of allocations and frees the set bits are exactly the disjoint live blocks in every state, exactly if every such free is of one chunk |
| HeapSpec.RunKeepsAccounts | experimental/HLeOs/HLeOs/src/hleos/kmalloc.rs:5-66 | so they are at the end of every such run |
| HeapSpec.ClearedRun | experimental/HLeOs/HLeOs/src/main.rs:84-92 | and of every such run from a cleared bitmap |
| HeapSpec.TargetIsLowest | experimental/HLeOs/HLeOs/src/hleos/kmalloc.rs:14-25 | allocation succeeds exactly if enough clear chunks stand together, and takes the lowest place |
| HeapSpec.ChunksCover | experimental/HLeOs/HLeOs/src/hleos/kmalloc.rs:12 | a block's chunks hold the size asked for, with less than a chunk to spare |
| HeapSpec.BlocksInHeap | experimental/HLeOs/HLeOs/src/hleos/kmalloc.rs:9-11 | blocks lie in the heap's 2 MB past the bitmap, 16-byte aligned; distinct ones share no byte, and so no byte that was asked for |
| HeapSpec.FreshAllocation | experimental/HLeOs/HLeOs/src/hleos/kmalloc.rs:5-26 | the bytes asked for lie in the heap and belong to no live allocation |
| HeapSpec.RunServesBytes | experimental/HLeOs/HLeOs/src/hleos/kmalloc.rs:5-66 | over every such run from a cleared bitmap: the bytes asked for by all live allocations lie in the heap and are pairwise disjoint, and so are those of the next one |
| HeapSpec.TakenExactly | experimental/HLeOs/HLeOs/src/hleos/kmalloc.rs:14-22 | kmalloc sets exactly the bits of the chunks that begin within the bytes asked for, all clear before |
| HeapSpec.StackTakenExactly | experimental/HLeOs/HLeOs/src/hleos/kmalloc.rs:37-45 | so does stack_kmalloc, whose pointer is the last of those chunks |
| HeapSpec.FreedExactly | experimental/HLeOs/HLeOs/src/hleos/kmalloc.rs:51-66 | free clears exactly the bits of the chunks that begin within size bytes from the start of the chunk at the address freed; it panics exactly below the heap or on overflow |
| HeapSpec.CallsAreSteps | experimental/HLeOs/HLeOs/src/hleos/kmalloc.rs:5-66 | a call of kmalloc or stack_kmalloc, or of free with a live block's size and either one's address, is the run's step on blocks; a call that returns null changes nothing |
| HeapSpec.FreeUndoesKmalloc | experimental/HLeOs/HLeOs/src/hleos/kmalloc.rs:51-66 | free of what kmalloc returned restores the bitmap |
| HeapSpec.FreeOfStackPointer | experimental/HLeOs/HLeOs/src/hleos/kmalloc.rs:45-59 | free of what stack_kmalloc returned restores the bitmap exactly if the block is one chunk |
| HeapSpec.FreeUndoesStackKmalloc | experimental/HLeOs/HLeOs/src/hleos/kmalloc.rs:45-59 | moved back to the first chunk it always does |
| Heap.Heap.Init | experimental/HLeOs/HLeOs/src/main.rs:84-92 | clears the bitmap, so that over every run from there the set bits are exactly the live blocks |
| Heap.Heap.FindContinuousFalse | experimental/HLeOs/HLeOs/src/hleos/kmalloc.rs:68-88 | the counting scan finds the lowest run that fits |
| Heap.Heap.SetRun | experimental/HLeOs/HLeOs/src/hleos/kmalloc.rs:17-21 | the loop sets exactly the block's bits |
| Heap.Heap.Kmalloc | experimental/HLeOs/HLeOs/src/hleos/kmalloc.rs:5-26 | pointer and bitmap for every size, including zero, no room and overflow: the bits set are exactly those of the chunks that begin within the bytes asked for |
| Heap.Heap.StackKmalloc | experimental/HLeOs/HLeOs/src/hleos/kmalloc.rs:28-49 | the same block, with the address of its last chunk, and the same bits |
| Heap.Heap.Release | experimental/HLeOs/HLeOs/src/hleos/kmalloc.rs:51-66 | free clears exactly the chunks that begin within size bytes from the chunk at that address on, as far as there are chunks |
| LittleEndian.ByteAt | experimental/HLeOs/HLeOs/src/std/queue.rs:33-36 | the i-th byte stored is the value shifted and masked |
| LittleEndian.ValueOfBytes | experimental/HLeOs/HLeOs/src/std/queue.rs:29-57 | a value below 256^width survives being stored |
| ByteQueue.SlotsApart | experimental/HLeOs/HLeOs/src/std/queue.rs:29-36 | writing one slot leaves every other slot's value |
| ByteQueue.Enqueued | experimental/HLeOs/HLeOs/src/std/queue.rs:24-41 | filling the tail slot of the ring appends one value |
| ByteQueue.Dequeued | experimental/HLeOs/HLeOs/src/std/queue.rs:42-62 | moving the head takes the oldest value off |
| ByteQueue.Queue.constructor | experimental/HLeOs/HLeOs/src/std/queue.rs:13-22 | a new queue is empty |
| ByteQueue.Queue.IsEmpty | experimental/HLeOs/HLeOs/src/std/queue.rs:63-69 | head equals tail exactly if nothing is queued |
| ByteQueue.Queue.IsFull | experimental/HLeOs/HLeOs/src/std/queue.rs:70-76 | the index test holds exactly at capacity |
| ByteQueue.Queue.Enqueue | experimental/HLeOs/HLeOs/src/std/queue.rs:24-41 | appends to the FIFO, refuses exactly when full |
| LittleEndian.StoreBytes | experimental/HLeOs/HLeOs/src/std/queue.rs:33-36 | the loop stores the value's bytes and nothing else |
| ByteQueue.Queue.Dequeue | experimental/HLeOs/HLeOs/src/std/queue.rs:42-62 | takes the oldest value off, answers with the marker exactly when empty |
| ByteQueue.Queue.LoadBytes | experimental/HLeOs/HLeOs/src/std/queue.rs:53-57 | the loop reassembles the little-endian value |
| RoundRobin.Tick | experimental/HLeOs/HLeOs/src/hleos/interrupt/handler.rs:168-190 | every tick keeps the threads proper: no null, no marker, at most the queue's capacity |
| RoundRobin.SwitchConserves | experimental/HLeOs/HLeOs/src/hleos/interrupt/handler.rs:170-185 | a switch conserves and rotates the threads exactly if the queue has room; else it loses the running one |
| RoundRobin.StrictRoundRobin | experimental/HLeOs/HLeOs/src/hleos/interrupt/handler.rs:168-190 | after any number of ticks the threads stand rotated by the number of quanta that ended |
| RoundRobin.RunsInTurn | experimental/HLeOs/HLeOs/src/hleos/interrupt/handler.rs:168-190 | which thread runs at any tick, and in which order the others wait: strict round robin with quanta of 100 ticks |
| Threads.Scheduler.ReadyThread | experimental/HLeOs/HLeOs/src/hleos/thread.rs:265-275 | appends to the ready queue, refuses exactly when full |
| Threads.Scheduler.PopThread | experimental/HLeOs/HLeOs/src/hleos/thread.rs:277-289 | the head of the ready queue, null exactly when it is empty |
| Threads.Scheduler.TimerTick | experimental/HLeOs/HLeOs/src/hleos/interrupt/handler.rs:168-190 | the timer arm on the byte-packed queue refines the tick on thread lists |
| TarFormat.OctalRoundTrip | kvm-vmm-x86/os-1k/kernel.c:156-165 | oct2int reads back every number printed with enough digits |
| TarFormat.ChecksumCorrect | kvm-vmm-x86/os-1k/kernel.c:194-201 | six octal digits that decode to the unsigned sum of the header with the checksum field as spaces, which always fits |
| TarFormat.FitsExactly | kvm-vmm-x86/os-1k/kernel.h:32-58 | one file always fits the disk, two exactly unless both exceed a sector of data |
| TarFormat.HeaderReadsBack | kvm-vmm-x86/os-1k/kernel.c:180-201 | a printed header passes the magic test and gives name and size back |
| TarFormat.HeaderFields | kvm-vmm-x86/os-1k/kernel.c:180-201 | all 512 bytes of a printed header: name, mode "000644", size in twelve octal digits, checksum digits, type, magic, version, NUL elsewhere |
| TarFormat.RecordLayout | kvm-vmm-x86/os-1k/kernel.c:203-204 | a record is header, data, and zeros up to the next multiple of 512 |
| TarFormat.DiskLayout | kvm-vmm-x86/os-1k/kernel.c:171-208 | the flushed disk is the records of the files in use in slot order, then zeros |
| TarFormat.ParseArchive | kvm-vmm-x86/os-1k/kernel.c:213-235 | the parser recovers the files in use from any archive that stands on the disk |
| TarFormat.ParsedHeader | kvm-vmm-x86/os-1k/kernel.c:217-233 | what the parser takes from any sector that does not start with NUL, and where it goes on |
| TarFormat.FlushRoundTrip | kvm-vmm-x86/os-1k/kernel.c:171-235 | loading a flushed disk recovers exactly the files in use, in slot order |
| FileTable.FindName | kvm-vmm-x86/os-1k/kernel.c:240-248 | the first slot with that name, none before it |
| FileTable.ReadFinds | kvm-vmm-x86/os-1k/kernel.c:443-469 | a read finds nothing exactly if no slot has the name; else as many bytes of the first such file as asked for, or its size for a length beyond 1024 |
| FileTable.Written | kvm-vmm-x86/os-1k/kernel.c:459-461 | a write replaces the start of the named file's data and its size, nothing behind it |
| FileTable.WriteChanges | kvm-vmm-x86/os-1k/kernel.c:443-469 | a write of any length touches one file: its size becomes the length, or stays for a length beyond 1024; that many bytes come from the buffer, the rest stays |
| FileTable.ReadAfterWrite | kvm-vmm-x86/os-1k/kernel.c:443-469 | what a read of any length gives right after a write to the same name: its bytes, and between the write's length and the buffer's also what stood there before |
| FileTable.ReadAfterOtherWrite | kvm-vmm-x86/os-1k/kernel.c:443-469 | a write to another name does not show |
| FileTable.ReadAfterWriteExactly | kvm-vmm-x86/os-1k/kernel.c:443-469 | so it is the start of the bytes written, or all of them, exactly if it asks for no more than those or for more than the buffer |
| FileTable.ReadsLatestWrite | kvm-vmm-x86/os-1k/kernel.c:443-469 | after any run of writes a read gives the start of the latest write to that name, or all of it, exactly if it asks for no more than that or for more than the buffer |
| FileTable.InstallUnused | kvm-vmm-x86/os-1k/kernel.c:225-230 | a printed file installed in a zeroed slot is that file again |
| FileTable.InstalledIs | kvm-vmm-x86/os-1k/kernel.c:222-230 | whatever stood in a slot, installing a parsed file gives exactly that name, size and data |
| FileTable.ReloadedTable | kvm-vmm-x86/os-1k/kernel.c:213-235 | fs_init into a zeroed table gives back the files in use |
| FileSystem.StrCmp | kvm-vmm-x86/os-1k/common.c:26-35 | zero exactly for equal strings, else the difference of the first bytes that differ, without reading past either |
| FileSystem.StrCpy | kvm-vmm-x86/os-1k/common.c:18-24 | the string with its NUL, nothing else |
| FileSystem.Oct2Int | kvm-vmm-x86/os-1k/kernel.c:156-165 | the value of the leading octal digits |
| FileSystem.PutOctal | kvm-vmm-x86/os-1k/kernel.c:188-201 | the loop that prints the last digit first leaves the octal numeral |
| FileSystem.FileSystem.WriteBare | kvm-vmm-x86/os-1k/kernel.c:182-192 | the header fields as laid out, nothing else |
| FileSystem.FileSystem.SumHeader | kvm-vmm-x86/os-1k/kernel.c:194-196 | the sum over the header with the checksum field as spaces |
| FileSystem.FileSystem.PrintHeader | kvm-vmm-x86/os-1k/kernel.c:180-201 | the complete header with its checksum, nothing else |
| FileSystem.FileSystem.FlushFile | kvm-vmm-x86/os-1k/kernel.c:180-204 | one round prints the file's record at its offset, nothing else |
| FileSystem.FileSystem.FsFlush | kvm-vmm-x86/os-1k/kernel.c:171-208 | afterwards the disk holds exactly the archive of the table, then zeros, and parses back to the files in use |
| FileSystem.FileSystem.FsLookup | kvm-vmm-x86/os-1k/kernel.c:240-248 | the first slot with that name, null if none |
| FileSystem.FileSystem.WriteFile | kvm-vmm-x86/os-1k/kernel.c:443-469 | result, file table and disk after SYS_WRITEFILE; the disk mirrors the table again and parses back to its files in use |
| FileSystem.FileSystem.ReadFile | kvm-vmm-x86/os-1k/kernel.c:443-469 | result and bytes of SYS_READFILE |
| FileSystem.FileSystem.ReadHeader | kvm-vmm-x86/os-1k/kernel.c:217-233 | one round reads what the parser reads there |
| FileTable.InstalledOk | kvm-vmm-x86/os-1k/kernel.c:225-230 | installing parsed files leaves every slot a proper file or unused |
| FileSystem.FileSystem.FsInit | kvm-vmm-x86/os-1k/kernel.c:213-235 | the loop installs exactly the parsed files, which leaves a valid file table; panics exactly on a bad magic |
| KeyboardSpec.StepConserves | kvm-vmm-x86/src/main.c:1933-1984 | every push, OUT and IN of an alternating vCPU loses, duplicates and reorders nothing |
| KeyboardSpec.RunConserves | kvm-vmm-x86/os-1k/user.c:41-63 | neither does any run of them |
| KeyboardSpec.EveryInterleaving | kvm-vmm-x86/os-1k/user.c:41-63 | in every interleaving accepted bytes are popped bytes then the ring, at most 255 wait, and each vCPU got exactly what it popped save one pending |
| KeyboardSpec.KeysAccepted | kvm-vmm-x86/src/main.c:332-342 | in every interleaving, a key is dropped exactly if it finds 255 bytes waiting; the accepted bytes are all keys in order exactly if none does |
| KeyboardSpec.GetcharTakesOldest | kvm-vmm-x86/src/main.c:1933-1984 | OUT and IN return the oldest waiting byte to that vCPU and change nothing else; on an empty ring they return none |
| KeyboardSpec.SecondOutLoses | kvm-vmm-x86/src/main.c:1933-1939 | without alternation the accounting survives exactly if the first OUT had found nothing |
| KeyboardSpec.GuestSeesByte | kvm-vmm-x86/os-1k/user.c:44-58 | the guest retries exactly on an empty ring or byte 0xFF, and gets every other byte, as a signed char |
| Keyboard.RingPush | kvm-vmm-x86/src/main.c:332-342 | the index test is fullness, and the write appends |
| Keyboard.RingPop | kvm-vmm-x86/src/main.c:344-356 | the index test is emptiness, and the read takes the oldest byte |
| Keyboard.KeyboardBuffer.Push | kvm-vmm-x86/src/main.c:332-342 | appends, drops the byte exactly when 255 wait |
| Keyboard.KeyboardBuffer.Pop | kvm-vmm-x86/src/main.c:344-356 | the oldest byte, -1 exactly when empty |
| Keyboard.KeyboardBuffer.HasData | kvm-vmm-x86/src/main.c:358-364 | whether a byte waits |
| Keyboard.Vmm.KeyArrives | kvm-vmm-x86/src/main.c:332-342 | refines the push step and keeps the accounting |
| Keyboard.Vmm.HypercallOut | kvm-vmm-x86/src/main.c:1933-1939 | refines the OUT step, and keeps the accounting if no answer was pending |
| Keyboard.Vmm.HypercallIn | kvm-vmm-x86/src/main.c:1955-1984 | refines the IN step and returns the byte that the vCPU popped |
| Decimal.NumeralCanonical | kvm-vmm-x86/os-1k/common.c:60-79 | the numeral denotes its number and has no leading zero |
| Decimal.CanonicalUnique | kvm-vmm-x86/os-1k/common.c:60-79 | no other string of digits is canonical for it |
| Decimal.PrintedMeaning | kvm-vmm-x86/os-1k/common.c:60-79 | a minus exactly in front of a negative number, then the numeral of its magnitude |
| Decimal.FindDivisor | kvm-vmm-x86/os-1k/common.c:68-70 | the loop ends at the power of ten of the leading digit, within 32 bits |
| Decimal.PrintDigits | kvm-vmm-x86/os-1k/common.c:72-76 | the loop prints the canonical numeral |
| Decimal.PrintDecimal | kvm-vmm-x86/os-1k/common.c:60-79 | every 32-bit int is printed as its canonical decimal, INT_MIN included |
| Readline.EchoFollowsEdit | kvm-vmm-x86/os-1k/user.c:94-106 | the echo of a key does to the screen what the key does to the line |
| Readline.EraseTakesLast | kvm-vmm-x86/os-1k/user.c:94-101 | backspace and DEL take the last byte of the line back |
| Readline.ErasedKey | kvm-vmm-x86/os-1k/user.c:94-106 | a printable key that is taken back leaves no trace in the line |
| Readline.IgnoredKey | kvm-vmm-x86/os-1k/user.c:94-107 | erasing an empty line and all other control keys do nothing |
| Readline.ScreenShowsLine | kvm-vmm-x86/os-1k/user.c:86-108 | at every step the screen shows exactly the line, then blanks |
| Readline.TypedIsFold | kvm-vmm-x86/os-1k/user.c:86-108 | the line is the fold of the edits over the input, cut at the first newline or when full |
| Readline.ConsumesLine | kvm-vmm-x86/os-1k/user.c:83-121 | whatever is typed, edited or cut off, the input is consumed through the first newline or return and no further |
| Readline.SkipLine | kvm-vmm-x86/os-1k/user.c:113-117 | the discarding loop consumes the rest of the line |
| Readline.TypeLine | kvm-vmm-x86/os-1k/user.c:84-108 | the editing loop computes the typed line, its echo shows it, nothing past the buffer's share is written |
| Readline.ReadLine | kvm-vmm-x86/os-1k/user.c:83-121 | for every input with a newline: the typed line, NUL at the returned length, input consumed through exactly the first newline or return, screen showing the line |
| Calculator.PrintedReadsBack | kvm-vmm-x86/os-1k/shell.c:128-138 | a printed int is read back, exactly unless it is INT_MIN |
| Calculator.ParseTyped | kvm-vmm-x86/os-1k/shell.c:120-165 | printed operands with any blanks around them parse back to the same expression, exactly unless one is INT_MIN |
| Calculator.TruncDivMeaning | kvm-vmm-x86/os-1k/shell.c:182 | division rounds toward zero: the remainder is smaller than the divisor and has the dividend's sign |
| Calculator.DigitsRead | kvm-vmm-x86/os-1k/shell.c:128-138 | any digits, none and leading zeros included, are read as their value, negated behind a minus, exactly unless that is beyond the largest int |
| Calculator.ComputeByCode | kvm-vmm-x86/os-1k/shell.c:167-184 | by character code: sum, difference, product, and the quotient that leaves a remainder smaller than the divisor with the dividend's sign |
| Calculator.TypedIsAnswered | kvm-vmm-x86/os-1k/shell.c:114-188 | what the calculator answers to every typed expression, by the operator's character code: the sum, difference, product or truncated quotient printed, with the exact exceptions |
| Calculator.ErrorExactly | kvm-vmm-x86/os-1k/shell.c:143-155 | on any line: the operator error exactly if the byte behind the first number and the blanks after it is none of the four; quit exactly on "q" |
| Calculator.WrongOperator | kvm-vmm-x86/os-1k/shell.c:143-155 | the same for every line that starts with a printed number |
| Calculator.SkipSpaces | kvm-vmm-x86/os-1k/shell.c:126 | stops at the first byte that is no blank |
| Calculator.ReadNumber | kvm-vmm-x86/os-1k/shell.c:128-138 | the number at that place and the index behind it |
| Calculator.Calculate | kvm-vmm-x86/os-1k/shell.c:114-188 | one round of the calculator answers every line as specified |
| CalculatorRound.PlainIsTyped | kvm-vmm-x86/os-1k/user.c:83-108 | plain text that fits, then Enter, is the line |
| CalculatorRound.ExpressionAnswered | kvm-vmm-x86/os-1k/shell.c:110-188 | typing an expression of at most 63 bytes and Enter gets its value printed, by the operator's character code, with the exact exceptions |
| CalculatorRound.OperatorError | kvm-vmm-x86/os-1k/shell.c:143-155 | typing a number and anything after it: the operator error exactly if no operator is the next byte that is no blank |
| CalculatorRound.Round | kvm-vmm-x86/os-1k/shell.c:110-188 | readline into 64 bytes, then the calculator: the answer to the keys typed, the input consumed through the newline |
| LongMode.WalkExactly | kvm-vmm-x86/src/paging_64.c:68-159 | a walk succeeds exactly for the low or kernel index at both upper levels below the mapped memory, and where it leads, writable; user access only through the low entries |
| LongMode.KernelWalk | kvm-vmm-x86/src/paging_64.c:68-159 | the same by the bit fields of the address and of the kernel base, and by the size of the memory |
| LongMode.IndexFields | kvm-vmm-x86/src/long_mode.h:69-71 | the three indices are bits 39 to 47, 30 to 38 and 21 to 29 |
| LongMode.EntryAddress | kvm-vmm-x86/src/long_mode.h:31 | the address in an entry is bits 12 to 51 |
| LongMode.PagesOfMemory | kvm-vmm-x86/src/paging_64.c:43-57 | an entry is in use exactly if its 2 MB page begins within the memory, up to 512 |
| LongMode.LowIdentity | kvm-vmm-x86/src/paging_64.c:82-92 | low memory is mapped to itself, up to 1 GB |
| LongMode.KernelMirror | kvm-vmm-x86/src/paging_64.c:94-104 | the kernel base leads to physical 0 exactly if aligned to 1 GB; then memory is mirrored there for the supervisor |
| LongMode.SetupPageTables | kvm-vmm-x86/src/paging_64.c:17-64 | every word of the three tables, and nothing outside the cleared 16 KB changes |
| LongMode.FillPd | kvm-vmm-x86/src/paging_64.c:45-57 | the loop fills one 2 MB entry per 2 MB of memory, at most 512 |
| LongMode.SetupPageTablesKernel | kvm-vmm-x86/src/paging_64.c:68-113 | the same with the two kernel entries, without the user bit, which override the low ones if the indices coincide |
| LinuxBoot.TiledOnce | kvm-vmm-x86/src/linux_boot.c:61-71 | in a tiling map every address below the end lies in exactly one region, none beyond |
| LinuxBoot.MapTilesExactly | kvm-vmm-x86/src/linux_boot.c:61-71 | the E820 map tiles the guest's memory exactly if that has at least 1 MB |
| LinuxBoot.MapKinds | kvm-vmm-x86/src/linux_boot.c:61-71 | an address is reserved exactly from 640 KB to 1 MB, RAM elsewhere |
| LinuxBoot.PlacedHighest | kvm-vmm-x86/src/linux_boot.c:304-334 | the initrd goes to the highest aligned place within memory and initrd_addr_max above the kernel, and is rejected exactly if there is none |
| LinuxBoot.PlacedWithin | kvm-vmm-x86/src/linux_boot.c:304-334 | the same without named constants: multiple of 4096, after the kernel's claim from 1 MB on, within memory and limit, no such place is higher |
| LinuxBoot.PlacedInRam | kvm-vmm-x86/src/linux_boot.c:304-334 | an accepted initrd lies in one RAM region of the map and fits the 32-bit header fields |
| LinuxBoot.RecordRoundTrip | kvm-vmm-x86/src/linux_boot.c:18-22 | a packed 20-byte record reads back as its region |
| LinuxBoot.RecordAppended | kvm-vmm-x86/src/linux_boot.c:35-42 | a record written behind the others appends its region |
| LinuxBoot.BootParams.StoreRecord | kvm-vmm-x86/src/linux_boot.c:35-40 | the three fields fill exactly the record's 20 bytes, address, size and type at offsets 0, 8 and 16 |
| LinuxBoot.BootParams.AddE820Entry | kvm-vmm-x86/src/linux_boot.c:27-46 | the packed map reads as before with the entry appended, unchanged exactly when the table is full |
| LinuxBoot.BootParams.Setup | kvm-vmm-x86/src/linux_boot.c:51-85 | the packed map reads as exactly the specified regions; initrd_addr_max |
| LinuxBoot.BootParams.LoadInitrd | kvm-vmm-x86/src/linux_boot.c:272-363 | success exactly if a place is found; then the file's bytes stand there, nothing else in memory changes, and the header fields say so |
| LinuxBoot.BootParams.PrepareInitrd | kvm-vmm-x86/src/main.c:3032-3046 | both calls in the VMM's order: the placement does not depend on the limit the header had |
| LinuxBoot.HeaderLimitKept | kvm-vmm-x86/src/main.c:3032-3046 | where the initrd ends, and that it ends within the header's limit exactly if that limit would have led to the same place |
| LinuxBoot.HeaderLimitLost | kvm-vmm-x86/src/linux_boot.c:81 | an input for which it does not |

## Left out

- WriteFile: requires the sector-rounded archive to fit the disk; the kernel has no check and would write past the array. Negative lengths are left out.
- FsFlush: requires the same.
- AllocPages: the memory described at a page fault under the boot directory is that after the whole page was cleared, not after the byte at which the processor stops.
- FsInit: requires that no name or size read from the disk runs past its buffer or the disk, which the kernel does not check.
- Oct2Int: does not model `int` overflow of fields of 2^31 or more; the file system requires sizes up to 1024.
- Kmalloc: the overflow of `size + 0xf` is the arithmetic panic of a debug build; a release build would wrap.
- GuestPageTable: the 16 KB root and 11-bit top index of Sv48x4 (RISC-V Privileged Architecture, section 8.5.1); the code uses a 4 KB root and 9 bits, and so does the model. `hgatp` is not modelled.
- ReadLine: requires a newline in the input, since the real function waits for one; byte 0xFF is excluded because it reads as "no input".
- Calculate: signed overflow is undefined in C and is one outcome, `Overflowed`, with no value.
- Exit: registers, stacks and `switch_context` are not modelled; a context switch is the update of the current process and CR3. No claim is made about the first switch into a fresh process.
- TimerTick: saving the interrupted context (`copy_thread`), the cursor blink and the PIC are not modelled.
- FileSystem: the file table is an array of values, so `struct file` pointers kept across calls are not captured.
- Queue: `ret |= tmp << 8 * i` is written as an addition; the bits it sets are still zero.
- Vmm: several vCPUs share the ring, but page tables are modelled for one paging vCPU.
- Translate: accessed and dirty bits, the TLB and CR0/CR4 modes.
- StoreByte: a store into the kernel's image changes the byte, but not the fields that stand for the kernel's own data there, so nothing is promised afterwards; interrupts and exceptions are not modelled.
- Round: the text printed for an answer, the prompt and the loop around the rounds.
- LoadThread: only the running thread; restoring its registers is not modelled.
- The kernel's own `getchar`, interrupts and the timer counter, and the message texts of `printf`, PANIC and the debug output.
- `%x` and `%s` of `printf`, the fixed demos of the shell, and VGA, PIT, PIC, UART and CPUID emulation: easy or finite members.
- Loading a bzImage, the command line and loader fields of `boot_params`, and file reading errors: input and output.
- Descriptor tables (GDT, IDT) and real-mode guests.
