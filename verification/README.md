# UnnamedOS: memory, tasks and drivers, verified in Dafny

UnnamedOS is a small kernel for IA-32. This project models its stateful cores and proves
what they promise, over every input and every run. `dafny verify dfyconfig.toml` checks
all of it.

## What is modelled

**Physical and virtual memory** (`src/kernel/mem`). `Pmm` is the packed bitmap of two bits
per page frame with its first-fit allocator; `Paging` the two-level address walk of
section 4.3 of the Intel SDM, volume 3A, and the window through which a directory whose
last entry names itself reaches its own tables. `Space`, `Ranges`, `Allocation`,
`Directories` and `Boot` say what each operation of the virtual memory manager does to a
state value: physical memory, bitmap, loaded directory, and a ledger that records what
each frame was taken for. No operation reads the ledger. `Vmm.MemoryManager` is the
manager as it runs, a class that edits directories and tables word by word, through the
address walk once paging is on; each of its methods is proved to do to the whole state
what the functions specify. `System` proves whole runs: shared and lazily refreshed page
tables behave like one global kernel map and one private map per directory, and no frame
serves two purposes. `UnmapLimits` and `Shortages` say, for every state, when these
operations meet the misplaced guard described below and when they run short of frames or
pages.

**Memory of tasks and programs** (`src/kernel/tasks/task.c`, `elf.c`). `TaskMemory` and
`ElfTasks` follow creating and destroying kernel tasks, user tasks and ELF programs,
`TaskRuns` any runs of them, up to conservation of frames; `TaskMethods` is the same code in
steps. `Bytes` sees words as bytes, `UserMemory` follows writes through a directory into
physical memory, `Elf` and `ElfLoader` load and unload the segments of a program.
`ProgramRoom` says exactly when a program can be loaded, in terms of its entries and of the
state before, and what entries that share a page do; `KernelRoom` carries this through the
switches of directory, and `TaskCycles` through whole lives of tasks, which come and go
without end.

**Scheduling** (`src/kernel/tasks/task.c`, `schedule.c`, `src/kernel/interrupts/syscall.c`).
`Tasks` is the task table with its cyclic searches, `Scheduling` the machine of timer
ticks, exits, creations, destructions and directory brackets, `Scheduler` the code that
takes its steps.

**Drivers and libraries.** `Vm86` is the virtual 8086 monitor, `Lists` the doubly linked
list and the queue, `Pit` the wrap-around timeouts, `Printing` the output of integers and
`Keyboard` the decoding of scancodes.

A word of memory that serves as a page table entry is a record of its bit fields, a byte
or 32-bit word of a bitmap a sequence of its bits. 32-bit and 8-bit wrap-around is written
out. Proofs often start with `hide`, which keeps definitions they do not need out of sight.

## What the code does that its comments do not say

* `vmm_unmap` means to free a page table that has become empty, but tests for the index of
  the last entry. It frees the table exactly when the entry of the last page is the only
  one left, and so loses that page (`Space.UnmapExact`, with the exact condition, and the
  concrete state of `System.UnmapLosesLastPage`); an empty table is kept. Unmapping a range
  meets the guard under the condition of `UnmapLimits.UnmapRangeCleanIff`, and does harm
  under that of `UnmapLimits.UnmapRangeClearsIff`. Runs are followed as long as the guard
  is not met.
* `vmm_destroy_page_directory` gives entry 0 back without asking whether it is present, so
  page frame 0 becomes unused. From then on the allocator finds frame 0 first and takes its
  address for a failure: no single frame can be had any more
  (`Pmm.FrameZeroStarvesSingleFrames`, `Directories.DestroyStarves`, and the concrete state
  of `Shortages.DestroyLosesFrameZero`). Entry 0 of a task's directory is never present, so
  this happens whenever a task is destroyed, and no task can be created afterwards
  (`TaskRuns.ReapFreesFrameZero`, `TaskRuns.NoSpawnAfterReap`, `TaskCycles.OneTaskOnly`).
  The field `careful` of the state switches to the reading that was meant, in which an
  absent entry 0 is left alone; runs are proved for both, and in the careful one tasks can
  come and go any number of times (`TaskCycles.TasksForEver`).
* `vmm_alloc` keeps the frames it has taken when it finds no pages for them
  (`Allocation.AllocFailure`, and the concrete state of `Shortages.LostFrames`), and `vmm_map` does not notice that it got no frame for a
  new table: it reports success and uses frame 0 (`Space.MapWithoutFrame`). Such a state is
  marked and followed no further.
* `vmm_find_free` knows a free page by its physical address being 0, which a page mapped to
  frame 0 has as well (`Ranges.PhysZeroIff`).
* `vmm_free` takes the frames from that of the first page on, whatever is mapped behind it
  (`Shortages.FreeMarks`). Frame 0 becomes unused if and only if the first page is unmapped
  or mapped to frame 0, and then no single frame can be had any more
  (`Shortages.FreeUnmapped`, and the concrete state of `Shortages.LostFrames`).
* `vmm_use_virtual_memory` takes as many frames as the length needs but maps every page the
  range touches. The two differ exactly under the condition of `UserMemory.SpannedIsTaken`;
  then the last page is mapped to a frame that was not taken for it
  (`UserMemory.UnalignedMapsForeignFrame`, and the concrete address and length of
  `ProgramRoom.UnalignedPage`).
* `elf_load` does not ask whether entries share a page. If they do, the later entry takes
  frames for the shared pages in vain and overwrites what the earlier one had there
  (`ProgramRoom.SharedPages`). With frames enough this is the only trouble a program can
  meet in an empty directory (`ProgramRoom.LoadSegmentsIff`, `TaskCycles.CreateInIff`, and
  the concrete programs of `TaskCycles.SmallFits` and `TaskCycles.SmallShares`).
* The slice of a task that is alone is never refilled, so its ticks run through 0 to
  2^32 - 1, and a task created then waits for all of them (`Scheduling.NewcomerWaits`).
* `syscall_exit` reports that the last task cannot exit but stops it all the same
  (`Scheduling.ExitNeedsAnother`).
* `task_destroy` of a running task returns with interrupts still disabled.
* `task_add` looks at the slot behind the table before it notices that the table is full;
  whatever it finds there it panics, and the model asks the questions in the other order.
* `list_remove` unlinks a node without freeing it.
* A timeout that is not polled between the last wrap of the counter and its deadline, and
  again between the deadline and the next wrap, is missed until the counter has wrapped
  (`Pit.FiresBeforeWrapIff`).
* Releasing print screen is never recognised and garbles what follows
  (`Keyboard.PrintReleaseMisread`).
* `io_putint` counts padding in 8 bits: a very negative width wraps and prints padding
  nobody asked for (`Printing.PadExact` says exactly when). With `%d` the sign comes
  before the padding and is not counted in the result.

## Model

| member | source | states |
|---|---|---|
| FirstFit.FirstRun | src/kernel/mem/pmm.c:160-175 | First fit: the lowest start of a long enough run of free positions, and none exactly when there is no such run. |
| FirstFit.ScanStep | src/kernel/mem/pmm.c:164-172 | One turn of the counting search either goes on with nothing missed or has found the first run. |
| Pmm.SetEntry | src/kernel/mem/pmm.c:58-75 | Writing the two bits of one entry into its 32-bit word sets that frame's mark and leaves every other mark alone; the marks are the numbers 0 to 3, 16 to a word. |
| Pmm.UseExact | src/kernel/mem/pmm.c:141-153 | Marking a byte range that does not wrap changes exactly the frames it meets; the highest kernel page stays a bound on all kernel marks and is raised only to a frame just marked as one. |
| Pmm.ChooseSucceedsIff | src/kernel/mem/pmm.c:160-175 | Allocation succeeds if and only if a long enough run of unused frames exists and none begins at frame 0; it takes the lowest. |
| Pmm.AllocExact | src/kernel/mem/pmm.c:183-189 | A successful allocation marks exactly its own frames, all unused before. |
| Pmm.FrameZeroStarvesSingleFrames | src/kernel/mem/pmm.c:183-186 | Once frame 0 is unused every allocation of up to one page fails. |
| Pmm.PhysicalMemory.BitmapSet | src/kernel/mem/pmm.c:58-65 | The bit loop sets one frame's mark and no other. |
| Pmm.PhysicalMemory.BitmapGet | src/kernel/mem/pmm.c:72-75 | Reads the mark of a frame back from the packed word. |
| Pmm.PhysicalMemory.Use | src/kernel/mem/pmm.c:141-153 | The marking loop does what UseMarks and UseHighest specify, wrapped ranges included. |
| Pmm.PhysicalMemory.FindFree | src/kernel/mem/pmm.c:160-175 | The search loop returns the first fit, 0 if there is none. |
| Pmm.PhysicalMemory.Alloc | src/kernel/mem/pmm.c:183-189 | Marks the first fit, or changes nothing and returns 0. |
| Pmm.PhysicalMemory.FreeFrames | src/kernel/mem/pmm.c:196-199 | Marks the frames of the range unused. |
| Paging.WindowReachesTables | src/kernel/mem/vmm.c:180-199 | For any memory and self-mapped directory, word j of window i is word j of the frame in entry i, and unmapped exactly when that entry is absent; the last window is the directory. |
| Space.DomainsExact | src/kernel/mem/vmm.c:49-54 | The two domains and the shared tables as byte addresses. |
| Space.UserAccessExact | src/kernel/mem/vmm.c:253-279 | In every directory a user reaches exactly the pages mapped for users, writes exactly those mapped to be written, and never reaches the window, both levels of entries taken together. |
| Space.MapExact | src/kernel/mem/vmm.c:253-279 | Mapping succeeds exactly when the domain allows it and the page is free; it gives that page, in the directories that list its table, the translation asked for and changes no other. |
| Space.MapWithoutFrame | src/kernel/mem/vmm.c:260-265 | Without a frame mapping reports success all the same: the page goes through a table in frame 0, whose words are lost and which stays unmarked. |
| Space.MapGrows | src/kernel/mem/vmm.c:260-265 | Mapping keeps the invariant and takes at most a frame for a missing table. |
| Space.UnmapExact | src/kernel/mem/vmm.c:286-304 | Unmapping clears exactly one page's translation if and only if it does not leave the last page of the table alone. |
| Space.MapCleanIff | src/kernel/mem/vmm.c:260-262 | Mapping runs short exactly when it needs a new table and no frame is left. |
| System.UnmapLosesLastPage | src/kernel/mem/vmm.c:296-301 | A state in which unmapping one page also unmaps another and frees their table. |
| Ranges.FindPages | src/kernel/mem/vmm.c:407-422 | The pages found lie inside the requested domain. |
| Ranges.PhysZeroIff | src/kernel/mem/vmm.c:362-373 | The physical address of a page reads as 0 exactly when the page is unmapped or mapped to frame 0. |
| Ranges.FindPagesFree | src/kernel/mem/vmm.c:407-422 | The pages found are all unmapped, or mapped to frame 0. |
| Ranges.FindPagesFirst | src/kernel/mem/vmm.c:407-422 | Every lower run of the domain, and on failure every run, contains a mapped page. |
| Ranges.MapRangeExact | src/kernel/mem/vmm.c:314-332 | A mapped range translates page by page to the frame range, was wholly unmapped, and no other translation changes. |
| Ranges.MapRefusedWhole | src/kernel/mem/vmm.c:314-316 | With the domain check on, a range that begins outside its domain changes nothing, even if it reaches into it. |
| Ranges.UnmapRangeExact | src/kernel/mem/vmm.c:314-332 | An unmapped range loses exactly its own translations. |
| UnmapLimits.UnmapRangeCleanIff | src/kernel/mem/vmm.c:286-332 | Unmapping a range frees no table if and only if no table comes to hold its last page alone on the way. |
| UnmapLimits.UnmapRangeTrans | src/kernel/mem/vmm.c:286-332 | What becomes of every page of the loaded directory, the guard met or not. |
| UnmapLimits.UnmapRangeMarks | src/kernel/mem/vmm.c:286-332 | The frames of exactly the tables for which the guard is met become unused. |
| UnmapLimits.UnmapRangeClearsIff | src/kernel/mem/vmm.c:286-332 | The pages of the range and no others are cleared if and only if the guard is met for no table but ones whose last page is in the range. |
| Shortages.SingleFrameIff | src/kernel/mem/pmm.c:160-189 | A single frame can be had if and only if some frame is unused and frame 0 is not. |
| Shortages.MapRangeCleanIff | src/kernel/mem/vmm.c:314-332 | Mapping a range meets no trouble if and only if its pages are free and allowed and there are as many single frames as missing tables. |
| Shortages.MapRangeRest | src/kernel/mem/vmm.c:314-332 | With frames for the missing tables, the pages of a range that the domain allows get their frames if they were unmapped and stay as they were if not, and those behind the end of the domain are refused. |
| Allocation.AllocPages | src/kernel/mem/vmm.c:511-520 | An allocation yields unmapped pages of its domain, mapped to one run of unused frames now recorded for it, and changes nothing else. |
| Allocation.AllocBytes | src/kernel/mem/vmm.c:511-520 | Byte k of an allocation lies in the domain asked for, was unmapped and now translates to byte k of one contiguous frame run. |
| Allocation.AllocFailure | src/kernel/mem/vmm.c:514-517 | Failure exactly when frames or pages are missing; in the second case the frames stay marked. |
| Shortages.AllocCleanIff | src/kernel/mem/vmm.c:511-520 | An allocation meets no trouble if and only if frames and unmapped pages are found and single frames are left for the missing tables. |
| Shortages.AllocSucceeds | src/kernel/mem/vmm.c:511-520 | So it does with the tables of its pages at hand. |
| Allocation.FreeExact | src/kernel/mem/vmm.c:528-533 | Freeing clears exactly the allocation's pages and marks exactly its frames unused. |
| Shortages.FreeCleanIff | src/kernel/mem/vmm.c:528-533 | Freeing meets no trouble if and only if the guard is never met. |
| Shortages.FreeClearsIff | src/kernel/mem/vmm.c:528-533 | And clears exactly its pages if and only if the guard is met for no table but ones whose last page it frees. |
| Shortages.FreeMarks | src/kernel/mem/vmm.c:528-533 | Whatever is mapped there, freeing marks unused exactly the frames from that of the first page on and those of the tables given up; frame 0, in use before, becomes unused if and only if the first page is unmapped or mapped to it. |
| Shortages.FreeUnmapped | src/kernel/mem/vmm.c:528-533 | Freeing a page that is not mapped changes one mark, that of frame 0, and after it no single frame can be had. |
| Shortages.LostFrames | src/kernel/mem/vmm.c:511-533 | A state in which asking for more pages than there are loses a frame, and in which freeing an unmapped page starves the allocator. |
| Allocation.FreeUndoesAlloc | src/kernel/mem/vmm.c:511-533 | Freeing right after allocating restores every translation and every frame taken, up to page tables. |
| Directories.CreateExact | src/kernel/mem/vmm.c:72-84 | A new directory is a fresh frame that names itself and translates nothing; every other translation is as before. |
| Directories.RefreshExact | src/kernel/mem/vmm.c:112-122 | A refreshed directory has the loaded kernel entries and its own private ones; the temporary mapping leaves no trace. |
| Directories.LoadExact | src/kernel/mem/vmm.c:129-142 | Loading a directory keeps every kernel translation and all private translations of all directories. |
| Directories.DestroyExact | src/kernel/mem/vmm.c:90-105 | Destroying a directory gives back it and its private tables and nothing shared, and no other directory's translation changes. |
| Directories.DestroyStarves | src/kernel/mem/vmm.c:98 | Destroying a directory whose entry 0 is absent leaves frame 0 unused, and no further single frame can be allocated. |
| Shortages.RefreshCleanIff | src/kernel/mem/vmm.c:112-122 | Refreshing meets no trouble if and only if a kernel page is free for a moment: its table is there or a frame for it, and does not hold its last page alone. |
| Shortages.LoadCleanIff | src/kernel/mem/vmm.c:129-142 | So does loading, if the directory is not in the very last frame. |
| Shortages.CreateCleanIff | src/kernel/mem/vmm.c:72-84 | Creating a directory needs one frame more. |
| Shortages.DestroyCleanIff | src/kernel/mem/vmm.c:90-105 | Destroying one needs what refreshing needs. |
| Shortages.DestroyLosesFrameZero | src/kernel/mem/vmm.c:98 | A state in which destroying a directory meets no trouble and leaves frame 0 unused. |
| System.StepRefines | src/kernel/mem/vmm.c:61-142 | Every operation acts on one global kernel map and one private map per directory as specified, and keeps invariant and books. |
| System.RunRefines | src/kernel/mem/vmm.c:112-142 | So does every run, with any number of directories however stale their kernel entries are. |
| System.FramesDisjoint | src/kernel/mem/vmm.c:61-105 | In every state of a run data, tables and directories are disjoint frames, all marked as used; two entries share a table only if they are the same kernel entry. |
| Boot.IdentityMapExact | src/kernel/mem/vmm.c:544-555 | The loop maps every page marked before it started to itself and nothing else, although it takes frames in the bitmap it scans. |
| Boot.InitMapsKernel | src/kernel/mem/vmm.c:544-556 | With every kernel mark at or below the remembered highest page, initialisation identity-maps all kernel memory. |
| Boot.InitTakes | src/kernel/mem/vmm.c:544-556 | Initialisation takes one frame for the directory and one for each table, and meets no shortage if frame 0 is in use and frames are unused for the directory and every table up to the highest kernel page. |
| Vmm.MemoryManager.Map | src/kernel/mem/vmm.c:253-279 | Through window or physical address, does to the whole state what MapPage specifies. |
| Vmm.MemoryManager.CreateTable | src/kernel/mem/vmm.c:260-265 | The branch for a missing table, frame 0 on failure included. |
| Vmm.MemoryManager.Unmap | src/kernel/mem/vmm.c:286-304 | Does what UnmapPage specifies, the guard taken literally. |
| Vmm.MemoryManager.FreeTable | src/kernel/mem/vmm.c:295-301 | Gives the table back exactly when the entry of its last page is the only one left. |
| Vmm.MemoryManager.FirstPresent | src/kernel/mem/vmm.c:295-299 | The search for a present entry stops at index 1023 exactly when that entry is the only one. |
| Vmm.MemoryManager.GetPhysicalAddress | src/kernel/mem/vmm.c:362-373 | Reads through the window what the address walk says. |
| Vmm.MemoryManager.FindFree | src/kernel/mem/vmm.c:407-422 | The search loop returns the first fit of the domain. |
| Vmm.MemoryManager.MapRange | src/kernel/mem/vmm.c:314-343 | The loop over pages does what MapBytes specifies. |
| Vmm.MemoryManager.UnmapRange | src/kernel/mem/vmm.c:314-357 | The loop over pages does what UnmapBytes specifies. |
| Vmm.MemoryManager.Alloc | src/kernel/mem/vmm.c:511-520 | State and address are those of the specification. |
| Vmm.MemoryManager.Free | src/kernel/mem/vmm.c:528-533 | The state is that of the specification, whatever is or is not mapped there. |
| Vmm.MemoryManager.DestroyPageTable | src/kernel/mem/vmm.c:61-66 | Gives the frame of an entry back, present or not, and clears it. |
| Vmm.MemoryManager.CreateDirectory | src/kernel/mem/vmm.c:72-84 | With paging on or off, creates a directory as specified. |
| Vmm.MemoryManager.DestroyDirectory | src/kernel/mem/vmm.c:90-105 | Destroys a directory as specified, editing it through a temporary mapping. |
| Vmm.MemoryManager.RefreshDirectory | src/kernel/mem/vmm.c:112-122 | Copies the kernel entries word by word as specified. |
| Vmm.MemoryManager.LoadDirectory | src/kernel/mem/vmm.c:129-142 | Loads a directory, turning paging on the first time, and returns the previous one's address. |
| Vmm.MemoryManager.ModifyDirectory | src/kernel/mem/vmm.c:149-157 | Enters a directory for modification unless one is being modified. |
| Vmm.MemoryManager.ModifiedDirectory | src/kernel/mem/vmm.c:164-172 | Returns to the directory loaded before. |
| Vmm.MemoryManager.Init | src/kernel/mem/vmm.c:544-569 | First directory, identity map and switch to paging, as InitVmm specifies. |
| TaskMemory.CreateTaskExact | src/kernel/tasks/task.c:75-119 | A new task takes only unused frames, holds all its memory as recorded, and costs nobody a translation; its user stack is mapped page by page for users to write, record and kernel stack for the kernel, not writable. |
| TaskMemory.CreateTaskInExact | src/kernel/tasks/task.c:75-119 | So does a task that is given a directory and the program loaded there. |
| TaskMemory.BracketsDoNotNest | src/kernel/mem/vmm.c:149-172 | A bracket loads the directory and remembers the earlier one; a second bracket inside is ignored. |
| TaskMemory.DestroyTaskExact | src/kernel/tasks/task.c:161-177 | Destroying a task gives back every frame it owns and no other, and every other task keeps all it holds. |
| ElfTasks.CreateInExact | src/kernel/tasks/elf.c:148-160 | An ELF task takes only unused frames and holds all of them, the segments of its program among them, in a directory of its own, with the same protection of record and stacks. |
| ElfTasks.DestroyAnyExact | src/kernel/tasks/elf.c:166-171 | Unloading its program and destroying it gives back every frame it owns and no other. |
| TaskRuns.StartsAfterBoot | src/kernel/mem/vmm.c:544-569 | The state after initialisation is one in which runs of tasks can start. |
| TaskRuns.StartsWithFrames | src/kernel/mem/vmm.c:544-569 | So it is with frames unused for the directory and every table up to the highest kernel page. |
| TaskRuns.RunLedger | src/kernel/tasks/task.c:75-177 | Over every run of kernel tasks, user tasks and ELF programs the books differ only by kernel tables and by the tasks created and destroyed. |
| TaskRuns.Conservation | src/kernel/tasks/task.c:75-177 | A run that ends with the tasks it began with returns every frame to its earlier mark, up to shared kernel tables and, in the code's reading, frame 0. |
| TaskRuns.StaysProtected | src/kernel/tasks/task.c:75-177 | In every state of a run each task has its record and stacks mapped with that protection, and each entry of its program at its address, writable only if it says so. |
| TaskRuns.SwitchLoads | src/kernel/tasks/schedule.c:60-66 | Switching to a task loads its directory. |
| TaskRuns.ReapFreesFrameZero | src/kernel/mem/vmm.c:98 | In the code's reading destroying any task leaves frame 0 unused. |
| TaskRuns.SpawnNeedsFrameZero | src/kernel/mem/vmm.c:98 | Once frame 0 is unused no task can be created. |
| TaskRuns.NoSpawnAfterReap | src/kernel/tasks/task.c:161-177 | In the code's reading no task can be created after one has been destroyed. |
| TaskCycles.CreateInIff | src/kernel/tasks/elf.c:148-160 | An ELF task is created without trouble if and only if no two entries of its program share a page, given room for pages, record and stacks. |
| TaskCycles.CycleRuns | src/kernel/tasks/task.c:75-177 | Creating, stopping and destroying a task that fits, with or without user stack and program, in a kernel of any number of tables, meets no trouble. |
| TaskCycles.CycleRestores | src/kernel/tasks/task.c:75-177 | In the careful reading the cycle leaves the whole bitmap and the set of tasks as they were, with room for the next. |
| TaskCycles.TasksForEver | src/kernel/tasks/task.c:75-177 | So any sequence of tasks that fit, of any kinds, can come and go one after the other. |
| TaskCycles.OneTaskOnly | src/kernel/mem/vmm.c:98 | In the code's reading the first of them runs as well, and no task of any kind can be created after it. |
| TaskCycles.FreshRoom | src/kernel/tasks/task.c:75-177 | A state from which such cycles start. |
| TaskCycles.SmallFits | src/kernel/tasks/elf.c:148-160 | A program with code, uninitialised data, user stack and kernel stack that fits there. |
| TaskCycles.SmallShares | src/kernel/tasks/elf.c:148-160 | One whose entries share a page, and which is created there with trouble. |
| TaskMethods.CreateTask | src/kernel/tasks/task.c:75-119 | The steps of task creation, with a new directory or a given one, reach the specified state and addresses. |
| TaskMethods.CreateElfTask | src/kernel/tasks/elf.c:148-160 | So do those of creating an ELF task, the entry point included. |
| TaskMethods.DestroyTask | src/kernel/tasks/task.c:161-177 | The steps of task destruction reach the specified state. |
| TaskMethods.DestroyElfTask | src/kernel/tasks/elf.c:166-171 | So do those of destroying an ELF task. |
| UserMemory.SpannedIsTaken | src/kernel/mem/vmm.c:496-503 | The pages mapped are as many as the frames taken if and only if offset and length leave room in the last page. |
| UserMemory.UnalignedMapsForeignFrame | src/kernel/mem/vmm.c:496-503 | Otherwise the last page is mapped to a frame not taken for it. |
| ProgramRoom.UnalignedPage | src/kernel/mem/vmm.c:496-503 | A state, and an address in the middle of a page, for which one page of memory comes as two, the second in a foreign frame. |
| ProgramRoom.UseVirtualCleanIff | src/kernel/mem/vmm.c:496-503 | Memory at a chosen address is had without trouble if and only if a run of frames is found, the pages are unmapped and allowed, and single frames are left for the missing tables. |
| UserMemory.VirtualRun | src/kernel/tasks/elf.c:112-115 | Filling and copying through a directory writes one contiguous physical run when the range is mapped so. |
| UserMemory.VirtualBytes | src/kernel/tasks/elf.c:112-115 | Storing through a directory is read back through it, wherever in memory the pages lie. |
| UserMemory.LoadKeepsData | src/kernel/mem/vmm.c:112-142 | Loading a directory touches no allocated data. |
| Bytes.BytesRoundTrip | src/kernel/tasks/elf.c:112-115 | Any four bytes are those of the word built from them. |
| Bytes.WordRoundTrip | src/kernel/tasks/elf.c:112-115 | And any word, with all its fields, is the one built from its own four bytes. |
| Bytes.WordValue | src/kernel/mem/vmm.h:24-51 | As a number, lowest byte first, present, writable and user are bits 0 to 2 and the frame the bits from 12 on. |
| Bytes.WriteRunExact | src/kernel/tasks/elf.c:112-115 | A run of stored bytes is what is read back, and all other bytes are as before. |
| Elf.SegmentStep | src/kernel/tasks/elf.c:105-117 | Loading one entry maps its pages with its protection to frames of its own; byte k there is byte offset + k of the file up to its length in the file and 0 behind, and no data allocated before is touched. |
| Elf.LoadSegmentsExact | src/kernel/tasks/elf.c:100-118 | So do any number of entries, each keeping what it holds while the others are loaded. |
| ProgramRoom.LoadSegmentCleanIff | src/kernel/tasks/elf.c:105-117 | Loading one entry meets no trouble if and only if frames are found, its pages are unmapped and frames are left for the tables. |
| ProgramRoom.LoadSegmentsIff | src/kernel/tasks/elf.c:99-117 | With frames at the end of memory any number of entries load without trouble if and only if no two share a page and none of their pages is mapped; then exactly their pages become mapped. |
| ProgramRoom.SharedPages | src/kernel/tasks/elf.c:105-117 | Loading an entry over another: it reads as the file says, shared pages stay in the first entry's frames with nothing left of its bytes, and the frames taken for them are mapped nowhere in the entry. |
| Elf.ElfLoadExact | src/kernel/tasks/elf.c:91-120 | All of it still holds once the earlier directory is loaded again. |
| Elf.ElfLoadReads | src/kernel/tasks/elf.c:91-120 | In virtual terms: byte k of each entry, read through the program's directory, is byte offset + k of the file, or 0 behind its length in the file. |
| KernelRoom.ElfLoadIff | src/kernel/tasks/elf.c:91-120 | The whole load, directory switches included, meets no trouble if and only if no two entries share a page and none of their pages is mapped, given room for it. |
| KernelRoom.ElfLoads | src/kernel/tasks/elf.c:91-120 | Such a program, read through its directory, is as its file says, in frames of its own. |
| Elf.ElfUnloadExact | src/kernel/tasks/elf.c:127-139 | Unloading gives back exactly the frames of the entries' allocations. |
| Elf.UnloadUndoesLoad | src/kernel/tasks/elf.c:91-139 | Unloading after loading leaves every frame's owner as before, up to page tables. |
| KernelRoom.ElfUnloadKern | src/kernel/tasks/elf.c:127-139 | Unloading meets no trouble when the program holds its allocations and maps the last page of no table. |
| KernelRoom.ElfComesAndGoes | src/kernel/tasks/elf.c:91-139 | A program whose entries share no page is loaded into an empty directory and unloaded without trouble, with every frame's owner as before, up to page tables. |
| ElfLoader.UseVirtualMemory | src/kernel/mem/vmm.c:496-503 | Takes frames and maps them at a chosen address, as specified. |
| ElfLoader.StoreBytes | src/kernel/tasks/elf.c:112-115 | Byte by byte through the loaded directory, as WriteVirtual specifies. |
| ElfLoader.Load | src/kernel/tasks/elf.c:91-120 | The loop over program headers reaches the specified state; the entry point is returned exactly for a little-endian 32-bit x86 executable of version 1, any other file changes nothing. |
| ElfLoader.Unload | src/kernel/tasks/elf.c:127-139 | The loop over program headers reaches the specified state. |
| Tasks.Next | src/kernel/tasks/task.c:200-211 | The cyclically first slot after pid that is wanted, pid itself last; 0 exactly when there is none. |
| Tasks.TaskTable.Add | src/kernel/tasks/task.c:46-54 | Takes the first free slot; panics exactly when all are taken. |
| Tasks.TaskTable.GetNextTask | src/kernel/tasks/task.c:184-192 | The two loops find the next present task. |
| Tasks.TaskTable.GetNextTaskWithState | src/kernel/tasks/task.c:200-211 | The loop ends and finds the next task with the state. |
| Tasks.TaskTable.SetTicks | src/kernel/tasks/task.c:228-233 | Changes one task's ticks and returns the old number. |
| Tasks.TaskTable.Stop | src/kernel/tasks/task.c:153-155 | Changes one task's state. |
| Tasks.TaskTable.Destroy | src/kernel/tasks/task.c:161-177 | Removes a stopped task; for a running one does nothing but leave interrupts disabled. |
| Tasks.TaskTable.FinalizeTasks | src/kernel/tasks/schedule.c:87-91 | Ends, with the set of stopped tasks as measure, and leaves exactly the tasks that are not stopped. |
| Scheduling.StepInv | src/kernel/tasks/schedule.c:26-68 | Every event keeps: the current task exists, is running, and its directory is loaded outside brackets. |
| Scheduling.StepFaithful | src/kernel/tasks/schedule.c:26-40 | A resumed task gets exactly the CPU state it was last switched away from with, or created with, and the directory it was created with. |
| Scheduling.RunsAreRight | src/kernel/tasks/schedule.c:26-91 | From a state in which both hold they hold throughout every run of legal events; outside brackets the directory of the current task is loaded after every event, and no event destroys that task. |
| Scheduling.InterruptsExact | src/kernel/mem/vmm.c:149-172 | Which events leave interrupts enabled. |
| Scheduling.InBracket | src/kernel/mem/vmm.c:149-157 | Whatever happens inside a bracket, its directory stays loaded, interrupts stay disabled and no task is switched to. |
| Scheduling.Bracket | src/kernel/mem/vmm.c:149-172 | A bracket loads the directory asked for; at its end directory, task and interrupts are as before. |
| Scheduling.ExitNeedsAnother | src/kernel/interrupts/syscall.c:31-41 | After an exit the current task is running if and only if another one was; else finalisation destroys it. |
| Scheduling.SwitchShortens | src/kernel/tasks/schedule.c:26-40 | While a task waits, every expiry and every exit changes the current task and shortens the cyclic way to it. |
| Scheduling.Fair | src/kernel/tasks/schedule.c:26-68 | Over a run, switches use up a waiting task's distance and ticks its patience, whatever is created, exits or is destroyed. |
| Scheduling.TurnComes | src/kernel/tasks/schedule.c:26-68 | A ready task runs within one slice less than there are slots, and within a computable number of ticks. |
| Scheduling.TurnComesInTable | src/kernel/tasks/task.c:24 | In the kernel's table of 1024 slots with slices of one tick: within 1023 changes of task, or 1022 ticks after the current slice. |
| Scheduling.WaitExact | src/kernel/tasks/schedule.c:26-40 | With another task ready the current one keeps the processor for exactly max(1, ticks) ticks. |
| Scheduling.AloneTicks | src/kernel/tasks/schedule.c:29-37 | Alone, a task counts its ticks down past zero and is never refilled. |
| Scheduling.NewcomerWaits | src/kernel/tasks/schedule.c:29-37 | The exact wait of a task created after the only other one was alone, 2^32 - 1 ticks after two of them. |
| Scheduler.RoundRobin.Schedule | src/kernel/tasks/schedule.c:26-40 | The timer's scheduling code takes the machine's step. |
| Scheduler.RoundRobin.SwitchTask | src/kernel/tasks/schedule.c:47-68 | Refills the slice, loads the directory and returns the saved CPU state. |
| Scheduler.RoundRobin.Exit | src/kernel/interrupts/syscall.c:29-42 | The exit call takes the machine's step, with or without another task. |
| Scheduler.RoundRobin.AddTask | src/kernel/tasks/task.c:115-118 | Files the task as running in the slot it takes, with its own CPU state, directory and slice, as the machine's step does; panics exactly when no slot is free. |
| Scheduler.RoundRobin.FinalizeTasks | src/kernel/tasks/schedule.c:87-91 | Finalisation never touches the current task. |
| Vm86.FarRoundTrip | src/kernel/tasks/vm86.c:91-132 | Address to far pointer and back is the identity if and only if the address is below 1 MiB. |
| Vm86.PushExact | src/kernel/tasks/vm86.c:222-228 | A push lowers the linear stack address by 2, stores the value there and changes no other byte. |
| Vm86.PopExact | src/kernel/tasks/vm86.c:235-242 | A pop returns the value at the stack address and raises it by 2 exactly when that stays below 1 MiB. |
| Vm86.PopUndoesPush | src/kernel/tasks/vm86.c:222-242 | Push and pop cancel out exactly for stacks below 1 MiB. |
| Vm86.PlainExact | src/kernel/tasks/vm86.c:249-277 | By the bytes at the instruction pointer: PUSHF, POPF, CLI, STI and port instructions with or without the 0x66 prefix are stepped over by their length exactly when the next instruction is below 1 MiB; PUSHF leaves the flags on the stack and POPF ignores them. |
| Vm86.OutcomeExact | src/kernel/tasks/vm86.c:260-330 | Byte 0xCC ends the task, and bytes that start none of the emulated instructions are met with a panic and no change. |
| Vm86.IntExact | src/kernel/tasks/vm86.c:284-297 | 0xCD pushes flags and the far pointer behind itself and goes on at entry n of the vector table, offset first, n being its second byte. |
| Vm86.IretExact | src/kernel/tasks/vm86.c:298-304 | 0xCF resumes at the far pointer on the stack, drops the frame and leaves the flags alone. |
| Vm86.Nested | src/kernel/tasks/vm86.c:260-304 | In any nesting of calls, flag pairs and code of the task's own, each IRET resumes behind its own INT and the linear stack address and the used stack are restored. |
| Vm86.Vm86Task.PushHalf | src/kernel/tasks/vm86.c:222-228 | Does to registers and memory what Push specifies. |
| Vm86.Vm86Task.PopHalf | src/kernel/tasks/vm86.c:235-242 | Does what Pop specifies. |
| Vm86.Vm86Task.HandleFault | src/kernel/tasks/vm86.c:260-330 | Decodes and emulates the faulting instruction as Monitor specifies. |
| Lists.RemovesOne | src/kernel/lib/list.c:104-118 | Removing takes out one occurrence, the first, and keeps the order of the rest. |
| Lists.List.WalksMirror | src/kernel/lib/list.c:32-41 | Walking forward and backward visits the same nodes in opposite order and ends after as many steps as there are data. |
| Lists.List.Size | src/kernel/lib/list.c:32-37 | Counts the data. |
| Lists.List.Find | src/kernel/lib/list.c:97-102 | True exactly when the data is in the list. |
| Lists.List.FirstMatch | src/kernel/lib/list.c:97-107 | The loop stops at the first match. |
| Lists.List.PushFront | src/kernel/lib/list.c:57-63 | Adds at the front with all links in order. |
| Lists.List.PushBack | src/kernel/lib/list.c:65-71 | Adds at the back with all links in order. |
| Lists.List.PopFront | src/kernel/lib/list.c:73-83 | Takes the first from the list and frees its node. |
| Lists.List.PopBack | src/kernel/lib/list.c:85-95 | Takes the last from the list and frees its node. |
| Lists.List.Remove | src/kernel/lib/list.c:104-118 | Unlinks the first match only, or nothing, and frees no storage. |
| Lists.List.Clear | src/kernel/lib/list.c:16-20 | Ends, empties the list, and frees all its nodes but not those removed before. |
| Lists.FirstInFirstOut | src/kernel/lib/queue.c:8-16 | Over any run what came out followed by what is left equals what was there followed by what came in. |
| Lists.Queue.Enqueue | src/kernel/lib/queue.c:13 | Adds at the end of the queue. |
| Lists.Queue.Dequeue | src/kernel/lib/queue.c:14 | Takes from its front. |
| Pit.MsToTicksExact | src/kernel/hardware/pit.c:18 | The conversion is the one meant if and only if the product fits into 32 bits. |
| Pit.NeverEarly | src/kernel/hardware/pit.c:92-117 | For every start value, duration and polling schedule no timeout is reported before all its ticks have elapsed. |
| Pit.FiresExactly | src/kernel/hardware/pit.c:80-117 | Polled at least twice in every tick, it fires in exactly the tick in which sleeping would end. |
| Pit.FiresIff | src/kernel/hardware/pit.c:100-117 | For any polling at all: it fires if and only if the counter is found at or below the value waited for and later at or above it. |
| Pit.AnswerExact | src/kernel/hardware/pit.c:100-117 | The answer of every single poll: 1 from the one that fires on, 0 before, -1 in an invalid state. |
| Pit.FiresBeforeWrapIff | src/kernel/hardware/pit.c:80-117 | It fires before the counter next wraps if and only if it is polled between the last wrap and the deadline and again before the next wrap. |
| Pit.Timer.Sleep | src/kernel/hardware/pit.c:80-90 | The two loops end after exactly the ticks asked for, across any wrap-around. |
| Pit.Timer.TimedOut | src/kernel/hardware/pit.c:100-117 | Takes the step of the state machine, -1 in an invalid state. |
| Printing.NumeralExact | src/lib/io.c:25-37 | The digits evaluate to the number, have no superfluous leading zero, and are no more than its bits. |
| Printing.NumeralReadable | src/lib/io.c:26-35 | Different numbers are shown by different characters. |
| Printing.PadExact | src/lib/io.c:30-40 | The padding is max(0, width less digits) if and only if the 8-bit subtraction does not wrap. |
| Printing.NegateExact | src/lib/io.c:65-69 | After the sign the magnitude of the signed value is shown, that of -2^31 included. |
| Printing.ShowIntReads | src/lib/io.c:21-42 | For any base from 2 to 36 what is printed is padding and then digits that read as the number, without leading zeros. |
| Printing.DirectiveExact | src/lib/io.c:62-82 | What each conversion prints reads as the argument: base 16 for x, 8 for o, 2 for b, 10 for u and d, behind a minus sign if the signed value is negative. |
| Printing.Console.Convert | src/lib/io.c:25-37 | The loop fills the 33-byte buffer from its end without leaving it. |
| Printing.Console.PutInt | src/lib/io.c:21-42 | Prints padding and digits, or that the radix is invalid, and returns how many characters. |
| Printing.Console.PutSigned | src/lib/io.c:64-71 | Prints the signed value; the sign is not counted. |
| Printing.Console.ReadWidth | src/lib/io.c:60-61 | The width read is the decimal number written, in 8-bit arithmetic. |
| Printing.Console.Directive | src/lib/io.c:54-82 | A directive with flag, width and conversion prints its argument in the base of the conversion to the width read from its digits; the count returned is the length printed, a minus sign apart. |
| Keyboard.HandleValid | src/kernel/hardware/io/keyboard.c:295-322 | For every byte stream the buffer index stays in range, and the print screen release pattern is never met. |
| Keyboard.DecodesAll | src/kernel/hardware/io/keyboard.c:241-322 | The bytes of any sequence of presses and releases of ordinary keys, and presses of pause and print screen, decode to exactly these events. |
| Keyboard.ShowsHeld | src/kernel/hardware/io/keyboard.c:222-249 | With an injective table the bitmap shows exactly the held keys, lock keys apart. |
| Keyboard.PrintReleaseMisread | src/kernel/hardware/io/keyboard.c:295-303 | Releasing print screen reports a release of another key and swallows the next two bytes. |
| Keyboard.Driver.HandleData | src/kernel/hardware/io/keyboard.c:295-322 | The handler takes the machine's step. |

## Left out

- Memory ranges that pass the end of the address space, apart from the marking loop: mapping, unmapping and freeing them is not followed.
- What happens after a shortage (no frame, no pages) or after a live page table has been freed: each single step is described, and when it happens is said exactly, but whole runs and tasks are followed only while it does not.
- Space.MapExact: a mapping for which no frame is left is the subject of Space.MapWithoutFrame.
- Ranges.MapRangeExact: ranges some of whose pages are mapped already or lie behind the end of the domain are the subject of Shortages.MapRangeRest, which asks for frames for the missing tables.
- Ranges.UnmapRangeExact: ranges that meet the guard are the subject of UnmapLimits.UnmapRangeTrans and UnmapLimits.UnmapRangeMarks; the translations are those of the loaded directory only, because others go on listing a shared table that has been freed.
- Shortages.AllocSucceeds: a corollary of Shortages.AllocCleanIff, which is exact.
- Allocation.FreeExact: ranges that meet the guard and pages not mapped to one run are the subject of Shortages.FreeClearsIff and Shortages.FreeMarks.
- Vmm.MemoryManager.Map: pages of the window while the domain check is off; their entries are the directory's own, so that the result need not be a directory.
- Vmm.MemoryManager.MapRange: ranges that pass the end of memory, or reach the window while the domain check is off.
- Vmm.MemoryManager.Unmap: pages of the window; without its last entry the manager could not reach the directory any more.
- Vmm.MemoryManager.UnmapRange: ranges that reach the last 4 MiB, for the same reason.
- Vmm.MemoryManager.Free: ranges that reach the last 4 MiB, and ones that would give back the frame of the loaded directory.
- Vmm.MemoryManager.CreateDirectory: calls for which no frame is left or the new directory cannot be made visible, because the code would then write to address 0. Shortages.CreateCleanIff and Shortages.ShowCleanIff say when; the guard may be met.
- Vmm.MemoryManager.DestroyDirectory: calls for which the directory cannot be made visible, likewise; the guard may be met.
- Vmm.MemoryManager.RefreshDirectory: the same.
- Vmm.MemoryManager.LoadDirectory: the same, but a directory in the very last frame is covered.
- Vmm.MemoryManager.ModifyDirectory: the same, and directories in the very last frame.
- Vmm.MemoryManager.ModifiedDirectory: the same.
- Vmm.MemoryManager.Init: a kernel that reaches the window of the last 4 MiB, a first directory in the very last frame, and shortages before paging is on.
- UserMemory.UseVirtual: a frame run whose extra page would pass the end of memory counts as trouble.
- Boot.InitMapsKernel: the kernel must lie below the window of the last 4 MiB, and the first directory must not be the very last frame.
- Directories.LoadExact: a directory in the very last frame, whose address the code takes for the window, is not loaded and counts as trouble.
- ProgramRoom.LoadSegmentsIff: frames are unused from some frame to the end of memory, two for each page asked for; with scattered frames each single entry is exact by ProgramRoom.LoadSegmentCleanIff. The same holds of KernelRoom.ElfLoadIff, KernelRoom.ElfLoads, KernelRoom.ElfComesAndGoes and TaskCycles.CreateInIff.
- ProgramRoom.SharedPages: the shared pages belong to one loaded entry; likewise with frames at the end of memory.
- Elf.SegmentStep: an entry that begins at the start of a page and is loaded without trouble; ProgramRoom.LoadSegmentCleanIff says when it is, ProgramRoom.SharedPages what happens over a loaded entry.
- Elf.LoadSegmentsExact: entries loaded without trouble; ProgramRoom.LoadSegmentsIff says when they are.
- Elf.ElfLoadExact: a load without trouble; KernelRoom.ElfLoadIff says when it is one, and KernelRoom.ElfLoads draws the conclusion. The file is a value, not memory that could itself be changed by the loading.
- Elf.ElfLoadReads: a load without trouble, as for Elf.ElfLoadExact; KernelRoom.ElfLoads is about the state before.
- Elf.UnloadUndoesLoad: a load without trouble, see KernelRoom.ElfComesAndGoes; page tables made for the program stay with its directory until that is destroyed.
- TaskMemory.CreateTaskExact: a creation without trouble, see TaskCycles.CycleRuns; tasks that are given a directory are the subject of TaskMemory.CreateTaskInExact and ElfTasks.CreateInExact.
- TaskMemory.CreateTaskInExact: a creation without trouble; TaskCycles.CreateInIff says when it is one.
- ElfTasks.CreateInExact: the same.
- TaskMemory.DestroyTaskExact: a task with a program is the subject of ElfTasks.DestroyAnyExact, which unloads it first.
- TaskRuns.RunLedger: VM86 tasks and their identity map of the first MiB are not part of runs, nor are tasks given the directory of another task, which nobody in the kernel creates.
- TaskRuns.Conservation: the same; shared kernel page tables stay taken, and frame 0 is left out in the code's reading because it does change.
- TaskCycles.CycleRuns: the kernel's pages are mapped without a gap and frames are unused from some frame to the end of memory; tasks whose record and kernel stack fit into the rest of the kernel's last table, its last page excepted, and none of whose user pages is the last of a table; others meet the guard when they are freed, or add a kernel table that stays.
- TaskCycles.CycleRestores: the same tasks.
- TaskCycles.TasksForEver: the same tasks, one after the other; runs in which many live at once are the subject of TaskRuns.Conservation.
- TaskMethods.CreateTask: calls that meet a shortage.
- TaskMethods.CreateElfTask: unaligned segments, and calls that meet a shortage.
- TaskMethods.DestroyTask: calls that meet a shortage or the guard.
- TaskMethods.DestroyElfTask: calls that meet a shortage or the guard.
- ElfLoader.UseVirtualMemory: calls that meet a shortage or a page that is mapped already.
- ElfLoader.Load: unaligned segments, see UserMemory.UnalignedMapsForeignFrame, and shortages; of the file's header the fields checked and the entry point are modelled.
- ElfLoader.Unload: entries that do not hold their allocations, when the file is suitable.
- Tasks.TaskTable.Destroy: table and interrupt flag only; the memory is the subject of TaskMemory.
- Scheduling.Step: creating and destroying tasks are the events on table, directory and interrupts they consist of; their memory is the subject of TaskMemory.
- The TLB, the rights of the kernel's own accesses, and video memory mapped during initialisation.
- The contents of task records and initial CPU states, the TSS, and interrupt frames.
- vmm_use, vmm_use_physical_memory and the dump functions, which compose what is modelled.
- Vm86.Vm86Task.HandleFault: what port instructions do to ports and EAX.
- Vm86.Monitor: the same; the BIOS code is an arbitrary sequence of its own instructions that leaves the used stack alone.
- Lists.List: storage is a set of nodes, not addresses from the memory manager.
- Lists.List.Clear: freeing the record of the list itself.
- Pit.Timer.Sleep: each turn of a busy loop stands for the time to the next interrupt; the clock in seconds and programming the chip are left out.
- Printing.Console.PutChar: output characters are collected and counted as one each, as the screen driver does; string, character and attribute directives and malformed formats are left out.
- Keyboard.Driver.ProcessScancode: modifier flags, characters, LEDs and key names; the table of scancodes is a parameter.
- Initial bitmap from the boot loader: any bitmap.
