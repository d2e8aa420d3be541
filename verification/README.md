# A verified model of the sbu-bs kernel

This project models the parts of a small x86-64 kernel in which its data structures can go wrong, and proves what they
keep. It covers five things:

- **Paging** (`Addressing`, `Words`, `PageTables`, `PageInstall`, `PageView`, `PageLookup`, `PageBoundary`,
  `UserAddresses`, `Regions`, `Kernel`, `PagingRuns`, `Allocation`). Physical memory is a sequence of frames of 512 words,
  and the reference is the walk that the processor makes (Intel SDM volume 3A, section 4.5). Tables are named by the path
  of indices that leads to them, so "the tables form a tree" is a statement about paths, and the effect of `memmap` is
  stated for every page of the 48-bit address space. Not every PML4 entry need belong to the tree: the invariant names the
  entries (`slots`) below which it holds, and the others only have to stay away from it.
- **Paging from boot on** (`Boot`, `BootTree`, `BootNormal`, `UserView`, `BootAliases`, `BootRuns`, `FromBoot`). The tables
  that boot leaves are no tree: user entry 1 and the kernel's entry 511 share a table, and stray words lead on from it.
  Without six words they are one (`Normal`). Requests do not tell the two memories apart (`RequestCommutes`) and user mode
  does not either (`UserSeesTree`), so runs from boot are exact for user mode below all 511 user entries (`RunFromBoot`).
- **The process table** (`ProcessSpec`, `ProcessRuns`, `ProcessTable`). Boot, fork, exec, exit(0) and the timer's
  rescheduling are a state machine over values; the class `Table` updates the two arrays in place and is proved to take
  exactly those steps.
- **The areas and the heap of a process** (`Vma`, `Heap`): the list fork copies, and the system call that hands out the
  heap page.
- **The ustar archive** (`Numerals`, `Tarfs`, `TarLayout`; "ustar Interchange Format" of the pax utility, IEEE Std 1003.1): number
  conversion, the three readers of the archive in memory, and the layout they undo.
- **The boot loader's configuration reader** (`ConfLines`, `LineReader`, `ConfGrammar`, `ConfProofs`, `ConfParser`): the
  chunked line reader and the state-machine line parser, against the file as a whole.

Global variables, arrays and buffers that the code changes in place are fields of classes and arrays here; what does
not change is in `modifies` clauses and in the `ensures` that speak of every other word, page or slot. `dafny verify
dfyconfig.toml` checks everything.

## What the proofs found

Properties that one would expect of the code and that it does not have are stated with the exact condition under which
they hold:

- Mapping with permissions that lack a right removes that right from all pages of the same PML4 entry, because the upper
  entries are rewritten; a right that is in the permissions is never lost (`GrantsAfterInstall`, `RightMoved` in
  `PagesMapped`).
- A run of NEW_PAGE and GROWS_DOWN requests maps distinct pages if and only if no NEW_PAGE whose offset has come round to
  slot 0 is followed directly by a GROWS_DOWN (`PagesOfRun`); up to 510 NEW_PAGE requests are safe and 511 are not
  (`FewNewPages`, `BoundIsSharp`).
- A page is mapped through the tables of another address by GROWS_DOWN at the first page of a page table, and by lengths
  that leave the page table of the address. That maps exactly the page and keeps the tree if and only if the address lacks
  the table at which the two paths part and nothing else is mapped where the page lies (`StrayExact`, `GrowsDownExact`);
  otherwise pages are lost (`NewBranch`) or a table is reached twice (`SharedBranch`). The same condition holds in every
  state that a run from boot reaches (`StrayOnBootTables`, `GrowsDownOnBootTables`). Of the stack pages asked for one after
  the other from boot on, the 401st unmaps the 400 before it (`GrowsDownTooFar`).
- Pages of a region share no frame if and only if there are at most 4096 of them (`RegionFrames`).
- The pages of the boot-time list are not cleared, so the boot PML4 table keeps a mark in word 0, which reads as an entry
  for frame 0, and in word 1 a link to the kernel's own page-directory-pointer table, which `get_pdp` takes for an entry.
  From clear memory the tree holds below entries 2 to 510 (`BootIsTree`), and the first user page after boot is mapped
  alone if and only if it is not below entries 0 and 1 (`BootExact`). In every later state a user page is mapped alone if
  and only if it is below entries 2 to 510, or below entry 0 in a page table that is already there, or already mapped to
  that frame below entry 1 (`AloneExact`); the pages that appear besides are closed to user mode (`RunningStep`). The
  first NEW_PAGE after the first process is below entry 1, and GROWS_DOWN below entry 0 (`FirstRequests`).
- exit(0) keeps the queue dense if and only if that task is queued behind the shell (`ExitExact`); exec keeps every pid in
  one place if and only if the forked child was never queued (`ExecExact`); a task that runs from its queue slot hands
  over to its live parent if and only if its successor in the queue has the same parent (`ExitFromSlot`).
- A queued task that runs commands (fork, exec, and the child's exit(0)) is current again after each of them, with the
  queue as it was (`Commands`); but a command that has run a command itself does not return to its parent
  (`NestedCommand`).
- Timer ticks from a queued task without a live parent alternate between two tasks for ever (`TicksAlternate`).
- The loader rewinds the read buffer of an aborted load instead of emptying it (`LoadConf`), and a line of blanks is
  judged by the byte behind it (`BlankLines`): a syntax error is thrown exactly for what is not in the grammar, and for
  blanks before a letter (`RejectsExactly`).
- `file_exists` looks for the second header right behind the first, whatever the first member's size. It searches the
  members behind the first if and only if the first is empty, or is the only one and begins with a zero byte
  (`FindsExactly`). In any memory its answer is 999, or a place behind a header of that name and not 0 or 999
  (`AnswerIsClear`).
- `init_tarfs` writes inside its table of 100 entries if and only if there are at most 100 members (`InitTarfs`).
- A granted heap piece lies in the heap page if and only if the heap's end did not wrap round (`GrantedInPage`), and after
  one refusal nothing is granted any more (`Pieces`).

Where the code and its comments disagree, the model follows the code. The grammar in the loader's comments has no `.` or
`-` in names, no bare value that begins with a digit, and only ASCII 32 to 126 between quotes; the code accepts `.` and
`-`, bare values that begin with a digit or `-`, tabs as blanks, and any character between quotes. The stored value of a
quoted text keeps its quotes and loses every backslash, also an escaped one.

## Model

| member | source | states |
|---|---|---|
| `Addressing.RoundDown` | include/sys/k_utils.h:7-11 | the largest page boundary not above the address |
| `Addressing.RoundUp` | include/sys/k_utils.h:13-17 | the smallest page boundary not below the address |
| `Addressing.PathDigits` | sys/paging.c:46-76 | the four offsets are the base-512 digits of the 48-bit page number |
| `Addressing.SharedPrefix` | sys/paging.c:46-76 | two addresses share their first k offsets if and only if their page numbers agree above level k |
| `Words.OffsetBits` | sys/paging.c:46-76 | for every 64-bit word, the shifts and masks of the four offset functions give the offsets used here |
| `Words.PermissionBits` | sys/user_paging.c:122-136 | or-ing permission bits into a frame's address makes the frame's entry |
| `PageTables.EntryFields` | sys/user_paging.c:121-136 | frame, presence and rights are read back from an entry as written |
| `PageInstall.EntryAfterInstall` | sys/user_paging.c:105-137 | after the four entry writes every entry any walk can read is the new one on the mapped path and the old one everywhere else, whichever tables were new |
| `PageInstall.ResolveAfterInstall` | sys/user_paging.c:105-137 | every walk off the mapped path ends where it ended, the mapped one in the given frame |
| `PageInstall.TreeAfterInstall` | sys/user_paging.c:105-137 | distinct paths still lead to distinct tables, and entries are zero or present with known permissions |
| `PageInstall.GrantsAfterInstall` | sys/user_paging.c:105-137 | the exact rights of every page afterwards: shared entries grant what the new permissions grant |
| `PageInstall.FoundTable` | sys/user_paging.c:177-226 | in a tree, a nonzero entry leads to the next table on the path, and zero means there is none |
| `PageInstall.FreshTable` | sys/user_paging.c:177-226 | a zeroed page above the tree can become the missing table without any walk noticing |
| `PageView.UserFrames` | sys/user_paging.c:70-90 | the k-th frame handed out, in closed form round the 4096 user frames |
| `PageView.UserFramesDistinct` | sys/user_paging.c:70-90 | any 4096 consecutive frames are distinct and the next one is the first again |
| `PageView.InstalledPage` | sys/user_paging.c:105-137 | for every page of the address space: the mapped one has the new frame, every other keeps its frame or absence, rights move as described |
| `PageLookup.TablesOnPath` | sys/user_paging.c:177-226 | in a tree the three look-ups find the tables on the path, allocate exactly the missing ones, and no walk notices |
| `PageLookup.MappedInTree` | sys/user_paging.c:365-388 | a one-page request whose page has the tables of its address maps exactly that page and adds tables only for it |
| `PageLookup.RequestInTree` | sys/user_paging.c:365-388 | the same, with the cursors, as a step of the pager |
| `PageBoundary.NewBranch` | sys/user_paging.c:389-412 | if the address lacks the table at which the paths part: every other page below that point of the page's path is unmapped, all else is kept, and the tree too |
| `PageBoundary.SharedBranch` | sys/user_paging.c:389-412 | if it has that table: the table is then reached by two paths, the page at the same place below the address changes as well, and there is no tree any more |
| `PageBoundary.StrayExact` | sys/user_paging.c:340-344 | a page mapped through another address's tables is mapped alone and in a tree if and only if that table is missing and nothing else is mapped there |
| `PageBoundary.BehindTableEnd` | sys/user_paging.c:340-344 | a request that has mapped a page and goes on behind the end of its page table never keeps the tree |
| `PageBoundary.GrowsDownExact` | sys/user_paging.c:389-412 | for every address: GROWS_DOWN is exact if and only if the address is not at the beginning of a page table, or the same condition holds |
| `UserAddresses.CursorsAfter` | sys/user_paging.c:48-103 | where the address and PML4 cursors stand after any run of requests |
| `UserAddresses.PageInRun` | sys/user_paging.c:365-412 | which page the k-th request of a run maps, and its PML4 slot |
| `UserAddresses.CursorCircle` | sys/user_paging.c:48-68 | the address cursor goes up page by page to the last one below the kernel's base address, and from there to START_VADDR_FOR_USRS |
| `UserAddresses.PagesOfRun` | sys/user_paging.c:365-412 | the pages of a run are pairwise distinct if and only if no wrapped NEW_PAGE is directly followed by a GROWS_DOWN; none is in the kernel's slot 511 |
| `UserAddresses.FewNewPages` | include/sys/process.h:15-17 | with at most 510 NEW_PAGE requests from offset 0 there is no such pair |
| `UserAddresses.BoundIsSharp` | include/sys/process.h:15-17 | 511 NEW_PAGE requests and a GROWS_DOWN map one page twice |
| `Regions.RegionTouches` | sys/process.c:59-69 | the pages of a region are exactly those that hold a byte of it |
| `Regions.RegionCount` | sys/process.c:64-69 | the 32-bit size and its odd remainder term count the pages of the widened region |
| `Regions.RegionStep` | sys/process.c:71-74 | the i-th call maps the i-th page and needs only the tables newly entered, across every table boundary |
| `Regions.RegionBytes` | sys/process.c:59-76 | every byte of the region translates, writable and in user mode, to its page's frame |
| `Regions.RegionFrames` | sys/process.c:59-76 | its pages share no frame if and only if there are at most 4096 |
| `KernelPaging.Kernel.PageAlloc` | sys/paging.c:78-97 | hands out the frame at the cursor, zeroed, moves the cursor by one and changes no other frame, anywhere in memory |
| `KernelPaging.Kernel.Kmalloc` | sys/paging.c:99-141 | hands out as many zeroed frames in a row as the size needs, changes no other frame, and keeps the tree and every walk |
| `KernelPaging.Kernel.NextTable` | sys/user_paging.c:177-226 | in any state: a nonzero word names the next table, else the frame at the cursor is cleared and taken |
| `KernelPaging.Kernel.TablesFor` | sys/user_paging.c:333-338 | in any state: memory, cursor and tables are those of the three look-ups |
| `KernelPaging.Kernel.GetUserPhysAddr` | sys/user_paging.c:70-90 | hands out the current user frame and moves on in the circle |
| `KernelPaging.Kernel.WriteEntries` | sys/user_paging.c:105-137 | the four writes through pointers are the installation on values |
| `KernelPaging.Kernel.AddUserPage` | sys/user_paging.c:105-137 | maps one page to the next user frame, keeps the tree, changes no other page's frame |
| `KernelPaging.Kernel.AddPages` | sys/user_paging.c:340-344 | the same for consecutive pages of one page table |
| `KernelPaging.Kernel.MapOne` | sys/user_paging.c:378-387 | in any state: memory and cursors are those of a one-page request |
| `KernelPaging.Kernel.MemmapNotPresent` | sys/user_paging.c:300-345 | ACCESSED_NOT_PRESENT maps exactly the pages asked for, to consecutive user frames, whichever tables were missing; keeps the tree, the rights as described, and counts its allocations |
| `KernelPaging.Kernel.GetUserVirtAddr` | sys/user_paging.c:48-68 | hands out the cursor and advances it |
| `KernelPaging.Kernel.IncrementPml` | sys/user_paging.c:92-103 | the next PML4 offset, round 511 slots |
| `KernelPaging.Kernel.MemmapOnePage` | sys/user_paging.c:329-345 | in any state: ACCESSED_NOT_PRESENT for one page is a one-page request for the page of the address |
| `KernelPaging.Kernel.MemmapSetCowRw` | sys/user_paging.c:346-356 | in any state: SET_COW_RW is a one-page request for the page at the address cursor, which moves on; the address given is not used |
| `KernelPaging.Kernel.MemmapNewPage` | sys/user_paging.c:365-388 | in any state: the request is for the address of the run, and the cursors move by one step of the run |
| `KernelPaging.Kernel.MemmapGrowsDown` | sys/user_paging.c:389-412 | in any state, also at the beginning of a page table: the request is for the page below the cursor through the tables of the cursor |
| `KernelPaging.Kernel.NewPageInTree` | sys/user_paging.c:365-388 | below an entry of the tree NEW_PAGE maps exactly one page more and keeps the tree |
| `KernelPaging.Kernel.GrowsDownInTree` | sys/user_paging.c:389-412 | so does GROWS_DOWN, but at the beginning of a page table |
| `KernelPaging.Kernel.RegionSize` | sys/process.c:64-69 | the code's page count is the number of pages the region touches |
| `KernelPaging.Kernel.AllocateRegions` | sys/process.c:59-76 | exactly the pages the region touches get consecutive user frames, open to user mode; no other page changes its frame or loses a right; the tree is kept across all table boundaries |
| `PagingRuns.UserPagesAreNoTables` | sys/user_paging.c:119-137 | in every state that keeps the invariant, no page of the tree open to user mode is mapped to a page table, in the tree or outside |
| `PagingRuns.RunKeepsItsPages` | sys/user_paging.c:365-412 | steps that each map exactly one of some distinct pages end with all of them mapped to the frames they were given, and no other page changed |
| `PagingRuns.RunOfCalls` | sys/user_paging.c:365-412 | if each call maps exactly its page and no NEW_PAGE clashes with the GROWS_DOWN behind it, all pages of the run are distinct and mapped in the end, and no other page has changed |
| `PagingRuns.ServeAll` | sys/user_paging.c:365-412 | the kernel's calls do map exactly their pages: any run from a state with the invariant and room, without a GROWS_DOWN at the beginning of a page table, ends with the invariant and adds tables only for its pages |
| `PagingRuns.RunCalls` | sys/user_paging.c:365-412 | such a run of the kernel without a clash ends with all its pages mapped to the frames they were given, none in the kernel's slot, and no other page changed |
| `PagingRuns.FreshRoot` | sys/paging.c:78-97 | a freshly allocated PML4 table is a tree with no page mapped |
| `Boot.SetPages` | sys/paging.c:389-414 | links all pages in order, clears the mark of every page but the last, and changes no other word |
| `Boot.GetPage` | sys/paging.c:143-153 | takes the first page off the list, sets its mark, and changes nothing else |
| `Boot.MapRegion` | sys/paging.c:276-294 | fills one page table one to one and links it, for any 2-MByte region; every other word is unchanged |
| `Boot.MapDirect` | sys/paging.c:259-295 | maps one region of the direct map and keeps all the others |
| `Boot.SetEndAddr` | sys/paging.c:209-257 | adds the next region to those already mapped, and takes one page off the list |
| `Boot.TakeTables` | sys/paging.c:317-325 | the tables are consecutive pages of the list |
| `Boot.SetKpageTables` | sys/paging.c:297-360 | all 49 regions are mapped, from memory with arbitrary contents, and 98 pages have left the list |
| `Boot.DirectMap` | sys/paging.c:297-360 | then every byte below 49 regions translates from VIRT_BASE to itself, for the kernel only |
| `Boot.SetKernelPages` | sys/paging.c:362-374 | the direct map is exact; what the upper tables held before stays in them, with the marks |
| `Boot.SetNewKpts` | sys/user_paging.c:139-175 | for any 2-MByte start, 512 pages translate one to one, for the kernel only |
| `BootTree.BootTables` | sys/paging.c:297-374 | all tables reached from the boot PML4 table are below entries 0 and 511 |
| `BootTree.BootIsTree` | sys/paging.c:297-374 | below entries 2 to 510 they form a tree |
| `BootTree.SetFreeList` | sys/paging.c:416-443 | from clear pages, boot establishes the paging invariant below entries 2 to 510, with the exact direct map |
| `BootTree.DirectMapKept` | sys/user_paging.c:105-137 | mapping a user page keeps the direct map |
| `BootTree.MapAfterBoot` | sys/user_paging.c:300-345 | after boot, a page below entries 2 to 510 is mapped exactly, with the direct map and the invariant kept |
| `BootTree.SlotOne` | sys/user_paging.c:211-226 | right after boot, a page asked for below entry 1 appears a second time below the kernel's entry 511, and every page of the direct map but the one written appears below entry 1 |
| `BootTree.SlotZero` | sys/user_paging.c:211-226 | right after boot, below entry 0 the page table of the page appears as a page below the kernel's entry 511 |
| `BootTree.BootExact` | sys/user_paging.c:211-226 | the first user page after boot is mapped alone if and only if it is not below entries 0 and 1 |
| `BootTree.FirstRequests` | sys/user_paging.c:92-103 | the first NEW_PAGE after the first process is below entry 1, and GROWS_DOWN below entry 0 |
| `BootNormal.BootRunning` | sys/paging.c:416-443 | what set_free_list leaves satisfies the invariant of runs below all 511 user entries, with no page mapped for users |
| `BootNormal.RequestCommutes` | sys/user_paging.c:177-226 | in every state with that invariant, a request to the real tables is the same request to the tree without the kernel's words, with the same cursors |
| `BootNormal.KernelStays` | sys/user_paging.c:105-137 | a user request writes none of the words of the direct map and none of the stray ones |
| `UserView.UserSeesTree` | sys/user_paging.c:105-137 | user mode sees, page by page, exactly what that tree maps, and can write it; below the kernel's words it sees nothing |
| `UserView.RunningStep` | sys/user_paging.c:365-388 | in every state reached from boot, a request maps exactly its page for user mode, for kernel walks too but for the kernel's words, and keeps the invariant |
| `BootAliases.BelowKernel` | sys/user_paging.c:211-226 | where kernel walks below entry 511 run through the user's tables, and which walk of the tree each of them is |
| `BootAliases.TablesBelowCursor` | sys/paging.c:78-97 | every table that any walk reaches, the kernel's included, lies below the allocator's cursor |
| `BootAliases.NoTableForUsers` | sys/user_paging.c:119-137 | in every state reached from boot, every page that user mode sees is a user frame and none is a page table of any walk |
| `BootAliases.AloneExact` | sys/user_paging.c:211-226 | in every state reached from boot, a user page is mapped alone in the whole address space if and only if it is below entries 2 to 510, or below entry 0 with its page table present, or below entry 1 and already mapped to that frame |
| `BootRuns.ServeRegion` | sys/process.c:59-76 | allocate_regions on the boot tables maps the pages of the region for user mode, one after the other |
| `BootRuns.ServeOrders` | sys/user_paging.c:329-412 | GROWS_DOWN, NEW_PAGE, SET_COW_RW, regions and clearing of dif_ctxt, any number in any order, from any state reached from boot: user mode sees what it saw, and over it every page asked for in the frame it was given last; tables appear for those pages only |
| `FromBoot.RunFromBoot` | sys/paging.c:416-443 | set_free_list and then any such run: user mode sees a page if and only if it was asked for, the invariant holds and the direct map is exact |
| `FromBoot.RunCallsFromBoot` | sys/user_paging.c:365-412 | from boot, any run that begins as init_usr_pcb does, with at most 510 NEW_PAGE, and GROWS_DOWN not at the beginning of a page table: its pages are distinct, user mode sees each in the frame of its turn, and nothing else |
| `FromBoot.StrayOnBootTables` | sys/user_paging.c:389-412 | in every state reached from boot: exactly when a page can be mapped through the tables of an address that does not share its page table |
| `FromBoot.GrowsDownOnBootTables` | sys/user_paging.c:389-412 | in every state reached from boot: GROWS_DOWN maps exactly its page and leaves a tree if and only if the address is not at the beginning of a page table, or the same condition holds |
| `FromBoot.BranchLost` | sys/user_paging.c:389-412 | in every state reached from boot: where the condition's table is missing, user mode loses every other page there |
| `FromBoot.GrowsDownTooFar` | sys/user_paging.c:389-412 | from boot, with the initial cursor and any dif_ctxt, 400 GROWS_DOWN map 400 pages for user mode and the next one unmaps all of them |
| `Allocation.GetPages` | sys/paging.c:143-153 | any number of get_page calls gives consecutive pages, of which only the marks change |
| `Allocation.ServeAll` | sys/paging.c:78-141 | any sequence of page_alloc and kmalloc calls gives one block behind the other from the cursor on, zeroed, with every other frame kept |
| `Allocation.AllocateAll` | sys/paging.c:78-153 | get_page calls and then any such sequence, across the switch from the list to the cursor: listed pages lie below all blocks, blocks do not overlap, and the exact memory afterwards |
| `ProcessRuns.BootInv` | sys/pcb_init.c:20-54 | the first process starts the table in the invariant |
| `ProcessRuns.ForkInv` | sys/process.c:233-252 | fork keeps the invariant |
| `ProcessRuns.ExecInv` | sys/process.c:165-225 | exec of a fresh child keeps it, with the child's pid queued |
| `ProcessRuns.ExitRemoves` | sys/process.c:326-373 | exit(0) takes exactly the current pid out, keeps the order of the rest, and leaves that task in its zombie slot |
| `ProcessRuns.LiveAfter` | sys/process.c:336-356 | that pid and no other stops being live |
| `ProcessRuns.ExitInv` | sys/process.c:326-385 | exit(0) of a task queued behind the shell keeps the invariant |
| `ProcessRuns.TickInv` | sys/scheduler.c:5-54 | so does a timer tick |
| `ProcessRuns.RunInv` | sys/process.c:165-385 | every state of every run: a dense queue with growing pids then zero slots, every pid ever queued in exactly one of queue and zombie slot, parents older than children |
| `ProcessRuns.CurrentPid` | sys/process.c:250-252 | the current task's pid is one that was given, and its parent is older |
| `ProcessRuns.ExitExact` | sys/process.c:336-356 | exit(0) keeps the queue dense if and only if that task is queued behind the shell |
| `ProcessRuns.ExecExact` | sys/process.c:165-225 | exec keeps the invariant if and only if the child was never queued |
| `ProcessRuns.ExitFromBlock` | sys/process.c:375-385 | a task that runs from its own block hands over to its parent if and only if that is live |
| `ProcessRuns.ExitFromSlot` | sys/process.c:349-385 | a task that runs from its slot hands over to its live parent if and only if its successor has the same parent |
| `ProcessRuns.TickChoice` | sys/scheduler.c:5-54 | a tick goes to the live parent, else to the lowest live child, else nowhere, and changes nothing else |
| `ProcessRuns.TicksAlternate` | sys/scheduler.c:5-54 | any number of ticks alternates between a task without live parent and its first child |
| `ProcessRuns.ExitBlocks` | sys/process.c:330-334 | of all task blocks exit(0) changes the exiting task's own, to a zombie, and no other |
| `ProcessRuns.ForkChild` | sys/process.c:233-254 | the child's parent is the forker, its pid is the next one, and the queue and the current task are as before |
| `ProcessRuns.ExecRuns` | sys/process.c:165-226 | after exec the forked child is current, and its pid is the one that has become live |
| `ProcessRuns.ExecExit` | sys/process.c:165-385 | exit(0) right after exec takes out that pid, leaves the queue as before exec, and returns to the child's parent if it is in the queue |
| `ProcessRuns.ForkExecExit` | sys/process.c:165-385 | fork, exec and exit(0) undo each other: the same queue, and the forker current again |
| `ProcessRuns.Commands` | sys/process.c:165-385 | any number of commands, one after the other: the same queue and current task after each, one more zombie each |
| `ProcessRuns.NestedCommand` | sys/process.c:349-385 | a command that has run a command itself does not return to its parent |
| `ProcessTable.Table.constructor` | sys/process.c:14-20 | the queues and the first process are the boot state |
| `ProcessTable.Table.ForkProcess` | sys/process.c:233-254 | is the fork step: the new block is a child of the current task, under the next pid, which is returned |
| `ProcessTable.Table.AddToReadyListUser` | sys/process_helpers.c:52-67 | stores the block in the last counted slot, and makes the first task current |
| `ProcessTable.Table.Exec` | sys/process.c:165-225 | is the exec step: the child is behind the last task, and current |
| `ProcessTable.Table.ExitProcess` | sys/process.c:326-385 | is the exit step |
| `ProcessTable.Table.LeaveQueue` | sys/process.c:331-373 | is its first part: copied to the zombie slot, out of the queue |
| `ProcessTable.Table.FindBehindShell` | sys/process.c:339-347 | the first slot behind the shell with the pid, up to and including the slot behind the last task |
| `ProcessTable.Table.ShiftDown` | sys/process.c:349-356 | every later slot moves down by one, the others stay |
| `ProcessTable.Table.AdoptParent` | sys/process.c:375-385 | makes the parent of what the pointer now shows current, if it is in the queue |
| `ProcessTable.Table.ScanForParent` | sys/scheduler.c:9-21 | the circular scan ends, and finds the parent if and only if some live slot holds it |
| `ProcessTable.Table.ScanForChild` | sys/scheduler.c:22-28 | the lowest child, stopped by the zero slot behind the last task |
| `ProcessTable.Table.UsrSchedule` | sys/scheduler.c:5-54 | is the tick step, for more than one process as the timer calls it |
| `Vma.CopyOne` | sys/process.c:283-302 | one pass of the loop extends a faithful copy of n areas to one of n + 1 |
| `Vma.AreaPages.MallocVma` | sys/process.c:22-56 | the new node is the first slot of a new page, or the slot behind the last node, linked in |
| `Vma.AreaPages.CloneAreas` | sys/process.c:281-302 | the child has the parent's areas in order in consecutive slots of its own page, with the right count; the parent's list and all else is unchanged |
| `Heap.HeapVma.Malloc` | sys/process.c:480-495 | answers as the run of all requests so far says, refused ones included |
| `Heap.Granted` | sys/process.c:480-495 | a request is granted if and only if all that was asked for so far fits in the page |
| `Heap.Pieces` | sys/process.c:480-495 | granted pieces lie one directly behind the other in the page, and nothing is granted after a refusal |
| `Heap.FirstPiece` | sys/process.c:480-495 | the first piece begins at the start of the heap, and is granted if and only if it is at most a page |
| `Heap.GrantedInPage` | sys/process.c:480-495 | with wrap-round, a granted piece is in the page if and only if the end did not wrap |
| `Numerals.NumeralDenotes` | sys/k_utils.c:3-42 | a numeral stands for its number and has no leading zero |
| `Numerals.DigitsReversed` | sys/k_utils.c:35-40 | the digits as produced, reversed, are the numeral |
| `Numerals.TableDigit` | sys/k_utils.c:26-29 | the mirrored character table gives the digit of a negative remainder too |
| `Numerals.Itoa` | sys/k_utils.c:3-42 | for every 32-bit value and base 2 to 36: sign for negative decimals, numeral, terminator, nothing else written; the empty string for other bases |
| `Numerals.WriteDigits` | sys/k_utils.c:24-30 | the division loop writes the digits, least significant first |
| `Numerals.ReverseIn` | sys/k_utils.c:35-40 | reverses the stretch in place and leaves the rest |
| `Numerals.Stoi` | sys/k_utils.c:44-58 | the value of the digits at the start, at most twelve |
| `Numerals.Oct2Dec` | sys/k_utils.c:73-88 | decimal digits read as octal ones; never more than its argument, so it cannot overflow |
| `Numerals.OctalField` | sys/k_utils.c:44-88 | reading an octal field as decimal and converting gives its octal value |
| `Numerals.SignedText` | sys/k_utils.c:15-22 | the text begins with a sign if and only if it is of a negative number in base 10, and goes on as the opposite number |
| `Numerals.DigitTable` | sys/k_utils.c:26-29 | the digits in order are 0 to 9 and a to z |
| `Numerals.RoundTrip` | sys/k_utils.c:3-58 | for every int: stoi, behind an optional sign, reads back what itoa wrote in base 10 |
| `Tarfs.Kstrlen` | sys/lib_ops_for_kern.c:87-101 | zero for the empty string, one more than the length for every other |
| `Tarfs.Kstrcmp` | sys/lib_ops_for_kern.c:51-66 | zero if and only if the strings are equal |
| `Tarfs.Padded` | sys/walk_tarfs.c:173-180 | the least number of whole blocks that holds the content |
| `Tarfs.StepPads` | sys/walk_tarfs.c:173-180 | both step branches are a block plus the content padded to blocks |
| `Tarfs.InitTarfs` | sys/walk_tarfs.c:143-188 | inverts the archive layout: records every member's size and header address, in order, and ends; all writes are inside the table if and only if there are at most 100 members |
| `TarLayout.LaidOut` | include/sys/tarfs.h:17-35 | every list of members whose names and sizes fit a header has an archive, so the walk's answer for it is that list |
| `Tarfs.FileExists` | sys/walk_tarfs.c:53-87 | 0 for an empty archive, else what probing from the second block on comes to: 999, or the place behind a header of that name, which is never 0 or 999 |
| `Tarfs.Search` | sys/walk_tarfs.c:53-87 | the data offset of the first member of that name, or 999 if there is none |
| `Tarfs.FindsMembers` | sys/walk_tarfs.c:53-87 | if the first member is empty, file_exists is that search of the members behind it |
| `Tarfs.AnswerIsClear` | sys/walk_tarfs.c:53-87 | for every memory: an answer is 999, or a multiple of 512 from 1024 on behind a header with the name asked for |
| `Tarfs.HitIsNoSentinel` | sys/process.c:85-90 | for every archive: 999 if and only if no member behind the first has the name, else a multiple of 512 from 1024 on |
| `Tarfs.BlindArchive` | sys/walk_tarfs.c:53-87 | if the first content begins with a zero byte, no file is ever found |
| `Tarfs.FoundInContent` | sys/walk_tarfs.c:53-87 | if it begins with any other byte, the bytes there are found as a file |
| `Tarfs.FindsExactly` | sys/walk_tarfs.c:53-87 | for every archive: file_exists searches the members behind the first if and only if the first is empty, or is the only one and begins with a zero byte |
| `Tarfs.Readfile` | sys/tarfs_ops.c:215-262 | copies as many bytes of the member's content as asked for and present, then a terminator, and returns the number; a negative size does nothing |
| `ConfLines.SplitJoin` | rootfs/boot/support.4th:307-323 | the lines of a file hold no LF and give the file when joined with LFs |
| `ConfLines.NonEmptyLines` | rootfs/boot/support.4th:295-305 | what is left of lines is not empty, and nothing else is left out |
| `LineReader.Reader.SkipNewlines` | rootfs/boot/support.4th:295-305 | loses no line that holds anything |
| `LineReader.Reader.ScanBuffer` | rootfs/boot/support.4th:307-323 | takes what the buffer holds of the current line, no more and no less |
| `LineReader.Reader.ReadFromBuffer` | rootfs/boot/support.4th:345-349 | moves it to the line, in order |
| `LineReader.Reader.RefillBuffer` | rootfs/boot/support.4th:356-366 | loses nothing, and reports the end of the file if and only if there is nothing more |
| `LineReader.Reader.ReadLine` | rootfs/boot/support.4th:374-383 | delivers the next line; what holds anything is neither lost nor made up, for every way of chopping the file |
| `LineReader.Reader.AllLines` | rootfs/boot/support.4th:783-794 | the lines delivered to the end that hold anything are the file split at LF without empty lines |
| `LineReader.Reader.LoadConf` | rootfs/boot/support.4th:813-822 | the same for a load, with what an aborted load left in the buffer in front; a completed load leaves it empty |
| `ConfProofs.ParsePrinted` | rootfs/boot/support.4th:387-393 | the parser recovers name and value from every printed line of the grammar, whatever the blanks, comment and backslashes |
| `ConfProofs.ParsedIsPrinted` | rootfs/boot/support.4th:527-584 | every line accepted as an assignment is a printed one of that name and value |
| `ConfProofs.AcceptsExactly` | rootfs/boot/support.4th:387-584 | the two together, as an if and only if |
| `ConfProofs.NothingExactly` | rootfs/boot/support.4th:388-389 | a line is taken for no assignment if and only if it is blanks and possibly a comment, and not blanks before a letter |
| `ConfProofs.RejectsExactly` | rootfs/boot/support.4th:387-584 | a syntax error is thrown if and only if the line is in neither half of the grammar, or is blanks before a letter |
| `ConfProofs.TextRoundTrip` | rootfs/boot/support.4th:474-507 | every text, its quotes and backslashes escaped, is stored between quotes without its backslashes; unchanged if it has none |
| `ConfProofs.BareRoundTrip` | rootfs/boot/support.4th:509-521 | a bare value is stored as written |
| `ConfProofs.NoBackslashes` | rootfs/boot/support.4th:474-488 | what remove_backslashes leaves holds none, and a text without any is left as it is |
| `ConfProofs.RemoveConcat` | rootfs/boot/support.4th:474-488 | it works piece by piece |
| `ConfProofs.Classes` | rootfs/boot/support.4th:417-448 | the character classes, as sets of characters |
| `ConfProofs.BlankLines` | rootfs/boot/support.4th:562-584 | the byte behind the line matters for lines of blanks only, and how |
| `ConfParser.Parser.EatSpaces` | rootfs/boot/support.4th:455-461 | stops at the first character that is no blank, or at the end |
| `ConfParser.Parser.ParseName` | rootfs/boot/support.4th:463-472 | takes the longest stretch of name characters |
| `ConfParser.Parser.ParseQuote` | rootfs/boot/support.4th:490-507 | takes the text up to the closing quote without its backslashes, or fails if and only if there is none |
| `ConfParser.DropBackslashes` | rootfs/boot/support.4th:474-488 | the text without backslashes, in order, and unchanged if it has none |
| `ConfParser.Parser.Execute` | rootfs/boot/support.4th:523-567 | every word keeps the outcome of the line, and moves the pointer or lowers the rank of the state |
| `ConfParser.GetAssignment` | rootfs/boot/support.4th:571-584 | the state loop ends on every line, with the outcome of the line |
| `ConfParser.ProcessLine` | rootfs/boot/support.4th:783-794 | one delivered line adds its assignment, nothing, or the error, to what the file comes to |
| `ConfParser.ProcessConf` | rootfs/boot/support.4th:783-794 | however the file is chopped, its assignments are those of its lines in order, up to the first line in error, for every byte behind each line |
| `ConfParser.BytesBehind` | rootfs/boot/support.4th:562-584 | without lines of blanks, those bytes do not matter |
| `ConfParser.LoadsExactly` | rootfs/boot/support.4th:783-794 | a file is loaded to its end if and only if no line of it is in error |
| `ConfParser.StopsAtError` | rootfs/boot/support.4th:783-794 | the first line in error ends the load: the assignments before it stay, whatever follows |
| `ConfParser.FileRoundTrip` | rootfs/boot/support.4th:387-393 | a file of printed assignments, comments, blank and empty lines comes back as those assignments, in order |

## Left out

- KernelPaging.Kernel.PageAlloc: memory does not run out here; the source has no path for that, so the number of free pages is a precondition, as in every member that allocates.
- KernelPaging.Kernel.Kmalloc: a size of zero is excluded; the source's 32-bit page count goes below zero there and it allocates four billion pages.
- KernelPaging.Kernel.MemmapNotPresent: the pages lie in one page table, because the code looks its tables up once; `BehindTableEnd` shows that the tree is lost otherwise.
- KernelPaging.Kernel.GrowsDownInTree: below an entry of the tree, and not at the beginning of a page table; `GrowsDownExact` says exactly what happens there.
- KernelPaging.Kernel.AllocateRegions: below an entry of the tree (for the boot tables see `BootRuns.ServeRegion`), and regions of at most 2 GiB, where the code's `int` products do not overflow.
- PagingRuns.ServeAll: runs without a GROWS_DOWN at the beginning of a page table, below entries of the tree; for the boot tables see `BootRuns.ServeOrders`.
- PagingRuns.RunCalls: as ServeAll; for runs from boot see `FromBoot.RunCallsFromBoot`.
- PagingRuns.UserPagesAreNoTables: pages below entries of the tree; for the boot tables see `BootAliases.NoTableForUsers`.
- KernelPaging.Kernel.NewPageInTree: below an entry of the tree; for the boot tables see `UserView.RunningStep`.
- BootTree.MapAfterBoot: entries 2 to 510, where the page is mapped alone; for the others see `AloneExact` and `RunningStep`.
- BootRuns.ServeOrders: requests with USR_PERM_BITS, not below entry 1 at its page directories 0, 1 and 510, where the words are the kernel's; no GROWS_DOWN at the beginning of a page table, for which see `GrowsDownOnBootTables`; three frames for tables are free per page.
- BootTree.SetFreeList: frame 0 and the first pages of the list are clear before boot; what other contents lead to is not modelled.
- ProcessTable.Table.constructor: init_usr_pcb for the first process only; later calls are not modelled.
- ProcessTable.Table.ExitProcess: exit statuses and the list of zombie pids are not modelled; state 0 only.
- Vma.AreaPages.CloneAreas: lists of at most 56 areas, which is what the one page of a list holds; the fields vm_mm and grows_down, which are not copied, are not modelled.
- Heap.HeapVma.Malloc: the zero word it stores at the old end of the heap is not modelled.
- Heap.Granted: totals below 2^64; beyond that `GrantedInPage` says when a granted piece is in the page.
- Numerals.Itoa: the 71-character table is given by its rule instead of as a literal.
- Tarfs.InitTarfs: names, type flags and parent indices of the entries are not recorded, because the path tokenizer changes the names while they are stored.
- Tarfs.FileExists: the walk must stay inside the archive's memory; where it leaves it, the source reads what is there.
- Tarfs.Readfile: the branch that reads the keyboard is not modelled.
- LineReader.Reader.RefillBuffer: a failing fread is not modelled, nor is a failing allocation of the line buffer.
- The context-switch branch of memmap, which no caller takes and which links kernel tables into user slots, and RW_TO_COW, change_permissions (which leaves upper entries without the present bit), set_kernel_page_user and the page-fault handler's edits.
- The array freelist and its counter, and the globals that cache the last user tables.
- ELF loading, exec's arguments, kernel stacks, fork's reload of bytes, and the child's heap address.
- kill_process, nonzero exit, syswaitpid, sleeping, move_to_next_pcb and the kernel threads' list.
- kstrtok, kstrcat, kstrncmp, directory entries, and opening files by name.
- What the loader does with an assignment once parsed, peek_file, module loading and the environment.
- Inline assembly, TLB and CR3 loads, interrupts, ports, disk, keyboard and console, and user programs.
