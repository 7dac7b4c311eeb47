# vijosos, modelled and verified in Dafny

vijosos is a small RISC-V kernel that judges programs: it downloads an ELF file and its input by
TFTP, builds an Sv39 address space for it, runs it, accounts its memory and uploads its output.
This project models five of its parts and proves properties of the model.

**Pages, page tables and the judge's address space.** `Bits`, `PageAllocator` and `Mm` are the
bitmap allocator. `Sv39` and `PageTable` are page-table entries as bits of a number, and the
three-level tree that is stored in the same physical memory it maps; `AddressSpace` has the
operations of `vm.c` as functions on memory and allocator, with the invariant that every frame of
the tree is reached by one path and taken, and `ViewOf`, the address space as user code sees it.
`CopyIn` and `Vm` are `map_and_copy`, and `MapSequence` is any sequence of calls on any number of
tables. `ElfImage`, `ElfLoad` and `Elf` are the loader, and `ElfFile` says what it does with a file
whose structures are given byte by byte; `JudgeLayout`, `JudgeBuild` and `Judge` are the regions and
the initial stack, and `JudgeArguments` says what the words on it mean; `Budget` and `JudgeBudget`
say how much memory suffices; `CountPt`, `ElfCount` and `JudgeMemory` are the memory accounting;
`Trap`, `UserRun`, `UserProgram` and `TrapHandler` the page faults that set A and D bits, in any run
of a program that fetches, loads and stores and goes by what it has read; `JudgeOutput`,
`JudgeUpload` and `JudgeRequest` the way back. `Isolation` and `JudgeIsolation` show that what lies
in free frames never matters, and `JudgeService` draws the conclusion for any sequence of requests:
no program can learn from memory what an earlier one did. `Errors` has the error codes.

**TFTP.** `TftpRead` and `TftpWrite` are the two loops of `tftp.c`, as machines fed with what
`recv_udp` returns; `TftpReadNet` and `TftpWriteNet` put them against an RFC 1350 server (one session
for every request that arrives, each with its own port) over a network that keeps every packet ever
sent and may deliver it never, late, or many times. The theorems are about all runs. The two
`...Progress` modules show that no run gets stuck, and the two `...Loss` modules that none does when
packets are lost for good and have to be sent again.

**Scheduler.** `Tasks` and `Scheduler` are `task.c` as a state machine whose steps are the points
where a task gives up the processor; the variables of a waiting `recv_udp` are a frame that exists
only during the call. `SchedulerSafety` has the invariant, `SchedulerHistory` what the calls of a run
come to in terms of their arguments, `RoundRobin` the fairness bound, `TaskTable` the loops over the
task table.

**Checksums and datagrams.** `Checksum` relates the little-endian 32-bit sums of `ip.h` to RFC 1071,
`ChecksumFields` is about storing, checking and updating checksum fields (RFC 1624), `Icmp` about
echo replies, `Udp` and `UdpFrame` about the way of a datagram through `send_udp` and `handle_ipv4`,
`UdpDelivery` about its arrival in a waiting task.

**Integer output.** `Ntoa` and `NtoaParse` are `_ntoa_long` and `_atoi`.

Code that works in place is modelled in place: classes with fields and arrays, loops with
invariants, each method proved against a function on values. What the source promises is proved
about those functions. `dafny verify dfyconfig.toml` checks everything.

Seven places where the code does something its purpose does not call for came out of the proofs and
are stated exactly:

- `count_pt` does not look at R, W and X of a leaf, so it also counts entries the hardware rejects
  (`CountPt.CountIsSv39`), for instance the pages of a segment without permissions;
  `JudgeMemory.MemoryUseIsTranslated` has the condition on the program headers.
- A program finds its whole program header table behind AT_PHDR exactly when the table lies in the
  first page of the file, the only one that is copied (`JudgeArguments.TableIsRead`).
- The page-fault handler grants a fetch from a page that is executable and writable but not
  readable, which the hardware never completes: that access faults for ever (`Trap.GrantsAgree`).
- It also takes a non-canonical address for the page that its lower bits name, with the same effect
  (`Trap.AliasNeverCompletes`).
- `tftp_get_file` does not use its buffer length: it stays inside the buffer, whatever the network
  does, exactly when the server's file fits (`TftpReadProgress.StaysInside`); a file of 4 MiB and one
  byte leaves the judge's buffer (`JudgeService.DownloadOverruns`).
- `_ntoa_long` drops the leading digits and the sign for which its 32-byte buffer has no room; the
  text is right exactly under the condition of `Ntoa.PrintedIff`.
- The updated checksum of an ICMPv4 echo reply whose other bytes are all zero is 0 where 0xffff is
  due, and such a reply is rejected (`Icmp.EchoReplyChecksum`).

## Model

| member | source | states |
|---|---|---|
| `Bits.FindZeroIsLowestClear` | include/utils.h:14-26 | for every 64-bit word but all-ones the five masks locate a bit that is clear and below which no bit is clear |
| `Bits.BitsFindZero` | include/utils.h:14-26 | the isolate-and-test code returns that position for every word |
| `Bits.MaskTest` | mm.c:52-53 | testing a word against `1ul << k` is asking for its bit k |
| `Bits.SetBit` | mm.c:55 | or-ing in `1ul << k` sets bit k and leaves the 63 others |
| `Bits.PackSet` | mm.c:55 | on the 64 pages a bitmap word stands for, setting one bit takes exactly one page |
| `Bits.PackTest` | mm.c:52-53 | testing one bit of such a word asks for exactly that page |
| `Bits.FindZeroPack` | mm.c:78-80 | a word differs from `-1ul` exactly when one of its pages is free, and the search finds the first of them |
| `PageAllocator.TakePagesSpec` | mm.c:45-59 | exactly the pages of the range become taken; `used` stays the number of set bits however the range overlaps earlier ones |
| `PageAllocator.AddPagesSpec` | mm.c:27-43 | the gap below the new range is taken, the range itself is free, and earlier pages keep their state |
| `PageAllocator.FullIffAllTaken` | mm.c:70-73 | `used == size` holds exactly when no page is free |
| `PageAllocator.ScanSpec` | mm.c:74-89 | from any `next` the circular scan stops at the first free page in circular order, so it never falls through to the last `return 0` |
| `PageAllocator.GetFreePageSpec` | mm.c:68-90 | 0 exactly when no page is free and then nothing changes; otherwise one free page, the first in circular order, becomes taken, and the counter and `next` stay right |
| `PageAllocator.AllocateSpec` | mm.c:68-90 | any number of allocations returns only pages free at the start, none twice, and 0 only when all are taken |
| `PageAllocator.AllocateAbove` | mm.c:61-66 | and none below available_start, everything under which finish_add_pages has taken (Mm.Allocator.FinishAddPages ensures what this asks for) |
| `PageAllocator.ServeAllSpec` | judge.c:232-234 | over any number of snapshot and restore brackets the allocator ends where it began, and each bracket gets the pages it would have got from the first state; JudgeService.ServeRequests is about whole requests |
| `Mm.Allocator.constructor` | mm.c:20-25 | the bitmap starts empty |
| `Mm.Allocator.TakePages` | mm.c:45-59 | the loop over page numbers, in place, leaves the state the specification function gives |
| `Mm.Allocator.AddPages` | mm.c:27-43 | the new state, or false where the source stops for good |
| `Mm.Allocator.FinishAddPages` | mm.c:61-66 | in numbers: the snapshot is put 24 + size/8 bytes above the bitmap; exactly the pages below the first page boundary from another 24 + size/8 bytes on become taken, page 0 and every page with a byte of the bitmap or of the snapshot among them; nothing else changes |
| `Mm.MetadataNeverHandedOut` | mm.c:61-90 | from then on no page that is handed out, however many are asked for, has a byte of the bitmap or of the snapshot |
| `Mm.Allocator.GetFreePage` | mm.c:68-90 | the loop over words returns and takes the page the specification function gives |
| `Mm.Allocator.TakeSnapshot` | mm.c:92-95 | the saved copy is the current state |
| `Mm.Allocator.RestoreSnapshot` | mm.c:97-100 | the current state is the saved copy, whatever has happened since |
| `Bytes.HighByteLast` | include/elf.h:135-145 | numbers of several bytes have their most significant byte last, as the machine and its files store them |
| `Sv39.MakePteSpec` | arch/riscv/include/mmu.h:73-92 | an entry made for a frame is valid, refers to that frame, is a table exactly above level 0, a leaf holds exactly the flags given, and an inner entry has A and D set |
| `Sv39.TouchSpec` | arch/riscv/trap_handler.c:102 | or-ing A, and D for a store, into an entry changes those flags and neither frame nor kind |
| `Sv39.PteNumber` | arch/riscv/include/mmu.h:32-92 | the entry made for a frame, as a number: 1024 times the frame, and 1, 2, 4, 8, 16, 64 and 128 for V, R, W, X, U, A and D; an inner entry has V, A, D and U only |
| `Sv39.PteFields` | arch/riscv/include/mmu.h:32-49 | any number read as an entry: its flags are those bits, its frame starts at bit 10, and it is a table exactly when its lowest four bits are 0001 |
| `Sv39.TouchNumber` | arch/riscv/trap_handler.c:97-102 | or-ing A, and D for a store, adds 64 and 128 where those bits are clear, and nothing else |
| `Sv39.HoldsAllIsOrder` | vm.c:133 | asking an entry for flags is a partial order with no flags at the bottom |
| `Sv39.VpnDigits` | arch/riscv/include/mmu.h:55 | the three 9-bit indices of an address are the base-512 digits of its page number |
| `Sv39.VpnIsPage` | arch/riscv/include/mmu.h:55 | below 2^39 that page number is the whole address without its offset |
| `PageTable.LinkAddsNode` | vm.c:30-36 | linking a zeroed frame that is nowhere in the tree adds exactly one node and moves no other |
| `AddressSpace.GetPtLevelSpec` | vm.c:28-42 | the table at that entry, created if absent; the tree invariant is kept and no page's translation or contents change; NULL only when memory is exhausted |
| `AddressSpace.GetPteSpec` | vm.c:44-54 | the same for the two levels above the leaf |
| `AddressSpace.MapPageSpec` | vm.c:56-72 | success maps the page zeroed with the flags, or leaves a page already mapped as it is, and changes no other page; failure changes none and means that no page is free |
| `AddressSpace.MapPageAgain` | vm.c:68-71 | remapping a mapped page returns the same frame and changes nothing at all |
| `AddressSpace.CreatePtSpec` | vm.c:11-26 | an empty address space on a frame that was free, everything else unchanged; or NULL, and no page was free |
| `AddressSpace.CreateThenGrow` | vm.c:11-72 | whatever is done with a new table, frames taken before it was made are neither written, nor freed, nor made part of it |
| `MapSequence.CallSpec` | vm.c:11-120 | one call of create_pt, map_page or map_and_copy, as the functions that the methods of Vm.Kernel are proved equal to, keeps every table a tree with frames of its own, also when memory runs out, and has its effect on one table only |
| `MapSequence.CallKeepsPages` | vm.c:11-120 | it leaves every page of every table mapped with its flags |
| `MapSequence.SequenceKeeps` | vm.c:11-120 | over any sequence of calls on any number of tables, succeeding or not: all tables stay trees with frames of their own, and every page stays mapped with its flags |
| `MapSequence.SequenceSeparates` | vm.c:11-120 | after any such sequence each page of each table has a taken frame that is found nowhere else, in that table or another |
| `CopyIn.WriteInv` | vm.c:96 | a store into a data page keeps the whole tree, because data frames and table frames are disjoint |
| `CopyIn.WriteView` | vm.c:96 | and it changes, of everything the user can see, exactly the bytes written in that one page |
| `CopyIn.CopyCompose` | vm.c:85-118 | copying two adjacent pieces is copying their concatenation |
| `CopyIn.CopyStep` | vm.c:87-98 | mapping the page of an address and filling in bytes of that page is a copy of those bytes |
| `CopyIn.CopyUnique` | vm.c:74-120 | the copy relation leaves no freedom: there is one resulting address space |
| `CopyIn.MapAndCopySpec` | vm.c:74-120 | map_and_copy as a function: in every outcome the tree is kept and grows, the bytes that were copied are in place with nothing else changed, and they are all of them unless no page is free; a NULL table gets nothing |
| `CopyIn.MapRangeSpec` | judge.c:93-124 | mapping page after page: exactly the pages of the range are mapped, new ones zeroed, old ones as they were, or no page is free |
| `Budget.MapPageTakes` | vm.c:56-72 | map_page takes at most three frames, and does not fail when three are free |
| `Budget.MapAndCopyTakes` | vm.c:74-120 | map_and_copy succeeds when three frames are free for each page of the range, and takes no more |
| `Vm.Kernel.ZeroPage` | utils.c:6-21 | all 4096 bytes of the page are zero and no other page changes |
| `Vm.Kernel.MemCpy` | string.c:27-31 | the bytes are in place at the offset, the rest of the page and all other pages unchanged |
| `Vm.Kernel.CreatePt` | vm.c:11-26 | in place, the state and root the specification function gives |
| `Vm.Kernel.GetPtLevel` | vm.c:28-42 | in place, the state and table the specification function gives |
| `Vm.Kernel.GetPte` | vm.c:44-54 | in place, the state and table the specification function gives, for a NULL root too |
| `Vm.Kernel.MapPage` | vm.c:56-72 | in place, the state and frame the specification function gives |
| `Vm.Kernel.MapRange` | judge.c:93-124 | in place, the loops over addresses are the specification function over page numbers |
| `Vm.Kernel.CopyHead` | vm.c:85-99 | the part up to the first page boundary, also for a range that ends before it: the first step of the specification function |
| `Vm.Kernel.CopyMiddle` | vm.c:101-110 | the whole pages, one by one: the next steps |
| `Vm.Kernel.MapAndCopy` | vm.c:74-120 | head, middle and tail, in place, leave for every alignment the state of the specification function and report success exactly when all bytes were copied |
| `ElfImage.FitsSpec` | elf.c:50 | the 64-bit wrap-around test accepts exactly what fits without wrapping |
| `ElfImage.HeaderCheckSpec` | elf.c:12-56 | a file that passes the header checks holds its whole program header table |
| `ElfImage.SegmentCheckSpec` | elf.c:88-105 | the segment checks pass exactly for headers whose file bytes are in the file and whose range is in user space, with filesz at most memsz |
| `ElfFile.ReadHeader` | include/elf.h:73-91 | for a file whose first 64 bytes are the fields of an Elf64_Ehdr, little-endian and in their order, the loader reads entry point, table offset, entry size and number as those fields say |
| `ElfFile.ReadTable` | include/elf.h:135-145 | and the headers it works on are, field by field, the 56-byte Elf64_Phdr structures that follow each other from e_phoff on |
| `ElfFile.FileIsChecked` | elf.c:12-105 | a file is refused for the first of: magic number, type and number of headers (-4), their size (-1), a table that does not fit (-2), and for each PT_LOAD header in turn file bytes outside the file or memory outside 0x1000 to 0x40_0000_0000 (-2), more file bytes than memory (-4); otherwise it is loaded, or memory runs out (-10) |
| `ElfFile.ShortFile` | elf.c:12-16 | a file of less than 64 bytes is refused with -2 |
| `ElfFile.FilePages` | elf.c:107-131 | after a load into an empty table exactly the pages with an address from p_vaddr up to p_vaddr + p_memsz of some PT_LOAD header are mapped |
| `ElfFile.FileByte` | elf.c:107-131 | byte k of a segment, at p_vaddr + k, is byte p_offset + k of the file, unless a later segment has a byte there too |
| `ElfFile.FileZero` | elf.c:107-131 | every other byte of those pages is zero |
| `ElfFile.FileFlags` | elf.c:107-110 | a page has R, W and X as bits 2, 1 and 0 of p_flags of the first segment that has it, is the user's and accessed, and dirty if writable |
| `ElfImage.CopyThenBss` | elf.c:111-131 | copying the file bytes and mapping the pages from the last file page to the end loads one segment |
| `ElfImage.LoadedNext` | elf.c:82-134 | loading one more segment on top gives the overlay in which the last segment in header order wins |
| `ElfImage.SoleSegmentByte` | elf.c:111-112 | where at most one segment has file bytes the overlay is that segment's byte, else zero |
| `ElfImage.SoleSegmentFlags` | elf.c:107-110 | a page mapped by one segment alone carries that segment's R, W and X |
| `ElfImage.DisjointSegments` | elf.c:82-134 | for disjoint segments each holds its file bytes and then zeros |
| `ElfLoad.LoadSegmentSpec` | elf.c:107-131 | one PT_LOAD segment is loaded, or no page is free; the tree is kept |
| `ElfLoad.LoadSegmentsSpec` | elf.c:82-134 | the headers are loaded on top of each other up to the first bad one or exhaustion |
| `ElfLoad.LoadElfSpec` | elf.c:8-138 | 0 only when all checks pass, and then the mapped pages are the page hulls of the PT_LOAD ranges and every byte is that of the last segment covering it, else what was there, 0 on a fresh table; otherwise the error of the first failing check, or -EOOM with no page free; the tree is kept in every case |
| `Budget.LoadElfTakes` | elf.c:8-138 | load_elf succeeds on a file that passes its checks when three frames are free for each page of its segments, and takes no more |
| `Elf.LoadSegment` | elf.c:107-131 | in place, the state and result of the specification function |
| `Elf.LoadHeader` | elf.c:82-134 | one round of the loop, in place: loaded, skipped, refused, or out of memory |
| `Elf.LoadElf` | elf.c:8-138 | in place, the state and result of the specification function, and as entry point the number in bytes 24 to 31 of the file |
| `CountPt.CountPtLevel` | vm.c:122-140 | the loop and recursion add up what the specification function says |
| `CountPt.CountPt` | vm.c:142-145 | the count of the whole table |
| `CountPt.CountTableIsCardinality` | vm.c:122-145 | for any memory contents the count is the number of page numbers below 2^27 whose walk ends in an entry holding the flags, a leaf at level l counting for 512^l of them |
| `CountPt.CountIsSv39` | vm.c:133 | for any memory contents the count is the number of pages Sv39 (version 1.11) translates with the flags exactly when no counted walk ends in an entry the hardware rejects, because the source does not look at R, W and X of a leaf |
| `CountPt.PermissionlessPage` | elf.c:107-112 | an example: one page mapped without R, W and X is counted, and the hardware translates none |
| `CountPt.WalkIsNode` | vm.c:122-145 | on a table the kernel built the walk finds the leaf entries of the tree |
| `CountPt.CountIsView` | vm.c:142-145 | there the count is the number of pages the user's address space has with the flags |
| `CountPt.CountIsTranslated` | vm.c:122-145 | for a table the kernel built that condition is: each page with the flags is readable or executable, and readable if writable |
| `ElfCount.FirstGivesFlags` | elf.c:107-112 | a page has the flags of the first header that maps it |
| `ElfCount.LoadedIsTranslated` | elf.c:107-112 | for a loaded program the condition is on p_flags: each header that is the first to map some page has PF_R, or PF_X without PF_W |
| `Trap.GrantsAgree` | arch/riscv/trap_handler.c:92-98 | the handler grants whatever the hardware grants, and more in exactly one case: a fetch from a page mapped executable and writable but not readable |
| `Trap.PageFaultSpec` | arch/riscv/trap_handler.c:88-117 | a fault is resolved exactly when the page is mapped and the access granted; then that page's A, and D for a store, are set and nothing else; otherwise no page changes |
| `Trap.AttemptSpec` | arch/riscv/trap_handler.c:88-117 | for every address: an access the hardware grants completes after at most one trap, none if the bits were set; one the handler does not allow ends the program and changes no page; anything in between sets the bits of the page and faults again |
| `Trap.FaultsForEver` | arch/riscv/trap_handler.c:98-104 | an access on which the hardware faults again does so on every further attempt, and the pages stay as they are |
| `Trap.FetchNeverCompletes` | arch/riscv/trap_handler.c:92-104 | the fetch from a page that is executable and writable but not readable is such an access |
| `Trap.AliasNeverCompletes` | arch/riscv/trap_handler.c:96-104 | so is an access at a non-canonical address, exactly when the handler allows it on the page that the lower bits name |
| `Trap.PerformSpec` | arch/riscv/trap_handler.c:88-117 | an access that completes and stores changes exactly the bytes it names in the one page it names, besides that page's A and D; tables and all other frames stay as they are |
| `UserRun.RunSpec` | arch/riscv/trap_handler.c:88-117 | over any run of fetches, loads and stores: the tree is kept; the run goes on to the first access that the permissions at the start do not grant; each page keeps its permissions, has A and D set exactly where they were or an access or store touched it, and holds the bytes the stores put there; each trap but the last has set a clear bit |
| `UserRun.LastStore` | judge.c:169 | each byte of a page after a run is what the last store covering it has put there |
| `UserRun.NotStored` | judge.c:169 | and as before where no store covers it |
| `UserProgram.ProgramFollows` | judge.c:169 | a program is any function from what it has read to its next access: each access of a run is the one it makes when every load has read what the last store to each byte has put there, or what the byte was at the start |
| `UserProgram.ProgramEnds` | judge.c:169 | a run in which every access was done ends because the program leaves, or its time is up |
| `UserRun.RunTraps` | arch/riscv/trap_handler.c:97-104 | traps that come back to the program number at most two for each mapped page, however long the run and whatever it stores |
| `UserRun.RunMemoryUse` | judge.c:172 | after any run count_pt(U and A) is the number of pages that were mapped as accessed or have been accessed, and those sets are the same |
| `TrapHandler.PageFault` | arch/riscv/trap_handler.c:88-117 | the branch in place: the entry is updated, or the user task gets exit code -11, error -8, the pc and the address |
| `TrapHandler.Perform` | arch/riscv/trap_handler.c:88-117 | one access on the machine: the hardware's attempts, the handler between them, the store |
| `TrapHandler.Run` | judge.c:169 | the program run on the machine, in place, from what each load has read to the next access: state, traps, accesses done and ending are those UserRun.RunSpec is about, and the user task reports the fault that ended it, or is left alone |
| `JudgeLayout.RegionPages` | judge.c:60-117 | every region starts and ends on a page boundary |
| `JudgeLayout.RegionsDisjoint` | judge.c:60-117 | header page, stdin, stdout, stack and heap are pairwise disjoint for every stdin length up to 4 MiB |
| `JudgeLayout.BuiltIsUserView` | judge.c:60-164 | for every program clear of the regions: the program is where it was loaded and every byte of every region reads as the header, stdin, zeros, or the stack contents |
| `JudgeLayout.StackPointerAligned` | judge.c:144-163 | the stack pointer is 16-byte aligned for every stdin length |
| `JudgeLayout.ArgumentWord` | judge.c:144-164 | whatever program was loaded, word i above the stack pointer, read through the page table, is word i of the arguments |
| `Judge.ClearProgram` | judge.c:82-124 | a program is clear of the regions exactly when its segments map no page there |
| `Judge.Arguments` | judge.c:126-164 | argc, argv, envp, auxv and then aux read back from the aligned stack pointer, for every program; the lemmas of JudgeArguments say what each word means |
| `JudgeArguments.AuxIsFound` | judge.c:147-157 | whatever program was loaded: from 104 bytes above the stack pointer on are the end of the output buffer, the length of standard input, the end of the stack, 65536, 0, 0x1000_0000 and 0x1040_0000 |
| `JudgeArguments.AuxvIsFound` | judge.c:159-164 | argc, argv and envp are empty, and behind the tags 3, 4, 5 and 6 are 0x3f_ffff_f000 + e_phoff, 56, e_phnum and 4096 |
| `JudgeArguments.ArgumentsAreFound` | judge.c:42-169 | so every program, wherever its own segments lie, finds at its aligned stack pointer the address at which it reads standard input byte by byte, its length, and the address at which the first 4096 bytes of its file have the program headers |
| `JudgeArguments.TableIsRead` | judge.c:60-80 | it reads its whole program header table there exactly when the table lies in those 4096 bytes; the page behind them is not mapped |
| `JudgeArguments.RegionsAreFound` | judge.c:60-124 | a program clear of the regions has standard input and the file's page read-only and accessed, and zeros that it can write in the whole output buffer, the whole heap, and the 4 MiB of stack outside its arguments |
| `JudgeArguments.RegionsOnly` | judge.c:60-124 | outside these regions it has exactly its own pages, inside none of its own |
| `JudgeArguments.ProgramFinds` | judge.c:42-169 | all this holds in the address space do_judge has built whenever it calls arch_call_user |
| `JudgeArguments.UploadReadsAux` | judge.c:176-185 | the file uploaded after the run is what the user then has at the address of the output buffer, of the length it has left in stdout_len, at most 65536 |
| `JudgeBuild.BuildProgramSpec` | judge.c:53-67 | create_pt, load_elf and the header page as a function: the result is the loader's error, or -EOOM only with no page free, or 0 |
| `JudgeBuild.BuildRegionsSpec` | judge.c:82-124 | stdin, stdout, stack and heap are mapped in this order with their contents, or no page is free |
| `JudgeBuild.BuildStackSpec` | judge.c:144-164 | what is written through the physical cursor is read at the virtual one: aux, and the words at the stack pointer, whose meaning JudgeArguments states |
| `JudgeBuild.BuildSpec` | judge.c:42-164 | everything up to arch_call_user as a function: the program is to be run exactly when both files have come, all checks have passed and memory sufficed; otherwise the result is the first error, or -EOOM with no page free; frames taken before are untouched |
| `JudgeBuild.AddressSpaceBuilt` | judge.c:42-164 | and then the address space is the chain of views that JudgeLayout.BuiltIsUserView describes byte by byte |
| `JudgeBudget.EnoughMemory` | judge.c:42-164 | with both files free of errors, one free frame for the root and three for each page of the image, of stdin and of the fixed regions, the result is 0 |
| `JudgeBudget.EnoughMemoryRuns` | judge.c:42-194 | so such a request is answered with the report of its run |
| `Judge.Daemon.LoadProgram` | judge.c:53-67 | in place, the state, result and table of the specification function, and as entry point the number in bytes 24 to 31 of the file |
| `Judge.Daemon.MapRegions` | judge.c:82-124 | in place, the state and result of the specification function |
| `Judge.Daemon.MapAgain` | judge.c:145 | the stack page is mapped already, so only its frame is returned |
| `Judge.Daemon.BuildStack` | judge.c:144-164 | the two cursors move in lockstep; in place, the state of the specification function and the stack pointer |
| `Judge.Daemon.BuildUser` | judge.c:42-164 | in place, the state, result and table of the specification function, with entry point, stack pointer and the page of aux when the program is to be run |
| `JudgeOutput.BlockOfOutput` | judge.c:26-40 | what call k of judge_read_block finds is block k of the output |
| `JudgeOutput.ReadBlock` | judge.c:26-40 | the next 512 bytes, or what is left, of the user's bytes read through the page table; the context advances by as much; nothing else changes |
| `JudgeOutput.OutputLength` | judge.c:176-184 | the length the user stored, clipped to the buffer |
| `JudgeUpload.AwaitAck` | tftp.c:231-261 | the inner loop: resend on timeout, ignore other numbers, stop on an error or the acknowledgement |
| `JudgeUpload.PutOutput` | judge.c:185 | tftp_put_file with judge_read_block sends what the client specification sends for the user's output, and leaves memory as it was |
| `JudgeRequest.BuiltOutput` | judge.c:90-100 | stdout and the page above it are mapped, whatever program was loaded |
| `JudgeRequest.OutputReadable` | judge.c:182-185 | so every block, also an empty last one, is read from a mapped page |
| `JudgeRequest.ClipKeeps` | judge.c:177-180 | clipping the stored length keeps the address space and the output |
| `JudgeRequest.Upload` | judge.c:176-189 | the file uploaded is the output buffer up to the clipped length |
| `JudgeRequest.OutputIsStored` | judge.c:185 | when the upload has returned 0, over whatever network, the server holds exactly the user's output |
| `JudgeRequest.JudgedErrors` | judge.c:42-141 | a reply without a run names the first error, or -EOOM with no page free; a program that was run had none |
| `JudgeRequest.OutputByte` | judge.c:169-189 | for a program clear of the regions every byte of the output buffer is what its last store to it has put there, else 0 |
| `JudgeRequest.RunAndReport` | judge.c:169-189 | the user's run, memory use of 4 KiB for each page mapped as accessed or accessed by the run, the fault that ended it, and the packets of uploading the output it left |
| `JudgeRequest.DoJudge` | judge.c:42-194 | a whole judging run, for all files, programs and networks: the program is run exactly when the address space was built, and the reply is then the report of its run; otherwise it is the error of the step that failed |
| `JudgeRequest.ServeRequest` | judge.c:232-234 | the same reply; no frame taken before is written, and once do_judge has returned the allocator is exactly as before |
| `JudgeMemory.MemoryUseIsTranslated` | judge.c:172 | for every program that was run, whatever it did, the memory use reported counts exactly the pages the hardware translates as accessed if and only if each program header that is the first to map some page has PF_R, or PF_X without PF_W |
| `JudgeMemory.CountedAtStart` | judge.c:60-172 | the pages counted for a program before its first access are exactly those of its segments, of standard input and the first page of the file, and none of output, stack and heap |
| `Isolation.AgreeGetPte` | vm.c:44-54 | on two machines with the same taken frames, whatever lies in the free ones, the descent gives the same table and they agree again |
| `Isolation.AgreeMapPage` | vm.c:56-72 | so does map_page, which zeroes a fresh frame before it links it |
| `Isolation.AgreeMapAndCopy` | vm.c:74-120 | so does map_and_copy |
| `Isolation.AgreeLoadElf` | elf.c:8-138 | so does load_elf |
| `JudgeIsolation.AgreeBuild` | judge.c:42-164 | so does everything up to the user program |
| `JudgeIsolation.AgreeRun` | arch/riscv/trap_handler.c:88-117 | the same accesses take the same traps, get as far and end in the same way |
| `JudgeIsolation.AgreeAccesses` | judge.c:169 | every load reads the same bytes, so the program, which goes by what it has read, makes the same accesses |
| `JudgeIsolation.AgreeJudged` | judge.c:42-194 | so the reply to a request depends on nothing an earlier request left in memory |
| `JudgeService.DownloadIsFile` | judge.c:46-80 | a download over any network from a server whose file fits the buffer is that file, or an error the server or its silence has caused |
| `JudgeService.DownloadOverruns` | judge.c:46-80 | a file of 4 MiB and one byte makes tftp_get_file leave do_judge's buffer, with no packet lost |
| `JudgeService.ServeRequests` | judge.c:216-238 | for any sequence of requests, each served when do_judge has returned from the one before: each reply is the one the request would get from a kernel just started, no frame of the kernel is written, and the allocator is as at the start |
| `TftpBlocks.PrefixStep` | tftp.c:151-154 | block k+1 continues the first k blocks |
| `TftpBlocks.BlockSize` | tftp.c:161 | all blocks are full but the last, which is shorter |
| `TftpBlocks.BlockBytes` | include/tftp.h:17 | a file of n bytes is n/512 blocks of 512 bytes and one of n mod 512, block k starting at byte 512 k |
| `Tftp.CheckResp` | tftp.c:47-70 | 0 exactly for a datagram of at least four bytes with the expected opcode, else -EBADPKT |
| `Tftp.DataIsRead` | tftp.c:140-154 | a DATA packet is read as its number and payload, and changing its opcode makes the acknowledgement of its number |
| `Tftp.RequestIsRead` | tftp.c:30-45 | a request that fits the buffer parses, as RFC 1350 reads it, to opcode, name and mode; names over 119 bytes are refused |
| `Tftp.WireFormat` | include/tftp.h:6-28 | requests, DATA and acknowledgements byte by byte: opcodes 1 to 4, the number in network byte order, name and "octet" each closed by a zero; requests go to port 6969 |
| `Tftp.WireErrors` | tftp.c:47-70 | what is taken for DATA, for an acknowledgement and for an error, byte by byte |
| `TftpRead.ClientGrows` | tftp.c:127-175 | the buffer only grows, and a finished client changes no more |
| `TftpRead.Open` | tftp.c:87-94 | the request is sent again after every timeout until something arrives: i times without an answer leave i + 1 copies sent |
| `TftpRead.OpeningRepeats` | tftp.c:87-94 | the same of the client machine, for every number of timeouts |
| `TftpRead.TakeFirst` | tftp.c:96-123 | the first packet: an error, the whole file, or its first block; or it does not fit the buffer |
| `TftpRead.GetRest` | tftp.c:127-175 | the transfer loop: every DATA packet is acknowledged, the one with the next number appended, up to a block that does not fit |
| `TftpRead.GetFile` | tftp.c:72-176 | for every sequence of results of recv_udp: a memcpy would leave the buffer exactly when the data the client machine has received does not fit it; otherwise return value, length, buffer contents and packets sent are those of the client machine; bytes beyond the length are unchanged |
| `TftpReadNet.DataIsSafe` | tftp.c:140-169 | a data packet of the server, however old, keeps the buffer a prefix of the file and the session in step |
| `TftpReadNet.AckIsExpected` | tftp.c:146-147 | only the chosen session is ever acknowledged, and only up to the last accepted block |
| `TftpReadNet.AcknowledgeIsSafe` | tftp.c:146-147 | so it advances by at most one block beyond what was accepted |
| `TftpReadNet.RunIsSafe` | tftp.c:83-176 | the invariant holds in every run with loss, duplication, reordering and repeated requests |
| `TftpReadNet.ReadIsExact` | tftp.c:83-176 | in every run the buffer is a prefix of the file, the chosen session is at the last accepted block or the next; 0 means exactly the whole file, any other value that the server gave up or fell silent |
| `TftpReadNet.ClientOfRun` | tftp.c:72-176 | the client of any run is in the state of GetFile for some results of recv_udp, and the packets to the server in the network are exactly those GetFile has sent |
| `TftpReadProgress.BlockArrives` | tftp.c:127-168 | a block that is sent again takes the client one step further |
| `TftpReadProgress.CanFinish` | tftp.c:72-176 | no untroubled run is stuck: some deliveries complete it with the whole file |
| `TftpReadProgress.StaysInside` | tftp.c:114-168 | in every run the received data fit a buffer of given length exactly when the server's file does, which the source does not check |
| `TftpReadProgress.OverrunIsReached` | tftp.c:114-168 | for every longer file there are results of recv_udp on which GetFile leaves the buffer |
| `TftpReadLoss.CanFinishAfterLoss` | tftp.c:83-176 | over a network that also loses packets for good: whatever was lost, and with every packet under way lost too, no untroubled transfer is stuck; a timeout repeats the request, the server repeats its block, and the client acknowledges again a block it has already taken |
| `TftpReadLoss.LossyReadIsExact` | tftp.c:83-176 | and the buffer is still a prefix of the file, the whole file on 0 |
| `TftpWrite.CallsBounded` | tftp.c:217-277 | read_block is called at most once for each block, and exactly for all of them when 0 is returned, also when the 16-bit numbers wrap: the block sequence is finite |
| `TftpWrite.DoneStays` | tftp.c:270-278 | a finished client sends no more |
| `TftpWrite.OpeningRepeats` | tftp.c:194-203 | i timeouts without an answer leave i + 1 copies of the request sent |
| `TftpWrite.PacketRepeats` | tftp.c:228-242 | m timeouts without an answer to a DATA packet leave m more copies of it sent |
| `TftpWriteNet.AckIsTaken` | tftp.c:251-276 | an acknowledgement moves the client on exactly when it names the current block, and ends it exactly after the last one |
| `TftpWriteNet.StoreIsFaithful` | tftp.c:228-241 | only the chosen session receives data, and what it stores next is the next block of the file |
| `TftpWriteNet.RunIsSafe` | tftp.c:178-279 | the invariant holds in every run |
| `TftpWriteNet.WriteIsExact` | tftp.c:178-279 | in every run the stored blocks are a prefix within one block of `window`, at the chosen session only; 0 means every block stored once and in order, the last one short, any other value that the server gave up |
| `TftpWriteNet.ClientOfRun` | tftp.c:178-279 | the client of any run is in the state of PutOutput for some results of recv_udp, and the packets to the server in the network are exactly those PutOutput has sent |
| `TftpWriteProgress.CanFinish` | tftp.c:178-279 | no untroubled run is stuck: some deliveries complete it with the whole file stored |
| `TftpWriteLoss.CanFinishAfterLoss` | tftp.c:178-279 | over a network that loses packets for good no untroubled transfer is stuck: the client's timeouts repeat what was lost until the whole file is stored |
| `TftpWriteLoss.LossyWriteIsExact` | tftp.c:178-279 | and 0 still means that it is |
| `Tasks.FindWaitingFirst` | task.c:36-46 | the first task created that has the wait, if any |
| `Tasks.FindUdpFirst` | task.c:127-138 | the first task created that waits for such a datagram, if any; SchedulerHistory.DispatchGoesToFirst says which those are |
| `SchedulerSafety.DeliverIsSafe` | task.c:152-158 | a delivery writes only through pointers into a live call of recv_udp |
| `SchedulerSafety.DispatchSpec` | task.c:140-159 | a datagram goes to the first matching task in creation order and changes nothing else, not even the buffer beyond it; without one the dispatcher yields once; SchedulerHistory ties matching to the calls that were made |
| `SchedulerSafety.SwitchToIsSafe` | task.c:94-106 | what a resumed task does on the way out of sched_yield, wait, recv_udp or task_dispatch_udp keeps the invariant |
| `SchedulerSafety.TaskStepIsSafe` | task.c:94-117 | so does every way of giving up the processor |
| `SchedulerSafety.ScanIsSafe` | task.c:76-90 | so does each round of the round-robin loop |
| `SchedulerSafety.ReachableIsSafe` | task.c:56-159 | in every reachable state a task with is_waiting is suspended in its own recv_udp; recv_udp returned the clipped length of one matching datagram with payload and sender, or 0 when its time was over; num_waiting_task is the number of tasks with a wait and below num_task whenever idle runs; SchedulerHistory ties matching to the calls that were made |
| `SchedulerHistory.RunAsked` | ip.c:785-801 | in every run, each waiting call and each return of recv_udp is that of a call made earlier, with the ports, address, length, time and timeout of that call |
| `SchedulerHistory.ReturnAnswersCall` | task.c:119-158 | so each return is of a call that asked for the port, the address and the source port of the datagram, each or any, with its first bytes and its sender; or it is 0 and comes no earlier than the timeout after the call |
| `SchedulerHistory.DispatchGoesToFirst` | task.c:127-159 | in every run a datagram goes to the first task waiting in a call that asks for its port, address and source port, and to no other; with none the dispatcher yields |
| `SchedulerHistory.RetryGoesToFirst` | task.c:142-151 | when the loop takes up the dispatcher again, the datagram goes to the first task that waits in such a call by then, and is dropped if there is none |
| `SchedulerHistory.SleepsLongEnough` | task.c:108-112 | a task that sleeps does not run before its time is over, whatever else happens |
| `SchedulerHistory.SleeperIsReady` | include/timer.h:21-31 | and from then on it is ready for the loop |
| `SchedulerHistory.CallerIsReady` | task.c:56-65 | in every run a task in recv_udp is ready for the loop exactly from the timeout after its call on |
| `SchedulerHistory.PollWakesWaiting` | task.c:72-75 | the four polls are for terminal input and output and Ethernet input and output in this order, and each that answers switches to the first task waiting for that device |
| `SchedulerHistory.WaitsForDevice` | task.c:99-117 | in every run a call of wait returns only when the poll of its own device has answered and no earlier task waits for that device; exit never returns |
| `RoundRobin.ReadyStep` | task.c:78-89 | a ready task stays ready until the loop takes it, and only the loop takes it |
| `RoundRobin.RoundRobinBound` | task.c:76-90 | any other task is dispatched by the loop at most once before it, and the loop looks at fewer than num_task tasks, wherever `rr` stands and whatever wakes up in between |
| `TaskTable.Kernel.constructor` | task.c:14-34 | the boot state with n tasks |
| `TaskTable.Kernel.FindTaskWaitingFor` | task.c:36-46 | the loop finds the first such task |
| `TaskTable.Kernel.FindUdp` | task.c:127-138 | the loop finds the first such task |
| `TaskTable.Kernel.WaitFor` | task.c:99-103 | the step of the state machine, in place |
| `TaskTable.Kernel.Sleep` | task.c:108-112 | the step of the state machine, in place |
| `TaskTable.Kernel.RecvUdp` | ip.c:785-801 | the step of the state machine, in place |
| `TaskTable.Kernel.DispatchUdp` | task.c:140-159 | the step of the state machine, in place |
| `TaskTable.Kernel.SwitchTo` | task.c:94-106 | the rest of the interrupted call of the task that goes on |
| `TaskTable.Kernel.PollDevice` | task.c:72-75 | one poll and the switch it may cause |
| `TaskTable.Kernel.PollTimer` | include/timer.h:21-31 | the answer, and the timeout noted once it has come |
| `TaskTable.Kernel.PollUdp` | task.c:56-65 | the answer, and is_waiting cleared once the time is over |
| `TaskTable.Kernel.RoundRobin` | task.c:76-90 | the for loop is that sequence of rounds, for any readings of the cycle counter |
| `Checksum.FoldTwice` | include/ip.h:432-433 | two folds bring every 32-bit sum to 16 bits, unchanged modulo 65535, and zero only for zero |
| `Checksum.SwapCong` | include/ip.h:377-380 | swapping bytes is multiplication by 256 modulo 65535, and its own inverse |
| `Checksum.RfcSumCong` | include/ip.h:406-416 | the big-endian end-around-carry sum is 256 times the little-endian sum modulo 65535 |
| `Checksum.NoOverflow` | include/ip.h:408-415 | no buffer of up to 65535 bytes (indeed 131070) overflows 32 bits |
| `Checksum.ChecksumIsRfc1071` | include/ip.h:406-440 | the value stored little-endian is the RFC 1071 checksum in network byte order, odd lengths included |
| `ChecksumFields.Partial` | include/ip.h:406-416 | the loop computes the sum, modulo 2^32 for any length |
| `ChecksumFields.NegPartial` | include/ip.h:418-428 | the loop computes the sum of the complemented words |
| `ChecksumFields.IpChecksum` | include/ip.h:437-440 | and the whole is the RFC 1071 checksum for up to 65535 bytes |
| `ChecksumFields.SumOfField` | include/ip.h:406-416 | changing an aligned field changes the sum by the difference |
| `ChecksumFields.VerifiesIff` | ip.c:512-513 | a packet checks out exactly when its field holds its checksum, 0xffff passing for 0 |
| `ChecksumFields.StoredVerifies` | ip.c:469-470 | writing the checksum into the zeroed field makes `ip_checksum` return 0 |
| `ChecksumFields.Update` | ip.c:474-476 | equation 3 of RFC 1624 equals recomputation exactly when its sum and the words left are zero together |
| `Icmp.EchoReplyChecksum` | ip.c:442-481 | the updated checksum of an echo reply is the recomputed one, and is accepted, exactly when the rest of the message is not all zero |
| `Icmp.ZeroRequest` | ip.c:474-476 | an example: the reply to the request with all other bytes zero carries 0 instead of 0xffff |
| `Icmp.EchoReplyBytes` | ip.c:442-481 | type 8 and code 0 become type 0 and code 0, and everything behind the checksum comes back unchanged |
| `Icmp.L4ChecksumIsRfc` | ip.c:187-207 | the sum over the parts is the RFC 1071 checksum of pseudo-header and message, for both address sizes |
| `Icmp.EchoReply6Checksum` | ip.c:642-680 | the updated ICMPv6 checksum is always the recomputed one over the reply's own addresses, a replaced multicast address included, and is accepted |
| `Icmp.EchoReply6Bytes` | ip.c:642-680 | type 128 becomes 129, everything behind the checksum comes back unchanged, to the sender, from the address that was asked, or from the own one if that starts with 0xff |
| `Udp.EmbeddedAddress` | include/ip.h:514-522 | embedding an IPv4 address and extracting it are inverse |
| `Udp.SegmentVerifies` | ip.c:80-81 | the UDP checksum the sender stores is accepted |
| `Udp.PacketBytes` | ip.c:751-780 | a packet that is sent, byte by byte: 0x45, no services, identification and flags zero, hop limit 255, next header 17, addresses, ports and lengths in network byte order, a header and a datagram that verify |
| `Udp.GoodIsReceived` | ip.c:504-548 | for every frame: exactly those with a whole IPv4 header without options that verifies, this host's address or none yet set, lengths in range and a UDP checksum absent or right go to a task, with the ports, address and payload found at their places; and exactly the verifying echo requests are answered |
| `Udp.SentIsReceived` | ip.c:504-548 | a datagram that was built, with any padding behind it, passes every check at a receiver with its destination address and comes out with the same source, ports and payload |
| `UdpFrame.Ipv4L4Checksum` | ip.c:198-207 | in place, the pseudo-header checksum |
| `UdpFrame.HeaderChecksum` | ip.c:469-470 | in place: the header verifies, no other byte changes |
| `UdpFrame.SendUdp` | ip.c:740-783 | 0 exactly for payloads of up to 4052 bytes, and then the frame holds exactly that packet; otherwise nothing changes |
| `UdpFrame.Receive` | ip.c:504-548 | every check of handle_ipv4 in order, with its result, on the frame buffer |
| `UdpFrame.EchoV4` | ip.c:442-481 | in place: addresses swapped or replaced, a header that verifies, and the reply message |
| `UdpFrame.EchoV6` | ip.c:642-680 | in place: addresses and message of the reply |
| `UdpDelivery.SentIsDelivered` | ip.c:804-815 | a datagram that was sent ends up, clipped and with its sender, in the recv_udp call of the first task waiting for it |
| `Ntoa.FormatLength` | printf.c:199-223 | the text is exactly as long as the width, or as sign and digits if those are longer |
| `Ntoa.DigitCharIs` | printf.c:295-296 | digit d is character d of "0123456789abcdef", or of the same with capitals |
| `Ntoa.DigitCount` | printf.c:293-297 | n digits suffice exactly for numbers below base^n |
| `Ntoa.EnoughRoom` | printf.c:281-301 | every 64-bit number in bases 8, 10 and 16 fits the 32-byte buffer for widths below 32, and in base 2 every number below 2^32, or 2^31 with a sign |
| `Ntoa.OutRev` | printf.c:199-223 | the buffer backwards, with the spaces on the right side |
| `Ntoa.PutDigits` | printf.c:292-298 | the digits, last one first, and of more than 32 the last 32 |
| `Ntoa.PrintedIff` | printf.c:227-301 | keeping the last 32 digits, zeros up to 32, and the sign only if there is room gives the text C calls for exactly when sign, digits and zeros fit, or only a space for a sign does not and padding stands in for it |
| `Ntoa.SpaceStandsIn` | printf.c:256-266 | an input of that second kind |
| `Ntoa.NtoaFormat` | printf.c:227-277 | zeros, sign and layout, without leaving the buffer, for any number of digits |
| `Ntoa.NtoaLong` | printf.c:281-301 | no store leaves the 32-byte buffer, and the text is as C lays it out exactly under that condition |
| `NtoaParse.ValueOfDigits` | printf.c:293-297 | the digits stand for the number |
| `NtoaParse.PrintedIsRead` | printf.c:199-301 | stripped of padding the text parses back to the number with its sign, in every base, width and flag combination |
| `NtoaParse.Atoi` | printf.c:188-195 | stops at the first non-digit with the value modulo 2^32 |
| `NtoaParse.AtoiReadsBack` | printf.c:188-195 | so it inverts unpadded base-10 output below 2^32 |

## Left out

- The receive buffer, the page bitmap and its snapshot are objects of their own, not bytes of the modelled memory; that they lie below `available_start`, where no allocated page lies, is what `Mm.MetadataNeverHandedOut` and `AddressSpace.CreateThenGrow` say about their pages.
- Physical addresses are frame numbers times 4096, and the number of pages is a multiple of 64, as `arch/riscv/init.c:51` has it.
- A kernel page table (`kernel_pt` is never set), creation of superpages, TLB flushes, CSR access.
- Elf.LoadElf: the table of program headers that the source prints first, like all other diagnostic output, is not modelled.
- CountPt.CountIsSv39: the hardware's walk is that of version 1.11 of the RISC-V privileged architecture; reserved bits are taken as ignored, both the high bits of any entry and A, D and U of inner entries. Version 1.12 has the walk fail on them, and `make_pte` sets A and D in every inner entry (`Sv39.MakePteSpec`). Nor is the hardware's own update of A and D modelled.
- Trap.AttemptSpec: other causes of traps are not modelled.
- Trap.PerformSpec: an access that crosses a page boundary is two accesses here, one in each page.
- UserProgram.ProgramFollows: what a program does between accesses is a function of what it has read; readings of the cycle counter are part of that function, the timer is a number of accesses, and after an access that faults for ever only the timer follows.
- Judge.Daemon.BuildUser: the two downloads arrive as results of `tftp_get_file`; files larger than the 4 MiB buffer, whose size the source does not check, are excluded here (`JudgeService.DownloadIsFile` shows the rest sound); when the buffer would be left is what `TftpRead.GetFile` says.
- JudgeRequest.DoJudge: time limit, time usage, exit codes other than that of a page fault, and the reply datagrams to the judge client are left out.
- TftpReadNet.ReadIsExact: that `get_port` gives a port no earlier transfer's packets still travel to is assumed; files of 65536 blocks or more, for which the 16-bit block number wraps round, and a file that changes during the transfer are excluded, as is another machine answering from the server's address.
- TftpWriteNet.WriteIsExact: the same limits; and what the server holds is told apart by its ports, so that a late copy of the request, for which a server opens the same file name again, does not touch what an earlier session has stored.
- JudgeRequest.ServeRequest: an upload that is still running when the events end has not returned, so the snapshot is not restored and no further request is served.
- TftpReadProgress.CanFinish: that some deliveries complete the transfer, not that the network makes them.
- RoundRobin.RoundRobinBound: tasks are all created before the idle task runs, as the init functions do; that a running task yields at last is an assumption about the tasks, and the cycle counter does not wrap around.
- SchedulerSafety.ReachableIsSafe: stacks and registers are not modelled; a context switch is one step, and the running of a user program on behalf of a task is outside the scheduler here.
- Udp.SentIsReceived: `ip_send` with a known MAC address; ARP, NDP, routing, DHCP and the two-entry address cache are left out.
- Icmp.EchoReplyChecksum: where the update goes wrong, a reply whose other bytes are all zero, the code is kept as it is.
- Ntoa.NtoaLong: the '#' flag and explicit precision are left out.
- Drivers, MMIO, DMA, UART and tty, assembly (`switch_to.S`, `trap.S`, `user.S`, `start.S`), linker scripts, the programs in `user/` and `client.py`: not part of this model.
