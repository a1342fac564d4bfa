# A model of the kernel and its bootloader

A small x86_64 kernel is started by a UEFI bootloader. The bootloader builds page tables from a
fixed pool of frames; the kernel keeps a bitmap of free frames inside the memory it manages, loads
a user program through the page map, builds its stack and then serves its system calls, while a
timer and a keyboard interrupt it.

The project follows that story. Physical memory is one array of bytes. The bitmap, the page tables
and the program all live in it, so that a proof that one does not damage the other is part of every
contract.

| file | part of the system |
|---|---|
| `Bits`, `Arith` | bits of 64-bit words, little-endian words in memory, quotients |
| `Pmm` | the frame bitmap |
| `PageTables` | page tables in memory and the CPU's walk through them |
| `Paging` | `map_to` over memory, and the ledger of the frames handed out |
| `ElfLoader`, `UserStack`, `Program` | the user program's image, its start-up stack, what it finds when it starts |
| `KernelBoot` | the whole boot run |
| `Mmap`, `Console`, `SyscallEntry` | system calls |
| `Keyboard`, `IrqLocks` | the scancode ring, spinlocks against interrupts |
| `Grid`, `Screen` | the text screen |
| `BootPaging`, `BootImage` | the bootloader |

The results to read first:

- `KernelBoot.BootUser`: from the firmware's memory map and the active tables to a program whose
  pages, rights and bytes, at plain addresses, are exactly what the CPU finds by walking the tables in
  memory; every frame handed out is usable RAM, nothing else is written, and the run succeeds exactly
  if there are as many free frames as new pages and tables.
- `Pmm.BitmapPmm.Init` and `Pmm.RunTheorem`: the free set is exact, and allocation takes minima.
- `Screen.FrameBufferWriter.ClearAndWrite`: pixels are the picture of the last lines of the text.
- `BootPaging.Setup`, with `BootPaging.BudgetBound`: everything is mapped, dropped errors
  notwithstanding, exactly if the tables of the plan fit the pool.
- `IrqLocks.SafeIffGuarded` and `IrqLocks.KernelNeverSpins`: the lock discipline is exact and kept.
- `SyscallEntry.RunTransparent`, `Console.WritevIsWrite`, `Mmap.HonouredIff`, `BootImage.LoadersAgree`.

Where the code does not do what one would expect of it, the model keeps the code and the exact
condition is proved:

- `sys_mmap` adds with wrap-around. `Mmap.WrappedRequests` gives two requests for nearly 2^64 bytes
  that are granted; `Mmap.HonouredIff` says exactly which requests are served correctly.
- `sys_writev` differs from one `sys_write` of the joined bytes when a character is cut between two
  buffers (`Console.CutCharacter`) or when only some buffers are valid UTF-8. `Console.WritevIsWrite`
  is the exact condition.
- The bootloader copies a segment to the start of its frames, which is right exactly for segments
  that start on a page (`BootImage.RightIffAligned`); `kernel/linker.ld:14-25` provides that.
- RSP is 8 modulo 16 at the call of the system call handler, while section 3.2.2 of the System V
  AMD64 psABI asks for 0 (`SyscallEntry.CallAlignment`).
- The initial colours of the screen are stored without conversion, so on RGB screens the background
  is not the colour that the first `clear` paints (`Screen.InitialBackground`).
- A page shared by two segments keeps the permissions of the first one (`ElfLoader.FirstWins`), which
  can take the right to write from data (`ElfLoader.SharedPageLosesWrite`). Every segment has its own
  permissions exactly if segments that share a page agree on them (`ElfLoader.OwnFlagsIff`).
- AT_PHDR is the load address plus the file offset of the program headers. The headers are there
  exactly if segments load them at an address equal to their offset (`UserStack.HeadersFoundIff`): in
  the usual position-independent layout they are, in the usual static one they are not
  (`UserStack.HeadersMissed`).
- A text scale whose cells are taller than the screen makes `scroll_up` compute a negative height. A
  run of writer calls is safe exactly if no line is broken at such a scale
  (`Screen.FrameBufferWriter.Drive`, `Screen.TallScale`).

## Model

| member | source | states |
|---|---|---|
| `Bits.SetBitExact` | kernel/src/pmm.rs:137-141 | setting a bit sets that bit of the word and changes no other |
| `Bits.ClearBitExact` | kernel/src/pmm.rs:144-148 | clearing a bit clears that bit of the word and changes no other |
| `Bits.LowestZero` | kernel/src/pmm.rs:115-120 | the trailing zeros of the inverted word are the position of its lowest zero bit |
| `Bits.LeRoundTrip64` | kernel/src/elf_loader.rs:540-543 | a 64-bit word written as eight little-endian bytes reads back as itself |
| `Bits.WordIs` | kernel/src/pmm.rs:114-115 | a word in memory has its lowest byte first |
| `Bits.BitIs` | kernel/src/pmm.rs:137-141 | bit `k` of a word is the one worth 2^k |
| `Pmm.BitmapPmm.MarkUsed` | kernel/src/pmm.rs:137-141 | exactly one frame becomes used; no byte outside the bitmap changes |
| `Pmm.BitmapPmm.MarkFree` | kernel/src/pmm.rs:144-148 | exactly one frame becomes free; no byte outside the bitmap changes |
| `Pmm.BitmapPmm.MarkRegionUsed` | kernel/src/pmm.rs:151-158 | exactly the frames of the region become used |
| `Pmm.BitmapPmm.MarkRegionFree` | kernel/src/pmm.rs:161-170 | exactly the frames of the region below the total become free, for any region |
| `Pmm.BitmapPmm.FindRegion` | kernel/src/pmm.rs:66-79 | the first usable region, not at address 0, that can hold the bitmap, or none exists |
| `Pmm.BitmapPmm.FreeConventional` | kernel/src/pmm.rs:92-99 | the second pass frees exactly the type-7 frames, and reads the same descriptors as the first although the bitmap has been written into memory meanwhile |
| `Pmm.BitmapPmm.Build` | kernel/src/pmm.rs:89-106 | the free set is the type-7 frames without the bitmap's own frames and frame 0; padding bits stay set |
| `Pmm.EntryOfRecord` | kernel/src/pmm.rs:10-21 | from the forty bytes of a firmware record the kernel reads its type, physical start and number of pages |
| `Pmm.ConventionalOfRecords` | kernel/src/pmm.rs:92-99 | usable RAM is exactly what the records of type 7 surround |
| `Pmm.BitmapPmm.Init` | kernel/src/pmm.rs:48-108 | over the records that the firmware wrote: succeeds exactly if some usable region not at 0 can hold the bitmap, puts it at the start of the first, and leaves free exactly the usable frames below the end of memory without frame 0 and without frames that hold a byte of the bitmap; only bitmap bytes are written |
| `Pmm.BitmapPmm.Stable` | kernel/src/pmm.rs:27-36 | writes to memory outside the bitmap's bytes change neither the free set nor the invariant |
| `Pmm.BitmapPmm.FirstFree` | kernel/src/pmm.rs:111-133 | the scan finds the least free frame, or none exactly if the free set is empty; the out-of-bounds exit is unreachable |
| `Pmm.BitmapPmm.LeastUnused` | kernel/src/pmm.rs:113-124 | the lowest zero bit of the first word that is not full is below the frame count and is the minimum of the free set |
| `Pmm.BitmapPmm.AllocateFrame` | kernel/src/pmm.rs:111-134 | takes the minimum of the free set and returns its address, or None exactly if the set is empty; no byte outside the bitmap changes |
| `Pmm.AllocateMany` | kernel/src/pmm.rs:196-199 | any number of calls is a run of minima taken from the free set |
| `Pmm.RunTheorem` | kernel/src/pmm.rs:111-134 | over any run exactly the first \|free\| calls succeed, and the addresses strictly increase |
| `Paging.Ledger.Conservation` | kernel/src/elf_loader.rs:212-248 | frames handed out are conserved: supply = free + one per new page + one per new table + in transit |
| `Paging.Ledger.OwnersSplit` | kernel/src/elf_loader.rs:212-248 | the frames handed out are the data frames and the table frames, and no frame is both |
| `PageTables.EntryIs` | kernel/src/elf_loader.rs:196-208 | an entry word gives back its frame and its three rights, and is not a 2 MiB page |
| `PageTables.EntryLayout` | kernel/src/elf_loader.rs:196-208 | the bits of an entry: present 0, writable 1, user 2, page size 7, frame 12 to 51, no-execute 63 |
| `PageTables.WalkByAddress` | kernel/src/pml4.rs:7-30 | the walk by bits 39, 30, 21 and 12 of the address, the rights of all four entries together, and the byte at the end |
| `PageTables.WidenIs` | kernel/src/elf_loader.rs:236-242 | adding rights to an entry adds exactly these and changes neither target nor kind |
| `PageTables.WalkIs` | kernel/src/pml4.rs:7-30 | the CPU's walk through four levels in memory knows exactly the described pages, with their frames and the rights of all four entries together |
| `PageTables.WiredEmpty` | uefi_boot/src/main.rs:136-143 | a zeroed root is an exact description with no page in it |
| `PageTables.WalkLargeIs` | uefi_boot/src/main.rs:277-290 | the walk ends at a 2 MiB page exactly where there is one |
| `PageTables.EntryWritten` | kernel/src/elf_loader.rs:236-242 | writing one word of one table changes the entry of one node: no two nodes share a place |
| `PageTables.WiredTable` | kernel/src/elf_loader.rs:236-242 | entering a zeroed table in its parent keeps the description of memory exact |
| `PageTables.WiredLeaf` | kernel/src/elf_loader.rs:236-242 | entering a page in its lowest table keeps the description of memory exact |
| `PageTables.WiredWiden` | kernel/src/elf_loader.rs:236-242 | adding rights above a page keeps the description of memory exact |
| `Paging.AddressSpace.constructor` | kernel/src/pml4.rs:7-30 | taking over tables that memory holds, entry by entry, establishes the invariant, with nothing taken from the supply |
| `Paging.AddressSpace.TakeFrame` | kernel/src/pmm.rs:204-208 | the kernel's frame allocator: one frame moves from the free set into transit, and the tables stay intact although the bitmap changes |
| `Paging.AddressSpace.NextTable` | kernel/src/elf_loader.rs:236-242 | decides by the entry in memory: an unused one costs one frame that is linked and zeroed, a present one is widened and followed, a 2 MiB page stops |
| `Paging.AddressSpace.MakeTable` | kernel/src/elf_loader.rs:236-242 | the new table is empty, linked with the rights of its page, and apart from everything else |
| `Paging.AddressSpace.MapTo` | kernel/src/elf_loader.rs:236-242 | maps one page and keeps memory and description equal; each failure has its cause: the page is mapped, a 2 MiB page, or fewer frames on supply than the pages so far and this one cost |
| `Paging.AddressSpace.MapFresh` | kernel/src/heap_allocator.rs:90-102 | a free frame mapped as it is: one page more, and each failure has its cause |
| `Paging.AddressSpace.Spent` | kernel/src/elf_loader.rs:212-248 | the supply is what is free, one frame per new page, and one per table on the way to a new page that was not there: no table is made in vain |
| `Paging.AddressSpace.MapZeroed` | kernel/src/elf_loader.rs:225-250 | a fresh frame mapped and zeroed: the view gains one zero page and all other pages keep their bytes |
| `Paging.AddressSpace.CopyChunk` | kernel/src/elf_loader.rs:262-277 | a copy through the frame of one page changes that page's bytes only, and neither bitmap nor tables |
| `Paging.AddressSpace.Separation` | kernel/src/pmm.rs:101-134 | a page's frame is in memory, is not frame 0, not free, not a table, not part of the bitmap and not another page's |
| `Paging.AddressSpace.CpuWalks` | kernel/src/elf_loader.rs:232-248 | in every valid state the walk of the CPU is the page map, for mapped and unmapped pages |
| `Paging.AddressSpace.TranslateIs` | kernel/src/elf_loader.rs:214-222 | `translate_page`, which reads the tables, answers with the frame of a mapped page and fails on all others |
| `Paging.AddressSpace.CpuSees` | kernel/src/elf_loader.rs:232-248 | the byte that the CPU reads on a page mapped here is the byte of the view |
| `ElfLoader.MapRange` | kernel/src/elf_loader.rs:212-250 | all pages of the range are mapped: new ones zero with the given flags, old ones with frame, flags and bytes as before; for want of frames it fails only if the supply is too small for them |
| `ElfLoader.ChunkLength` | kernel/src/elf_loader.rs:263-265 | a chunk has at least one byte and stays within its page and the data |
| `ElfLoader.CopyIn` | kernel/src/elf_loader.rs:253-281 | the chunks together write exactly the data at exactly its addresses; panics exactly if a page of the range is not mapped |
| `ElfLoader.LoadSegment` | kernel/src/elf_loader.rs:166-282 | pages and bytes after one segment, new pages for the program, writable exactly with W and executable exactly with X; "Page should be mapped" fires only if the file size exceeds the memory size; every other panic has its cause |
| `ElfLoader.TouchesIs` | kernel/src/elf_loader.rs:190-193 | the pages of a segment are those that hold one of its bytes |
| `ElfLoader.CopySegment` | kernel/src/elf_loader.rs:252-281 | fails exactly if the file is too short or a page of the copy is not mapped |
| `ElfLoader.LoadSegments` | kernel/src/elf_loader.rs:70-75 | after all headers every byte is the last-writer image and every page has its first segment's flags |
| `ElfLoader.LoadedStep` | kernel/src/elf_loader.rs:70-75 | one more segment keeps the image last-writer-wins and the flags first-wins, also on shared pages |
| `ElfLoader.MapZone` | kernel/src/elf_loader.rs:87-143 | mapping the pool or the heap keeps the image and the flags |
| `ElfLoader.LoadUserElf` | kernel/src/elf_loader.rs:42-163 | the mapped pages are exactly the old ones, the segments', the pool and the heap; all bytes and flags are determined; the entry point is 4 MiB up for a position-independent program and as given for any other; failures are explained |
| `ElfLoader.SegmentImage` | kernel/src/elf_loader.rs:252-281 | with disjoint ranges every segment shows its file bytes followed by zeros, even where segments share pages |
| `ElfLoader.ImageUntouched` | kernel/src/elf_loader.rs:243-248 | an address on a page that no segment reaches has image byte zero |
| `ElfLoader.FirstWins` | kernel/src/elf_loader.rs:195-242 | a page has the flags of the first segment in program order that touches it |
| `ElfLoader.OwnFlagsIff` | kernel/src/elf_loader.rs:195-242 | every segment has its own permissions on all its pages if and only if segments that share a page ask for the same |
| `ElfLoader.SharePageIs` | kernel/src/elf_loader.rs:214-222 | two segments share a page exactly if some page holds bytes of both |
| `ElfLoader.SharedPageLosesWrite` | kernel/src/elf_loader.rs:214-222 | two segments with disjoint ranges on one page of which the second cannot write its data |
| `ElfLoader.FirstFlagsDefault` | kernel/src/elf_loader.rs:84-111 | pages that no segment touches have the pool's flags |
| `UserStack.ReadEncoded` | kernel/src/elf_loader.rs:437-456 | a reader of the start-up block recovers argv, envp and auxv from their encoding, whatever follows it |
| `UserStack.ReadExample` | kernel/src/elf_loader.rs:437-456 | a block with two arguments, one environment string and one pair, in numbers |
| `UserStack.StackWordsEncode` | kernel/src/elf_loader.rs:547-601 | the words that the kernel writes are the encoding of argc 0, empty argv and envp, and seven auxv pairs |
| `UserStack.KernelStartupTells` | kernel/src/elf_loader.rs:497-520 | by tag number: 3 the load address plus the offset of the headers, 4 their size, 5 their number, 6 4096, 7 zero, 9 the entry point, 25 an address 240 above sp |
| `UserStack.HeadersFoundIff` | kernel/src/elf_loader.rs:508-510 | whatever the file holds, the program headers are found where AT_PHDR says if and only if each of their bytes is loaded by a segment whose address equals its offset |
| `UserStack.HeadersMissed` | kernel/src/elf_loader.rs:508-510 | a static executable at 0x400000 whose AT_PHDR points at an unmapped page |
| `UserStack.WriteToStack` | kernel/src/elf_loader.rs:536-545 | writes one word through the page map, and nothing where the page is not mapped |
| `UserStack.WriteVector` | kernel/src/elf_loader.rs:547-601 | on mapped pages no write is dropped: the words stand one above the other |
| `UserStack.MapStack` | kernel/src/elf_loader.rs:477-495 | sixteen new zero pages, or a panic with its cause |
| `UserStack.StackReads` | kernel/src/elf_loader.rs:547-608 | the reader, walking up from the stack pointer, ends at AT_NULL with the kernel's block |
| `UserStack.SetupUserStack` | kernel/src/elf_loader.rs:457-609 | sp is 0x7FFFFFFEFF00, the block that reads back there is right tag by tag, AT_RANDOM points at sixteen zero bytes, the rest of the stack is zero, older pages keep their bytes |
| `KernelBoot.TablesKept` | kernel/src/main.rs:53-65 | building the bitmap leaves the active page tables intact, entry by entry |
| `KernelBoot.PreparePmm` | kernel/src/main.rs:53-60 | fails exactly if no region can hold the bitmap; the bitmap and all free frames are usable RAM |
| `KernelBoot.Prepare` | kernel/src/main.rs:53-65 | bitmap and page map together start in a valid state |
| `KernelBoot.InitHeap` | kernel/src/heap_allocator.rs:71-111 | the 25 pages of the kernel heap are added, writable and not for users, and nothing else; failures are explained |
| `KernelBoot.PrepareHeap` | kernel/src/main.rs:71-75 | the heap's frames come from the supply, are pairwise different and out of reach of everything the loader may write; the supply shrinks by exactly the heap's pages and tables |
| `KernelBoot.PrepareKernel` | kernel/src/main.rs:53-75 | bitmap, page map and heap: every frame in use is the bootloader's table or usable RAM, and so is whatever may be written later |
| `KernelBoot.StartUser` | kernel/src/main.rs:81-87 | the program is ready: pages, flags, image, start-up block on an otherwise empty stack, entry point and sp; every panic is explained, want of frames by the number of pages and tables |
| `KernelBoot.RunUser` | kernel/src/main.rs:81-87 | the same on a kernel that is up: heap, data and table frames stay usable RAM and apart, nothing else is written |
| `KernelBoot.CostSplits` | kernel/src/main.rs:71-87 | the cost of the run is that of the heap and, with the heap's tables there, that of the program |
| `KernelBoot.FramesInOrder` | kernel/src/pmm.rs:101-134 | every table frame is a table of the bootloader or was handed out, and so is the frame of every page |
| `KernelBoot.HeapIsKnown` | kernel/src/heap_allocator.rs:14-19 | the CPU knows 25 pages from 0xffff900000000000 on, writable and for the kernel alone |
| `KernelBoot.SupplyOfRecords` | kernel/src/pmm.rs:89-106 | the frames that may be handed out, over the firmware's records |
| `KernelBoot.BootUser` | kernel/src/main.rs:53-94 | the whole run: the CPU finds the program's bytes, rights, pages, entry point and start-up block at plain addresses, and no page that is not accounted for; all heap, data and new table frames are usable RAM by the firmware's records, not frame 0 and not the bitmap; nothing else is written; where nothing stands in the way it succeeds exactly if the free frames cover the new pages and tables |
| `Program.UserImage` | kernel/src/main.rs:81-87 | byte `k` of every segment of disjoint ranges is at 0x400000 + vaddr + k if the program is position-independent and at vaddr + k if not: a byte of the file, or zero behind them |
| `Program.UserFlags` | kernel/src/main.rs:81-87 | after the run every segment has its own permissions if and only if segments that share a page agree on them |
| `Program.ProgramIsShown` | kernel/src/elf_loader.rs:59-75 | the same of what the CPU reads in memory |
| `Program.ProgramHasRights` | kernel/src/elf_loader.rs:195-208 | where segments that share a page have equal W and X, the CPU lets the program use every byte of every segment, write it exactly with W and execute it exactly with X |
| `Program.LowerHalfIs` | kernel/src/elf_loader.rs:77-143 | the CPU knows in the lower half the pages that were there, those that hold a byte of a segment, and those of pool, heap and stack at 0x480000, 0x8000000 and below 0x7FFFFFFF0000, and no others; zone pages of no segment are writable and not executable |
| `KernelBoot.CpuSeesView` | kernel/src/pml4.rs:7-30 | every byte of the view is the byte that the CPU reads through the tables |
| `Mmap.MmapPool.SysMmap` | kernel/src/syscalls.rs:372-405 | a request for an address from 0x1000 up returns it and leaves the pool alone; a pool request is honoured exactly if its rounded end fits 64 bits; all results with wrap-around |
| `Mmap.HonouredIff` | kernel/src/syscalls.rs:382-397 | a pool request gets whole fresh pages, or ENOMEM with nothing changed, exactly if its rounded end fits 64 bits |
| `Mmap.WrappedRequests` | kernel/src/syscalls.rs:383-395 | two requests for nearly 2^64 bytes that are granted wrongly |
| `Mmap.RunSafe` | kernel/src/syscalls.rs:372-405 | over any run without overflow, granted ranges are page aligned, inside the pool and pairwise disjoint |
| `Mmap.GrantedPagesReady` | kernel/src/elf_loader.rs:77-111 | granted pages were mapped user-writable, not executable, and zero, if nothing else reaches the pool |
| `Console.DecodeConcat` | kernel/src/syscalls.rs:304-310 | text before other bytes decodes to itself followed by what they decode to; it cannot hide bad bytes |
| `Console.AsciiIsText` | kernel/src/syscalls.rs:304-308 | ASCII bytes are valid text and decode to themselves |
| `Console.DecodeIff` | kernel/src/syscalls.rs:304-308 | bytes are the text `cs` exactly if they are the UTF-8 form of `cs`: scalar values only, shortest forms only |
| `Console.LeadsOfText` | kernel/src/syscalls.rs:304-308 | valid text has one lead byte per character |
| `Console.Consoles.SysWrite` | kernel/src/syscalls.rs:293-319 | descriptors 1 and 2: text to both consoles, other bytes to the screen alone, and the count; any other descriptor: nothing, and -9 |
| `Console.Consoles.SysWritev` | kernel/src/syscalls.rs:557-576 | the loop has the effect of the buffers in order, stopping at the first negative result |
| `Console.WritevIsWrite` | kernel/src/syscalls.rs:557-576 | equals one write of the joined bytes exactly if every buffer is text, or neither the joined bytes nor any non-empty buffer is |
| `Console.WritevResult` | kernel/src/syscalls.rs:559-575 | on a good descriptor the result is the number of joined bytes |
| `Console.SerialMisses` | kernel/src/syscalls.rs:304-316 | a character cut in two between buffers is missing on the serial line |
| `Console.CutCharacter` | kernel/src/syscalls.rs:304-316 | the letter U+00E9 in two buffers: other bytes on the screen and nothing on the serial line |
| `Console.WritevBadFd` | kernel/src/syscalls.rs:295-297 | a bad descriptor emits nothing and gives -9 once there is a buffer, 0 without one |
| `SyscallEntry.PushAll` | kernel/src/syscalls.rs:122-141 | pushed registers lie one below the other and nothing else in memory changes |
| `SyscallEntry.PopAll` | kernel/src/syscalls.rs:184-201 | popping in reverse order brings each register back from its own slot |
| `SyscallEntry.BeforeCall` | kernel/src/syscalls.rs:109-178 | the handler gets rax, rdi, rsi, rdx, r10, r8, r9 in its seven argument places, and the user's registers are saved |
| `SyscallEntry.AfterCall` | kernel/src/syscalls.rs:182-205 | after any handler within the psABI the stub brings all registers but rax back to their values at its start |
| `SyscallEntry.SysretRestores` | kernel/src/syscalls.rs:98-107 | SYSRET brings flags back unchanged exactly if reserved bits have their fixed values and RF and VM are off |
| `SyscallEntry.SysretBits` | kernel/src/syscalls.rs:104-107 | SYSRET takes from R11 the flags of mask 0x3C7FD7 and sets flag 1 |
| `SyscallEntry.Transparent` | kernel/src/syscalls.rs:86-209 | one call, from SYSCALL to SYSRET, for every register file and every handler within the psABI: arguments, interrupts off, return to the saved RIP with the saved flags, rcx and r11 as SYSCALL set them, rax the result, all else as before |
| `SyscallEntry.RunTransparent` | kernel/src/syscalls.rs:95-209 | over any run of user code on registers, flags and memory with any number of calls, the program goes on after each call with only rax, rcx and r11 changed |
| `SyscallEntry.CallAlignment` | kernel/src/syscalls.rs:215-230 | RSP is a multiple of 16 at the call exactly if the stack top is; the kernel's stack top makes it 8 modulo 16 |
| `Keyboard.RingAdd` | kernel/src/interrupts.rs:199-210 | the ring is full exactly with 63 scancodes; otherwise storing appends to the circular slice |
| `Keyboard.RingPop` | kernel/src/interrupts.rs:212-223 | equal cursors mean an empty slice; otherwise the tail is its first element and moving on drops it |
| `Keyboard.KeyboardBuffer.AddScancode` | kernel/src/interrupts.rs:199-210 | appends, or drops the scancode only when 63 are waiting |
| `Keyboard.KeyboardBuffer.PopScancode` | kernel/src/interrupts.rs:212-223 | hands out the oldest scancode, or None exactly if none is waiting |
| `Keyboard.Drive` | kernel/src/interrupts.rs:199-223 | any interleaving gives the answers of a bounded queue |
| `Keyboard.FifoOrder` | kernel/src/interrupts.rs:41-55 | what was stored is what came out followed by what is left, in order |
| `IrqLocks.HandlersBalanced` | kernel/src/interrupts.rs:176-193 | the handlers take only PICS and KEYBOARD_BUFFER and give back what they take |
| `IrqLocks.InterruptReturns` | kernel/src/interrupts.rs:176-193 | an interrupt that runs to its end gives the interrupted state back, flag included |
| `IrqLocks.ProcedureReturns` | kernel/src/interrupts.rs:212-223 | a procedure that is not interrupted ends with no lock held and the interrupt flag as it was |
| `IrqLocks.InvStep` | kernel/src/interrupts.rs:176-223 | every step of procedures, interrupts and handlers keeps the lock invariant |
| `IrqLocks.KernelGuarded` | kernel/src/interrupts.rs:212-270 | every kernel procedure holds a lock that a handler wants only inside `without_interrupts` |
| `IrqLocks.KernelNeverSpins` | kernel/src/interrupts.rs:176-270 | in every reachable state nobody waits for a lock that is taken, and some step is possible |
| `IrqLocks.SafeIffGuarded` | kernel/src/interrupts.rs:255-270 | a set of balanced procedures is free of such waiting if and only if all are guarded |
| `IrqLocks.BreakRun` | kernel/src/interrupts.rs:255-270 | from any unguarded procedure, a run in which a handler waits forever |
| `Grid.ScreenIsWindow` | kernel/src/screen.rs:66-113 | the scrolling screen shows the last lines of the unbounded page, with deferred wrap |
| `Grid.PageLineFeed` | kernel/src/screen.rs:66-90 | byte 10 ends a line: the page is that of the text before it, then that of the text after it |
| `Grid.PageCuts` | kernel/src/screen.rs:66-79 | text without byte 10 is cut into lines of the width of the screen |
| `Grid.CutAt` | kernel/src/screen.rs:66-79 | character `k` is then in line k / width, column k % width |
| `Screen.ConvertTwice` | kernel/src/screen.rs:33-50 | converting a 24-bit colour twice gives it back |
| `Screen.ConvertBytes` | kernel/src/screen.rs:33-50 | the bytes of a pixel in memory: red, green, blue on RGB screens, blue, green, red on others |
| `Screen.InitialBackground` | kernel/src/screen.rs:188-198 | the stored background is the converted one exactly if the screen is not RGB |
| `Screen.FrameBufferWriter.Clear` | kernel/src/screen.rs:52-64 | the visible screen in one colour, the padding of the rows untouched; in the background colour it shows the empty page |
| `Screen.FrameBufferWriter.MoveToStart` | kernel/src/screen.rs:99-104 | the overlapping copy moves the old contents, not ones already overwritten |
| `Screen.FrameBufferWriter.ScrollUp` | kernel/src/screen.rs:92-113 | a pure shift of all rows by one cell, then background, over the whole stride |
| `Screen.FrameBufferWriter.NewLine` | kernel/src/screen.rs:81-90 | a screen that shows some lines shows those lines and a new empty one, scrolled if there was no room |
| `Screen.FrameBufferWriter.ClearRemainder` | kernel/src/screen.rs:150-170 | painting the rest of the line keeps the picture |
| `Screen.FrameBufferWriter.DrawGlyph` | kernel/src/screen.rs:115-148 | pixel (sy, sx) of block (row, col) takes the text colour exactly if glyph[row] / 2^col is odd, the lowest bit on the left; nothing outside the cell or the screen changes |
| `Screen.FrameBufferWriter.DrawChar` | kernel/src/screen.rs:115-148 | as DrawGlyph, and a byte without a glyph draws nothing |
| `Screen.FrameBufferWriter.WriteByte` | kernel/src/screen.rs:66-79 | a screen that shows some lines shows the lines with the byte put on them |
| `Screen.FrameBufferWriter.WriteStr` | kernel/src/screen.rs:175-182 | the same for any text |
| `Screen.FrameBufferWriter.ClearAndWrite` | kernel/src/screen.rs:52-182 | from a cleared screen on, after any bytes, the pixels are the picture of the last lines of the text |
| `Screen.FrameBufferWriter.Drive` | kernel/src/screen.rs:20-172 | any mix of writes, clears, colours and scales stays inside the buffer and keeps the cursor on the screen, exactly up to the first line break with cells taller than the screen |
| `Screen.FittingScales` | kernel/src/screen.rs:21-23 | with scales that fit the screen no such break happens |
| `Screen.TallScale` | kernel/src/screen.rs:81-113 | any other scale followed by a newline is one |
| `Screen.PixelScroll` | kernel/src/screen.rs:92-113 | shifting the picture by a cell is dropping the first line |
| `Screen.PixelAppend` | kernel/src/screen.rs:115-148 | a new character changes the picture in its own cell only, and that cell was blank |
| `Screen.PixelOfCharacter` | kernel/src/screen.rs:115-148 | in the picture, pixel (sy, sx) of block (row, col) of the character at line r, column c has the text colour exactly if its glyph[row] / 2^col is odd |
| `Screen.PixelElsewhere` | kernel/src/screen.rs:115-119 | everywhere else the picture is background: behind the end of a line, below the text, for unknown characters |
| `BootPaging.BumpAllocator.AllocateFrame` | uefi_boot/src/main.rs:41-53 | hands out the next frame, or None exactly if the pool is used up |
| `BootPaging.BootMapper.EnsureTable` | uefi_boot/src/main.rs:192-201 | a missing table costs exactly one frame, its own; frames left plus tables is constant |
| `BootPaging.BootMapper.MapSmall` | uefi_boot/src/main.rs:192-201 | a 4 KiB page costs the missing tables on its path; each failure has its cause |
| `BootPaging.BootMapper.MapHuge` | uefi_boot/src/main.rs:284-289 | a 2 MiB page costs the missing tables on its path; each failure has its cause |
| `BootPaging.BootMapper.MapHhdm` | uefi_boot/src/main.rs:269-290 | with errors dropped, the direct map is complete if and only if the pool can pay for the missing tables |
| `BootPaging.BootMapper.MapIdentity` | uefi_boot/src/main.rs:307-323 | with errors dropped, a page is missed only if another is in its way or the pool is empty |
| `BootPaging.BootMapper.MapPages` | uefi_boot/src/main.rs:190-201 | consecutive pages to consecutive frames; old pages keep their frames |
| `BootPaging.BootMapper.MapStack` | uefi_boot/src/main.rs:207-234 | every stack page gets a frame of the pool that is no other page's, no table and not the root |
| `BootPaging.MapSegments` | uefi_boot/src/main.rs:149-205 | all segments are placed; pages of different segments never clash, so only an empty pool fails |
| `BootPaging.MapKernel` | uefi_boot/src/main.rs:149-234 | segments and stack, and success whenever tables and stack fit the pool |
| `BootPaging.MapRest` | uefi_boot/src/main.rs:269-391 | direct map, trampoline and framebuffer: complete if the pool can pay for the plan, and nothing mapped before moves |
| `BootPaging.CompleteHasTables` | uefi_boot/src/main.rs:118-391 | a map that has everything has all the tables of the plan |
| `BootPaging.Setup` | uefi_boot/src/main.rs:118-391 | kernel, stack, direct map, trampoline and framebuffer are all mapped right if and only if the tables of the plan and six frames fit the pool; root, tables and stack have different frames and no other is taken |
| `BootPaging.LevelSize` | uefi_boot/src/main.rs:277-290 | the number of tables of one level over a range of pages |
| `BootPaging.SmallNeedIs` | uefi_boot/src/main.rs:190-201 | 4 KiB pages need at levels 1, 2 and 3 the tables they lie under |
| `BootPaging.HugeNeedIs` | uefi_boot/src/main.rs:277-290 | 2 MiB pages need at levels 2 and 3 the tables they lie under |
| `BootPaging.BootLayout` | uefi_boot/src/main.rs:207-215 | the addresses of direct map, kernel, stack and framebuffer, and the size of the pool |
| `BootPaging.HhdmNeedSize` | uefi_boot/src/main.rs:269-290 | the direct map needs exactly one table per GiB and one per 512 GiB, rounded up |
| `BootPaging.SmallNeedBound` | uefi_boot/src/main.rs:366-391 | a bound on the tables of a range of 4 KiB pages, wherever it starts |
| `BootPaging.BudgetBound` | uefi_boot/src/main.rs:118-391 | the tables of the whole plan are at most a sum of memory, kernel and framebuffer sizes |
| `BootPaging.HhdmIdentity` | uefi_boot/src/main.rs:277-290 | a complete direct map translates HHDM + p to p for every p below the end of memory |
| `BootPaging.MaxPhysAddr` | uefi_boot/src/main.rs:247-261 | a 2 MiB multiple that no region passes, and the least such |
| `BootImage.LoadPiece` | uefi_boot/src/main.rs:159-178 | the file bytes and then zeros in the piece, nothing else; fails exactly if the file is too short |
| `BootImage.LoadKernel` | uefi_boot/src/main.rs:149-205 | after all segments every piece holds its own segment |
| `BootImage.RightIffAligned` | uefi_boot/src/main.rs:170-201 | the image of any segment that is not empty is right for every file and memory if and only if the segment starts on a page |
| `BootImage.PlacedTranslates` | uefi_boot/src/main.rs:180-201 | the mapping loop leads every address of a segment to its place in the piece |
| `BootImage.BootBytes` | uefi_boot/src/main.rs:149-205 | through the bootloader's tables every byte of every page-aligned segment is the image's byte |
| `BootImage.LoadersAgree` | uefi_boot/src/main.rs:149-205 | it is also the byte that a program reads after the kernel's page-by-page loader has loaded the same headers and file |
| `BootImage.BootKernel` | uefi_boot/src/main.rs:118-391 | loading and mapping together: the kernel that the tables show is the kernel's image, and within the size bound only a short file fails |

## Left out

- `OffsetPageTable` of the x86_64 crate is modelled from its contract: `map_to` follows or makes three tables, adds the rights of the page to their entries, and refuses a used entry or a 2 MiB page. TLB flushes, and the accessed and dirty bits that the CPU sets by itself, are not modelled.
- Virtual pages are numbered on 48 bits; the sign extension of canonical addresses is not modelled, and a user segment is required to end within the lower half.
- ElfLoader.CopyIn: requires that the range has no page that was mapped before the kernel's loader started; the source would write through it, into memory of the bootloader that this model does not describe.
- ElfLoader.LoadSegment: the same for all pages of the segment.
- ElfLoader.LoadUserElf: the same for all pages of all segments.
- Physical memory is addressed directly: the addition of the HHDM offset before every access is not modelled in the kernel part. That the HHDM maps p to p is `BootPaging.Setup`.
- `ElfFile` parsing by xmas_elf: program headers and header fields are parameters. Relocations are not modelled; the kernel does not call them.
- `KernelBoot.BootUser`: requires that the tables left by the bootloader lie outside usable RAM and that memory holds exactly the tables described, each entry being a table, a 4 KiB page, a 2 MiB page or zero. That the bootloader leaves such tables is not proved: its own model has no memory.
- The kernel heap's allocator (linked_list_allocator) is not modelled, its pages are.
- `Mmap.RunSafe`: requires that no request overflows at its turn; `Mmap.HonouredIff` says what happens otherwise.
- `Console`: reading the iovec array and the buffers from user memory; buffers are byte strings.
- `SyscallEntry`: kernel and user memory are two maps from addresses to words, as every slot of the stub is eight bytes from the next; partial overlaps, segment selectors, non-canonical return addresses and a second entry before `TEMP_RSP` is read are not modelled.
- `sys_brk`, `sys_getrandom`, `sys_fstat` and the stub system calls: each is read off one branch. `sys_brk` accepts any address that is not zero, although 1 MiB is mapped.
- Screen.FrameBufferWriter.WriteStr: the picture is stated for a fixed scale and fixed colours; a change of scale close to the bottom leaves clipped text. `Drive` covers changes of scale for memory safety only.
- `IrqLocks`: exceptions, the panic path and the lazy initialisation of statics; a second CPU; nested interrupts, which the gates of both handlers exclude.
- `BootPaging.Setup`: requires kernel segments on different pages at or above 0xffff_ffff_8000_0000, the bootloader's code in the lower half, and a framebuffer that starts on a page; leaf permission bits and NO_CACHE are not modelled. An empty memory map, for which the source computes `max_phys_addr - 1`, is a plan without direct map.
- `BootImage.LoadKernel`: requires that segments are not empty; the pieces of memory that UEFI hands out are parameters.
- `BootPaging.MaxPhysAddr`: 64-bit overflow of region ends.
- UEFI file and graphics calls, GDT, TSS, IDT, PIT, PIC and MSR programming, `enter_userspace`, serial port access, logging and panic output: effects on hardware or text for humans.
