# Verified model of mini-os-kernel

A Dafny model of the parts of the kernel where correctness spans several functions: the memory stack
(`kmalloc`/`kfree` over two-level paging over a stack of page frames), kernel threads and their context switch,
the `printk` formatter, the scrolling console, and the keyboard. `dafny verify dfyconfig.toml` checks the whole
project.

## How the model is laid out

| module | what it models |
|---|---|
| `Words` | bytes, 32-bit words, little-endian access, rounding macros, bitwise or |
| `Pmm` | the frame stack and its filling from the Multiboot memory map (section 3.3 of the Multiboot Specification) |
| `Paging` | page-table entries and the hardware walk of section 4.3 of Intel SDM Vol. 3A, as functions of physical memory |
| `Vmm` | `init_vmm`, `map`, `unmap`, `get_mapping`: every table access is itself translated through the direct map |
| `Layout` | who owns which frame (free, heap page, page table), and the heap as one flat byte array |
| `Chunks` | the chunk list as a value: tiling, canonical form, first fit |
| `Heap` | `kmalloc`, `kfree` and their helpers over headers that lie in the paged memory itself |
| `HeapRuns`, `Boot` | whole runs of heap requests against an allocator on values; the initialisation order |
| `Switch`, `Threads` | `switch_to` instruction by instruction; `init_sched`, `schedule`, `kernel_thread` |
| `ThreadRuns` | whole runs of threads as programs that call `schedule` and `kernel_thread` |
| `Number`, `NumberReading` | `number()` and an independent parser for its output |
| `Printk`, `Formats`, `Printed` | `vsprintf`, a grammar of format strings, and what each conversion letter prints |
| `Console` | the 25-row video buffer as a window onto an endless sheet |
| `KeyBuffer`, `Keymap`, `Keyboard`, `KeyEvents` | the interrupt-fed ring buffer, the key table, the decoder, and key events with their encoding |

Physical memory is a sequence of bytes of 512 MB. A heap header is read and written as four bytes, each translated
by the hardware walk, so a header may lie across two frames. Page tables lie in the same memory and are reached
through the window at 0xC0000000, which the tables themselves define; that every edit keeps that window is part of
the invariant `Paging.Valid`.

## Assumptions

- A failed `assert` and the page-fault handler never return. An out-of-memory or stack-overflow panic is a result
  value of the method; contracts say exactly when it happens, and promise nothing about the state after it.
- The memory map handed to `Boot.Start` has reachable, non-overlapping type-1 regions that end at or below 512 MB:
  the code does not check this, and frames above would be outside the direct map.
- `kmalloc` is not asked for a block whose end would wrap the 32-bit address space (`HeapRuns.ServableIff` says which
  requests these are), and `kfree` is called on live pointers.
- The kernel ends above the first page and below the last page of the 32-bit space (it is linked at 1 MB).
- `schedule` and `kernel_thread` run as one step, with interrupts masked as on the timer path
  (`kern/driver/clock.c:7-11`). The idle loop at `kern/init/entry.c:114-116` calls `schedule` with interrupts on.
- A thread writes only its own stack and data outside the thread blocks that exist at the time, calls with room on its
  stack, and its thread function does not return (`ThreadRuns.WellBehaved`).
- The write bit of a page counts as when CR0.WP is set (section 4.6 of Intel SDM Vol. 3A). The kernel leaves CR0.WP clear,
  which forbids no write that is allowed here.
- The processor does not mark page-table entries: the accessed and dirty bits, which the kernel never reads, stay 0.
- No byte is dropped between keyboard and reader where a round trip is claimed; `KeyBuffer.LossIff` says when that is so.
- Static kernel variables other than the page directory and the page tables (the frame stack, `heap_max`,
  `heap_first`, the ring pointers) are object fields and not bytes of the modelled memory.

## Where the code falls short of its intent

- `init_pmm` drops the high words of an entry, and adds and rounds up in 32 bits. `Pmm.EntryExactIff` says for every
  type-1 entry when it is handled exactly: one with a usable page, if and only if it ends below 4 GB; one without, if and
  only if its low words are not a sliver inside the last page of the 32-bit space. `Pmm.HighRegionMisread` and
  `Pmm.SliverMisread` are entries for which low memory is pushed instead.
- `get_mapping` tests an entry for being nonzero, the hardware tests the present bit: `Paging.LookupAgreesIff`; they
  disagree for PAGE_WRITE alone, `Paging.WriteAloneFaults`.
- `map` and `unmap` do not protect the direct map they work through: their contracts say that it survives if and only if
  the page is not one of its own (or is mapped to where it already was). `Paging.WindowPageLost` is a page that is lost.
- The heap's comment promises the smallest hole that fits (`kern/mm/heap.c:2`); the code takes the first. The two agree
  for every request if and only if the holes are so ordered: `Chunks.BestFitIff`; `Chunks.FirstIsNotBest` is a list and a
  request where they differ.
- `kmalloc` and `alloc_chunk` use sums that can wrap. `HeapRuns.ServableIff` says for which requests they do. Such a
  request gets a hole that is too small (`HeapRuns.HoleTooSmall`), or a block of which some byte is not mapped
  (`HeapRuns.GrowTooFar`); `HeapRuns.FirstRequestTooLarge` is one.
- `vsprintf` never steps past a `*`: a directive is read as meant if and only if it holds none (`Formats.DirectiveReadIff`),
  and with one it prints `%*` and goes on right behind the star (`Formats.StarIsNotHonoured`, `Formats.StarWidthPrinted`).
- Right Alt sets the left Alt flag, and nothing sets the right one: `KeyEvents.AltFlagsIff` says after which events either
  flag is right, `KeyEvents.AltRecoversIff` when a wrong one is put right, `KeyEvents.AltLost` is a sequence that breaks it.
- PrintScreen and Pause are recognised, but the key is never passed to `in_process`: `KeyEvents.SwallowedIff`,
  `KeyEvents.AllReportedIff` and, for the two presses, `KeyEvents.PressesSwallowed`.
- A PrintScreen press that breaks off reports a key 0, and the byte that did not fit is lost, as it is in a broken Pause:
  `KeyEvents.BrokenPrintScreen`, `KeyEvents.BrokenPause`.

## Model

| member | source | states |
|---|---|---|
| Pmm.Pmm.AllocPage | kern/mm/pmm.c:42-46 | pops the top frame; panics exactly on an empty stack |
| Pmm.Pmm.FreePage | kern/mm/pmm.c:48-52 | pushes a frame; panics exactly on a full stack |
| Pmm.Pmm.InitPmm | kern/mm/pmm.c:11-40 | the stack holds the pages of the map in order, `phy_page_count` is its height; panics exactly when they are more than PAGE_MAX_SIZE |
| Pmm.MapExact | kern/mm/pmm.c:17-39 | for reachable regions, a page is pushed if and only if it is aligned, above the kernel and wholly inside a type-1 region |
| Pmm.MapNoDup | kern/mm/pmm.c:17-39 | for regions that do not overlap no page is pushed twice |
| Pmm.EntryExactIff | kern/mm/pmm.c:21-37 | for every type-1 entry: handled exactly if and only if it ends below 4 GB, or, when no page of it is usable, if its start does not wrap in ROUNDUP |
| Pmm.HighRegionMisread | kern/mm/pmm.c:22-23 | a region above 4 GB for which low pages are pushed |
| Pmm.SliverMisread | kern/mm/pmm.c:25-37 | a region below 4 GB without a usable page for which page 0 is pushed |
| Paging.WalkIsPte | kern/mm/vmm.h:12-22 | on the tables the kernel builds, the hardware walk is the table entry's frame plus offset, and faults without the present bit; stores also need the entry's write bit; user mode reaches nothing |
| Paging.DirectWalk | kern/mm/vmm.c:16-28 | every physical address from 0x1000 to 512 MB is reached at PAGE_OFFSET above it, for reading and writing |
| Paging.BootWalk | kern/mm/vmm.c:16-28 | after `init_vmm` the hardware sends exactly [0xC0001000, 0xE0000000) to va - 0xC0000000, for reading and writing, and faults elsewhere; user mode faults everywhere |
| Paging.BootWords | kern/mm/vmm.c:19-28 | the words themselves: directory entries from 768 and table entries, each with bits 0 and 1 set and no other flag |
| Paging.BootValid | kern/mm/vmm.c:16-28 | `init_vmm` establishes the paging invariant and leaves every other page without an entry |
| Vmm.Vmm.InitVmm | kern/mm/vmm.c:14-36 | the two filling loops build exactly those directory and table words and touch nothing else |
| Vmm.Vmm.Map | kern/mm/vmm.c:87-111 | for any page and flags: finite-map update at one page, also when a fresh table is hung and cleared; all memory outside directory and table survives; the direct map does if and only if the page is not its own or keeps its entry; panics exactly when a table is needed and no frame is free |
| Vmm.Vmm.BzeroTable | kern/mm/vmm.c:99-101 | clearing the new table through the direct map while it is already live |
| Vmm.Vmm.Unmap | kern/mm/vmm.c:114-132 | for any page: removes it from the finite map and keeps its table; the direct map survives if and only if the page is not its own |
| Vmm.Vmm.GetMapping | kern/mm/vmm.c:135-155 | looks a page up in the finite map |
| Paging.LookupAgreesIff | kern/mm/vmm.c:149-154 | after a map, lookup and hardware agree on whether the page is mapped if and only if PAGE_PRESENT was given or the entry is 0; with PAGE_PRESENT the hardware reaches the rounded frame; it can be written if and only if PAGE_WRITE was given too |
| Paging.WriteAloneFaults | kern/mm/vmm.c:108 | with PAGE_WRITE alone the lookup finds a page on which the hardware faults |
| Paging.WindowPageLost | kern/mm/vmm.c:108 | an entry for a page of the direct map that takes its frame out of it |
| Paging.SetPte | kern/mm/vmm.c:108 | one table store changes one page's entry and no directory entry |
| Paging.FrameWrite | kern/mm/vmm.c:87-111 | writing in a frame that is no table changes no translation |
| Words.OrBits | kern/mm/vmm.c:108 | the or of flags and addresses, bit by bit |
| Words.LittleEndian | kern/mm/heap.h:10-16 | which byte of memory holds which part of a word |
| Layout.FramesPartition | kern/mm/pmm.c:42-52 | free frames, heap pages and heap page tables are duplicate-free, pairwise disjoint and together all frames owned |
| Layout.HeapWalk | kern/mm/heap.c:97-106 | every byte of the heap is mapped, writable, to the frame its layout names |
| Layout.StoreKeeps | kern/mm/heap.c:42-170 | a store to a heap byte changes one byte of the flat heap and no translation |
| Layout.StoreInside | kern/mm/heap.c:42-170 | ... and no physical byte outside the heap's own frames |
| Layout.GrowLaid | kern/mm/heap.c:100-105 | one page of growth keeps the whole layout, its ownership and all old heap bytes |
| Layout.ShrinkLaid | kern/mm/heap.c:118-125 | giving the last page back keeps the layout and the bytes below |
| Chunks.LiveDetermines | kern/mm/heap.c:42-170 | canonical form: two well-formed lists with the same live (address, length) pairs are identical |
| Chunks.EmptyLive | kern/mm/heap.c:108-115 | nothing live if and only if the list is empty |
| Chunks.TakeKeeps | kern/mm/heap.c:128-145 | splitting and allocating a hole keeps the list tiled and canonical and adds one live pair: exactly the need, or the whole hole where at most a header would be left |
| Chunks.ReleaseKeeps | kern/mm/heap.c:147-170 | one merge on each side and dropping a free tail coalesce fully: the list stays canonical and loses exactly one live pair |
| Chunks.AllocateKeeps | kern/mm/heap.c:42-85 | first fit or growth: lowest hole that fits, a new address, the size bounds, canonical list |
| Chunks.FreeUndoesAlloc | kern/mm/heap.c:42-94 | kfree(kmalloc(n)) restores the list exactly |
| Chunks.FreesCommute | kern/mm/heap.c:87-94 | freeing two blocks in either order gives the same list |
| Chunks.BestFitIff | kern/mm/heap.c:2-63 | first fit finds the smallest hole that fits for every request, if and only if a hole smaller than one before it has its size already among the holes before that one |
| Chunks.FirstIsNotBest | kern/mm/heap.c:2-63 | a list and a request for which the smallest hole is not taken |
| Heap.Heap.constructor | kern/mm/heap.c:37-40 | from what init_pmm and init_vmm leave, a valid empty heap that owns the free frames |
| Heap.Heap.Kmalloc | kern/mm/heap.c:42-85 | first-fit refinement, new block of len to len + 12 bytes, no other payload byte changes and no memory outside the heap's frames and the directory, pages mapped as needed; panics exactly when no hole fits and frames and tables needed exceed the free ones |
| Heap.Heap.Kfree | kern/mm/heap.c:87-94 | exactly that block leaves the live set, the list is canonical again, pages above it are given back, no other payload byte changes and no memory outside the heap's frames and the directory, frames are conserved |
| Heap.Heap.AllocChunk | kern/mm/heap.c:97-106 | for any start and length: maps pages up to the 32-bit sum and no further, keeps the old bytes; the block is mapped if and only if the sum does not wrap; panics exactly when the frames do not suffice |
| Heap.Heap.FreeChunk | kern/mm/heap.c:108-126 | unlinks the last chunk and gives back every whole page above its start, never a byte of a remaining chunk |
| Heap.Heap.SplitChunk | kern/mm/heap.c:128-145 | the five link writes and three bit-field writes leave memory holding the split list |
| Heap.Heap.GlueNext | kern/mm/heap.c:149-155 | memory holds the list with a free successor merged |
| Heap.Heap.GluePrev | kern/mm/heap.c:157-164 | memory holds the list with a free predecessor merged |
| Heap.Heap.GlueChunk | kern/mm/heap.c:147-170 | both merges and the drop of a free tail |
| Heap.FieldStore | kern/mm/heap.h:10-16 | storing one header word changes no other header word and no payload |
| HeapRuns.Run | kern/mm/heap.c:42-170 | every run of requests and stores, whatever they are: each request is answered as promised to callers (new pointer, given up, byte remembered, no trace); list, pages and panic are those of the allocator on values; pointers are never handed out twice; after freeing everything the list is empty and at most one page is mapped |
| HeapRuns.Step | kern/mm/heap.c:42-170 | one request: what it does to the pointers held and the bytes stored, in terms of the history alone; it fails exactly when the frames do not suffice |
| HeapRuns.NextAnswers | kern/mm/heap.c:42-94 | the allocator on values does that to the history in every state a heap can be in |
| HeapRuns.BlockUsable | kern/mm/heap.c:42-170 | in every state of a run, each byte of a held block can be written through the page tables, and a stored byte is read back through them |
| HeapRuns.ListInMemory | kern/mm/heap.h:10-16 | the three words of every header: links to both neighbours, allocated bit and length; the next chunk begins where this one ends |
| HeapRuns.BootTest | kern/init/entry.c:95-107 | the kernel's own test: the three pointers it prints, and an empty list at the end |
| HeapRuns.RunsMeet | kern/mm/heap.c:42-170 | canonical form over runs: two scripts that leave the same blocks behind leave the same list |
| HeapRuns.HeldIff | kern/mm/heap.c:87-94 | in every state of a run, a pointer is held by a caller if and only if it leads to an allocated chunk |
| HeapRuns.BlocksDisjoint | kern/mm/heap.c:42-170 | blocks are pairwise disjoint and each of their bytes is mapped |
| HeapRuns.MappedIff | kern/mm/heap.c:97-126 | a heap address is mapped if and only if it is below heap_max, which is page-aligned and within a page of the list's end |
| HeapRuns.ServableIff | kern/mm/heap.c:44-78 | the block that kmalloc picks with its 32-bit sum ends inside the address space if and only if the request is one that callers may make |
| HeapRuns.HoleTooSmall | kern/mm/heap.c:45-58 | a request that is not servable gets a hole too small for it, if it gets a hole |
| HeapRuns.GrowTooFar | kern/mm/heap.c:66-100 | any other request that is not servable: alloc_chunk returns with some byte of the block not mapped, and without having mapped a page if only its own sum wraps |
| HeapRuns.FirstRequestTooLarge | kern/mm/heap.c:100 | a request on an empty heap for which no page is mapped |
| Boot.Start | kern/init/entry.c:79-83 | the three initialisations in order give a valid empty heap that owns exactly the usable frames; the frame stack cannot overflow |
| Boot.StartAndRun | kern/init/entry.c:79-83 | from the memory map to any script of requests: each is answered as promised, on as many frames as the map has usable pages, out-of-memory panic included; empty again when everything is freed |
| Boot.ThreadBlocksApart | kern/process/proc.c:15 | in every state of a heap run, the blocks held for thread stacks lie apart from each other and from the boot stack, as a run of threads asks |
| Switch.Machine.SaveContext | kern/schedule/switchasm.S:4-15 | the outgoing context receives the registers and flags of the call |
| Switch.Machine.LoadContext | kern/schedule/switchasm.S:17-29 | the registers become those of the incoming context and ret leaves to its return address |
| Switch.Machine.SwitchTo | kern/schedule/switchasm.S:3-29 | both, and memory changes only in the outgoing context and in the scratch word below each stack pointer |
| Switch.ContextWords | kern/schedule/switchasm.S:6-24 | which word of a saved context holds which register |
| Threads.Scheduler.constructor | kern/schedule/sched.c:14-28 | a ring of one thread, the boot code, with pid 0 |
| Threads.Scheduler.Schedule | kern/schedule/sched.c:31-49 | the next thread of the ring continues with the registers of its last suspension; the caller's state is saved; ring, pids and all other threads are untouched |
| Threads.Scheduler.KernelThread | kern/process/proc.c:13-44 | the ring grows at its end, pids follow creation order; the new thread will enter fn with kthread_exit as return address, arg as argument and interrupts on |
| Threads.Scheduler.Work | kern/schedule/sched.c:31-49 | any code of the running thread that keeps to its own stack keeps every suspended thread |
| Threads.RingInMemory | kern/process/proc.c:36-40 | pid and links of every control block, at their offsets |
| ThreadRuns.Turn | kern/schedule/sched.c:31-49 | one step of a run: the running thread's code, then its call, with memory, registers and history after it |
| ThreadRuns.Run | kern/schedule/sched.c:31-49 | for all thread code that keeps to its stack, with schedule and kernel_thread called in any order: from the world before to the world after, every step is that of the thread whose turn it is, switching to the next or creating a thread |
| ThreadRuns.GoesOn | kern/schedule/switchasm.S:3-29 | in every run, a thread that calls schedule next continues at the return address of that call with the same ebp, ebx, esi, edi, flags and stack |
| ThreadRuns.EntersItsFunction | kern/process/proc.c:27-35 | in every run, a created thread starts at its function with kthread_exit as return address, its argument and interrupts on |
| Threads.ResumesWhereItStopped | kern/schedule/switchasm.S:3-29 | in every valid scheduler state's history, a resumed thread finds registers, return address and stack of its last suspension or creation |
| ThreadRuns.EachRunsOnce | kern/schedule/sched.c:31-36 | wherever in a run n calls of schedule follow each other on n threads, each thread runs after exactly one of them, and the last comes back to the first |
| ThreadRuns.GoesRound | kern/schedule/sched.c:31-36 | ... in creation order, from whichever thread runs |
| Number.PutNumber | kern/debug/printk.c:63-144 | writes exactly the text NumberText; fails exactly for a base outside 2 to 36 |
| Number.NumberLength | kern/debug/printk.c:88-141 | the length is the field width or sign, prefix and digits or precision, whichever is larger |
| Number.AtMost32Digits | kern/debug/printk.c:98-105 | no 32-bit value needs more than 32 slots of tmp |
| Number.ToDigits | kern/debug/printk.c:98-105 | the division loop leaves the digits in tmp, last first |
| NumberReading.NumberRoundTrip | kern/debug/printk.c:63-144 | for every value, base, width, precision and flags, reading the text gives the value back |
| NumberReading.NumberShown | kern/debug/printk.c:63-144 | the text is blanks, sign, prefix, zeros, numeral, blanks: which sign and prefix, on which side the padding, how many of each, capital or small letters, no leading zero |
| Printk.Vsprintf | kern/debug/printk.c:146-303 | the buffer receives exactly what the parsed format denotes for the arguments, and the terminator; the result is the length |
| Printed.PrintFormat | kern/debug/printk.c:146-303 | the buffer holds what the letters of the format ask for |
| Printed.FormatPrints | kern/debug/printk.c:217-298 | for every format of literals and directives without a star: there is an output if and only if every directive finds its argument; d and i print it signed in base 10, u 10, o 8, x and X and p 16, b 2, c the byte, s at most precision characters, each by its flags, width and precision |
| Printed.FlagsMeant | kern/debug/printk.c:167-179 | each flag character sets its flag, in any order and number |
| Printk.SkipAtoi | kern/debug/printk.c:39-48 | reads the decimal number at the format pointer and stops behind it |
| Formats.ParseRenderIff | kern/debug/printk.c:159-298 | a format rendered from literals and directives is interpreted as exactly those, whatever follows, if and only if none holds a star |
| Formats.DirectiveReadIff | kern/debug/printk.c:165-214 | flags in any order, width, precision, qualifier and conversion letter are read as meant if and only if neither width nor precision is a star |
| Formats.DirectiveTaken | kern/debug/printk.c:165-214 | what is read in either case, and where reading stops |
| Formats.FormatMeaning | kern/debug/printk.c:146-303 | the interpreter's output for a rendered format without stars is that of its pieces, arguments taken in order |
| Formats.UnknownLetter | kern/debug/printk.c:287-298 | a letter that means nothing prints as it stands, percent sign included |
| Formats.LonePercent | kern/debug/printk.c:289-297 | a percent sign at the end prints itself and ends the run |
| Formats.StarIsNotHonoured | kern/debug/printk.c:185-209 | with any flags, a star as width or precision takes its argument, prints as two characters, and what stands behind it becomes the next part of the format |
| Formats.StarWidthPrinted | kern/debug/printk.c:185-192 | the format %*d prints itself |
| Console.Console.Clear | kern/driver/console.c:44-57 | blank screen, cursor at the origin |
| Console.Console.Scroll | kern/driver/console.c:25-42 | the ascending overlapping copy shifts the screen by one row and blanks the last |
| Console.CellBits | kern/driver/console.c:59-62 | character in the low byte, foreground in bits 8 to 11, background above; the blank is white on black |
| Console.Console.PutcColor | kern/driver/console.c:59-90 | the screen stays the last 25 rows of the sheet on which the character is put, the cursor stays inside; the word in video memory shows a printable character in its colours, one row up if it made the screen scroll |
| Console.ControlCharacters | kern/driver/console.c:64-85 | backspace, tab, carriage return, line feed and all other codes: where the cursor goes; no cell changes |
| Console.Console.Write | kern/driver/console.c:92-104 | the same for strings |
| Console.TextLaidOut | kern/driver/console.c:76-85 | printable text fills cell after cell of the sheet from where it starts, what was above stays |
| Console.ClearThenWrite | kern/driver/console.c:44-104 | after a clear, printable text is the beginning of the sheet, character and colours, blanks follow, and the cursor is right behind it |
| KeyBuffer.KbInput.Handler | kern/driver/keyboard.c:27-40 | appends the byte unless 32 are waiting |
| KeyBuffer.KbInput.Take | kern/driver/keyboard.c:172-189 | removes the oldest byte |
| KeyBuffer.Interleave | kern/driver/keyboard.c:27-40 | under every interleaving of interrupt and reader the ring buffer is the bounded queue |
| KeyBuffer.QueueInOrder | kern/driver/keyboard.c:172-189 | delivered bytes are a prefix of the accepted ones, at most 32 are waiting |
| KeyBuffer.GetsDeliver | kern/driver/keyboard.c:172-189 | every look of the reader takes the next accepted byte while there is one; 32 looks take all |
| KeyBuffer.LossIff | kern/driver/keyboard.c:31-39 | bytes are lost if and only if one arrives while 32 are waiting; otherwise all are accepted in order |
| Keymap.ModifierKeys | kern/driver/keymap.h:9-141 | which scan codes and columns carry modifiers; there are no others |
| Keyboard.Keyboard.KeyboardRead | kern/driver/keyboard.c:59-169 | one call consumes one scan-code sequence of any stream, updates the modifiers and passes the key on, interrupts arriving at any point |
| KeyEvents.EventRead | kern/driver/keyboard.c:59-169 | decoding inverts encoding: each event is used up exactly, whatever follows, and means what its key means |
| KeyEvents.TypedKey | kern/driver/keymap.h:9-141 | the four rows and space: each scan code reports its character, with shift the shifted one, plus the modifiers' bits |
| KeyEvents.ExtendedKey | kern/driver/keymap.h:9-141 | the keys after E0 report their own codes |
| KeyEvents.SingleKey | kern/driver/keymap.h:9-141 | so do escape, backspace, tab, enter, the locks, F11 and F12 |
| KeyEvents.FunctionKey | kern/driver/keymap.h:9-141 | F1 to F10 |
| KeyEvents.KeypadKey | kern/driver/keymap.h:9-141 | the keypad: keys of its own, with shift the printed characters |
| KeyEvents.BrokenPause | kern/driver/keyboard.c:75-88 | a Pause sequence that breaks off loses the byte that did not fit and reports nothing |
| KeyEvents.BrokenPrintScreen | kern/driver/keyboard.c:89-114 | a PrintScreen sequence that breaks off: bytes used and key reported |
| KeyEvents.WellFormedIff | kern/driver/keyboard.c:75-113 | a code, or a code after E0, is used up as a sequence of its own whatever follows, if and only if it is one of the well-formed events |
| KeyEvents.FlagsFollowKeys | kern/driver/keyboard.c:134-155 | shift and ctrl flags are the last make or break of their keys, for every sequence of events |
| KeyEvents.AltFollowsEither | kern/driver/keyboard.c:147-152 | for every sequence of events, the left Alt flag is the last make or break of either Alt key and the right one never changes |
| KeyEvents.AltFlagsIff | kern/driver/keyboard.c:147-152 | for every sequence of events, when each Alt flag agrees with its key |
| KeyEvents.AltRecoversIff | kern/driver/keyboard.c:147-152 | when an event puts a wrong left Alt flag right |
| KeyEvents.AltLost | kern/driver/keyboard.c:150-152 | left Alt held, right Alt tapped: the flag is lost |
| KeyEvents.SwallowedIff | kern/driver/keyboard.c:75-167 | a press is passed on if and only if it is neither PrintScreen's nor Pause's |
| KeyEvents.PressesSwallowed | kern/driver/keyboard.c:75-107 | these two presses: all bytes used up, nothing reported |
| KeyEvents.AllReportedIff | kern/driver/keyboard.c:59-169 | over every list of events, all presses are reported if and only if none is one of these |
| Keyboard.FlagsApart | kern/driver/keyboard.c:157-163 | or-ing the modifier flags into any key of the table loses neither the key nor a flag |
| KeyEvents.ReadAll | kern/driver/keyboard.c:59-169 | for every list of events, one call each reports the keys as coded (PrintScreen and Pause report none) and uses up all bytes |

## Left out

- Port I/O, the interrupt controller, timer and cursor hardware; control-register and INVLPG instructions (translation changes take effect at once).
- GDT, IDT and TSS set-up, interrupt stubs, `kstack` and `cr3` of a control block: every thread shares one page directory.
- Symbol lookup, stack traces and the text of panics.
- Boot code and the temporary page tables of `kern/init/entry.c`; `init_vmm` is modelled as storing to physical memory directly.
- Thread exit, thread names and states, `wait_proc_head`.
- `%n`, and format numbers at or beyond 2^31 (undefined in C): the model's `skip_atoi` counts in unbounded integers.
- `show_memory_map`, the lock keys, `in_process` beyond the key it is given.
- Threads.Scheduler.KernelThread: takes the block as a parameter disjoint from all thread blocks; `Boot.ThreadBlocksApart` says that blocks from `kmalloc` are, but thread memory and heap memory are two models.
- Heap.Heap.Kmalloc: says nothing about the state after an out-of-memory panic, because the kernel halts, nor about requests that `HeapRuns.Servable` excludes: there the sum wraps, and the code goes on to write headers over the chunk it splits, or over addresses it has not mapped.
- KeyBuffer.Interleave: the busy wait is the reader's attempt repeated; that it ends is up to the keyboard.
- `Heap.Heap.Poke`, `HeapRuns.Run`, `Boot.StartAndRun`, `ThreadRuns.Run`, `Printed.PrintFormat` and `KeyEvents.ReadAll` stand for callers: they are not functions of the kernel.
