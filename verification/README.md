# Verified model of the kernel

A Dafny model of six parts of a 32-bit x86 kernel, with proofs of what they promise. Check it with
`dafny verify dfyconfig.toml`.

| part | modules |
|---|---|
| page frames, page tables, processes, faults and kills | `Frames`, `Paging`, `Processes`, `ProcessInvariant`, `ProcessTheorems`, `ProcessHistory`, `UserMemory`, `Kernel`, `MemoryMove` |
| console: printf engine, scrolling terminal, VGA buffers | `IntegerField`, `FieldMeaning`, `C99`, `Formatter`, `DirectiveSyntax`, `Conversions`, `PrintedText`, `Printf`, `TextTerminal`, `Transcript`, `Display`, `Buffering`, `Console` |
| scheduler ring | `RotatingQueue`, `Scheduler` |
| PS/2 keyboard: scan codes and command delivery | `ScanCodes`, `CommandLink`, `Keyboard`, `KeyTable` |
| interrupts from the processor's pushes to iret | `ContextFrame`, `Processor`, `Trampolines`, `ContextSwitch`, `Interrupts` |
| programmable interval timer | `Pit` |

Code that changes state is a class or an array method (`FrameAllocator`, `Kernel`, `Scheduler`, `BoundedString`,
`Console`, `CommandQueue`, `Keyboard`, `Timer`, `ImmortalArena`, `GenerateTrampolines`, `MemMove`). Each method is
proved equal to a step of a specification on values; the properties are then proved of every run of those steps.

What the steps do is also stated without their own definitions, in addresses, selectors, characters and bytes: which
program a process runs, what a kill frees and what a process finds in its memory (`ProcessHistory`, `UserMemory`), what a
printed number means (`FieldMeaning`, `PrintedText`), where and in which colours text appears (`Display`), the bytes of
each key (`KeyTable`), and the vectors with an error code (`Processor`).

## How the model reads the code

- Memory is a table of 4096-byte frames of 1024 words, held in RAM as a mutable two-dimensional array. One and the
  same word can be a free-list link, a page-table entry or user data. Variables of the kernel that hold the address of a
  page hold its frame number; words in memory hold addresses. A ghost map says what each frame is used for, and the
  invariant ties that map to the words actually in memory, in both directions.
- Where the linker ends the kernel image is a parameter, `imageEnd`. Nothing else uses the memory from there to 0x80000:
  the immortal allocator never takes from its first arena.
- A kernel panic is the result `None` or `false`. What memory holds after a panic is not described.
- Memory at power-on, the text memory and the trampoline arena start with arbitrary contents wherever the code does not
  initialise them.
- Arithmetic wraps where the code relies on it (increments of the clock, the resend counter, jump displacements,
  `fullcode`, stack addresses); elsewhere integers are mathematical, see the end of this file.
- In the terminal, an escape sequence or a directive that continues past the end of its text is excluded, because the C
  code then reads beyond the text.

## Findings

What the code does where a reader may expect something else, each stated in the model as the code has it:

- `free_VAS` returns page tables and leaf frames but never the directory, so every kill abandons one frame
  (`FramesAreConserved`). At most 0x3FBFB kills fit in memory, and one process that exits again and again gets there
  (`KillsAreBounded`, `KillsAreReached`).
- Codes 39 and 49 never reach their cases, because the guard in front of the switch excludes them
  (`DefaultCasesAreDead`).
- Integer fields differ from C99 section 7.19.6.1 in these cases and no others (`FieldConformsIff`): 0 with precision 0,
  which prints a digit; `%#x` of 0, which gets a prefix; and `%#o` where the precision is above the number of digits, as
  in `%#.3o` of 8, or of 0, except where zeros fill a width of at least 2, as in `%#05o` (`OctalPrecisionDiffers`,
  `ZeroDiffers`, `ZeroFilledOctalAgrees`).
- A negative precision argument, none to the standard, is 0 to the code. It turns off the 0 flag and leaves nothing of a
  `%s`. When that is harmless is `NegativePrecisionIff` and `NegativeStringIff`; for whole directives all this is
  `IntegerDirectiveConformsIff` and `StringDirectiveConformsIff`.
- printf shows its text exactly if that leaves room for a terminator in the console buffer, is empty, or ends in a
  character 0 that stands where the terminator would (`FittingIsTextIff`). Otherwise its end is lost, and a character 0 is
  printed; when the buffer is full, everything is lost and nothing is printed (`TextIsCut`, `FullBufferLosesText`). The
  full length is returned all the same.
- A backspace at column 0 looks for the end of the row above in the hardware memory, which is a row behind after a scroll.
  Whether a flush came in between can be seen exactly if the two buffers show different ends of that row
  (`CutBeforeTokenIff`, `CutsAreInvisibleIff`; `CutIsSeenOnNewConsole` has a text that shows it on a new console).
- User stores are not confined: the kernel table opens [0x7000, 0x80000) to them, and the kernel image starts at 0x7C00.
  Exactly the stores from 0x400000 on stay inside the process (`StoresStayInsideIff`, `KernelImageIsWritable`).
- An ACK that nothing was sent for makes the driver send an old byte of its ring, or retires a command never sent
  (`UnexpectedAck`).
- After three RESENDs the command is dropped and the next one is not sent (`SecondCommandIsStranded`).
- Below 55 Hz the first rounded quotient of `init_timer` does not survive its 16-bit cast, so the programmed reload value
  is not a nearest one (`ReloadIsNearestIff`).

## Model

| member | source | states |
|---|---|---|
| `ProcessTheorems.ReachableInv` | `src/processes/process.c:13-54` | every machine reached from power-on memory by any run of enqueue, switch, user fault, exit and store steps satisfies the invariant: free list, page tables, owners, ring and frame count |
| `ProcessTheorems.ReachableStep` | `src/processes/process.c:13-54` | every step that does not panic leads from a reachable machine to a reachable one |
| `ProcessTheorems.FramesArePartitioned` | `src/memmgnt.c:103-131` | in every reachable state a frame lies in [PAGE_SPACE_START, frame_edge) iff it is on the free list, the kernel table, an abandoned directory, or in some live address space, and it is only one of these; no frame belongs to two processes |
| `ProcessTheorems.PartsHaveNoDuplicates` | `src/paging.c:155-173` | in every reachable state no frame occurs twice on the in-memory free list, among the abandoned directories, or among the directory and the frames free_VAS would walk |
| `ProcessTheorems.FramesAreConserved` | `src/memmgnt.c:108-131` | over every run: frames handed out = free list + 1 kernel table + frames of live processes + number of kills so far, and frame_edge stays at or below PAGE_SPACE_END - PAGE_SIZE |
| `ProcessTheorems.KillsAreBounded` | `src/paging.c:163-173` | because each kill abandons its directory page and leaves some process running, no run without a panic has more than 0x3FBFB kills |
| `ProcessTheorems.KillsAreReached` | `src/syscalls.c:13-22` | from any power-on memory a single process can exit any number of times up to 0x3FBFB without a panic, so that bound is the maximum |
| `ProcessTheorems.AccessIsExact` | `src/paging.c:19-38` | in every reachable live address space va < 4 MiB translates to itself, and user mode can read or write exactly [0x7000, 0x80000) and [lowest_stack_page, 0x800000) |
| `ProcessTheorems.FaultBranchesAreExact` | `src/paging.c:201-220` | a user fault reaches the stack branch exactly for [0x400000, lowest_stack_page), and the killing branches exactly for va < 0x7000, [0x80000, 0x400000) and va >= 0x800000, where it does to the machine what exit does |
| `ProcessTheorems.StackFaultIsServed` | `src/paging.c:207-216` | a stack fault panics iff fewer frames remain than missing pages; otherwise lowest_stack_page becomes va rounded down, all pages from there to 0x7ff000 are present, user, writable and on distinct frames, and every other translation of every process is unchanged |
| `ProcessTheorems.GrowTranslation` | `src/paging.c:207-216` | the growth loop changes no translation outside the pages it adds, in any live process |
| `ProcessTheorems.StackFaultDoesNotRepeat` | `src/paging.c:207-216` | after a served stack fault the same access no longer faults, and lowest_stack_page has strictly decreased |
| `ProcessTheorems.KillReturnsFrames` | `src/paging.c:155-173` | a kill pushes the stack pages in table order and then the stack table onto the old free list, each once; the directory alone is not returned |
| `ProcessTheorems.KillPanicsIff` | `src/syscalls.c:13-22` | exit panics iff the next process needs an address space and fewer than three frames remain, those just freed included |
| `ProcessTheorems.RestartIsFresh` | `src/processes/process.c:22-54` | a process without an address space that is switched to gets the fresh register context of its own entry point and exactly one mapped stack page |
| `ProcessTheorems.StoresAreIsolated` | `src/paging.c:69-91` | a user store outside the kernel image changes one word of one frame: at va >= 0x400000 a frame of the running process and of no other, below that a frame under 0x80000 that nobody owns; the free list and all translations of all processes stay as they are |
| `ProcessTheorems.StoresStayInsideIff` | `src/paging.c:21-29` | a store that user mode can make lands in a frame of the running process iff va >= 0x400000; below that it lands at the physical address va itself, in [0x7000, 0x80000) |
| `ProcessTheorems.KernelImageIsWritable` | `link.ld:2` | in every live address space of every reachable machine user mode can write the first byte of the kernel image, at 0x7C00 |
| `ProcessTheorems.TurnsAreRoundRobin` | `src/processes/process.c:22-23` | in every run the process d places behind the current one is current after exactly d switches, exits and kills, whatever is enqueued or faults in between |
| `ProcessTheorems.FirstProcessRuns` | `src/processes/process.c:13-54` | from any power-on memory, enqueueing and switching once makes the new process run with the fresh context, so the theorems are not empty |
| `ProcessHistory.ProgramsAreAsEnqueued` | `src/processes/process.c:13-54` | over every run from power-on, process pid runs the function given by the pid-th enqueue_process, and whenever it starts or restarts, after any number of kills, it enters that function in user mode with an empty stack below 0x800000 |
| `ProcessHistory.KillsAreCounted` | `src/paging.c:221-225` | over every run the kernel's counter has grown by the number of exits and of user faults outside [0x400000, 0x800000) |
| `ProcessHistory.KillingEventKills` | `src/paging.c:221-225` | each such event in a reachable machine panics iff the next process needs an address space and fewer than three frames remain, those just freed included; otherwise the victim's stack pages and table are pushed onto the free list, its directory is abandoned and used by no live process, and the victim has no address space, or is itself next and has a new one |
| `ProcessHistory.SwitchEffect` | `src/processes/process.c:22-54` | a switch changes nothing but the queue and, if the next process has no address space, that process, which takes three frames from the front of the free list |
| `UserMemory.MemoryIsAsStored` | `src/paging.c:69-91` | in one step of any kind, every process but the one killed keeps its address space, program and context, and reads at every address it has what it read before, except the word stored in that step |
| `UserMemory.MemoryOverRuns` | `src/paging.c:69-91` | over every run in which it is not killed a process finds at each address the word last stored there, by itself or, below 0x400000, by anyone, or else what it found at first, whatever is enqueued, killed, freed and mapped in between |
| `ProcessInvariant.BootKeeps` | `src/paging.c:19-38` | setup_kernel_paging on arbitrary memory establishes the invariant |
| `ProcessInvariant.EnqueueKeeps` | `src/processes/process.c:13-20` | enqueue_process keeps the invariant |
| `ProcessInvariant.CreateIff` | `src/paging.c:69-91` | create_VAS succeeds iff at least three frames remain |
| `ProcessInvariant.CreateFrames` | `src/paging.c:69-91` | create_VAS takes three distinct unused frames and leaves every other frame as it was |
| `ProcessInvariant.SwitchKeeps` | `src/processes/process.c:22-54` | switch_process keeps the invariant, and panics iff the next process has no address space and fewer than three frames remain |
| `ProcessInvariant.KillKeeps` | `src/paging.c:221-223` | freeing and clearing the current address space keeps the invariant |
| `ProcessInvariant.SpaceReleasable` | `src/paging.c:163-173` | the frames free_VAS walks are distinct, held, owned by that process alone, and do not include the directory |
| `ProcessInvariant.GrowKeeps` | `src/paging.c:207-216` | serving a stack fault keeps the invariant and says exactly when frames suffice |
| `ProcessInvariant.StoreKeeps` | `src/paging.c:69-91` | a user store, to the stack or to the open pages above the kernel image, keeps the invariant, and lands in the frame it should |
| `ProcessInvariant.StepKeeps` | `src/paging.c:191-225` | each step of the machine keeps the invariant |
| `ProcessInvariant.RunKeeps` | `src/paging.c:191-225` | so does every run |
| `Kernel.Kernel.constructor` | `src/paging.c:19-38` | the kernel after setup_kernel_paging is the booted machine |
| `Kernel.Kernel.Enqueue` | `src/processes/process.c:13-20` | refines the enqueue step and keeps the function given with the new process; panics iff the scheduler arena is full |
| `Kernel.Kernel.Switch` | `src/processes/process.c:22-54` | refines the switch step over the scheduler ring and the page-table memory; panics exactly when the step does |
| `Kernel.Kernel.KillCurrent` | `src/syscalls.c:13-22` | refines the kill step: the address space is freed, pdt cleared, param incremented |
| `Kernel.Kernel.GrowOnePage` | `src/paging.c:208-213` | one turn of the growth loop does what the specification of one turn says, panics included |
| `Kernel.Kernel.GrowStack` | `src/paging.c:207-216` | the growth loop terminates and refines the stack-fault step |
| `Kernel.Kernel.Exit` | `src/syscalls.c:13-22` | exit refines kill followed by switch, increments param, abandons the directory of the process that exits, and leaves the kernel in a reachable state |
| `Kernel.Kernel.PagefaultHandler` | `src/paging.c:191-225` | for any address and error code the handler panics for kernel-mode faults (bit 2 clear), and otherwise refines the fault step in every branch and leaves the kernel in a reachable state; outside [0x400000, 0x800000) param is incremented and the directory of the faulting process abandoned |
| `Kernel.Kernel.UserStores` | `src/paging.c:40-44` | a store translated through the tables in memory refines the store step, on the stack and below it |
| `Kernel.CodeConservesFrames` | `src/memmgnt.c:103-131` | the conservation law and the acyclic free list hold of the variables of the code |
| `Frames.CanAllocIff` | `src/memmgnt.c:108-120` | malloc_page panics iff no frame is left: the list is empty and the edge at its limit |
| `Frames.AllocKeeps` | `src/memmgnt.c:108-120` | malloc_page hands out a frame nobody held, keeps the free list chained and duplicate-free, and changes no memory |
| `Frames.CallocKeeps` | `src/memmgnt.c:122-126` | calloc_page does the same and zeroes exactly that frame |
| `Frames.ReleaseKeeps` | `src/memmgnt.c:128-131` | free_page keeps the invariant and adds exactly one available frame |
| `Frames.ReleaseAllEffect` | `src/memmgnt.c:128-131` | freeing distinct held frames in turn pushes them, reversed, onto the old list and changes only word 0 of each |
| `Frames.ReleaseAllConcat` | `src/memmgnt.c:128-131` | freeing a concatenation is freeing one part and then the other |
| `Frames.FreeListIsAcyclic` | `src/memmgnt.c:103-112` | following links in memory meets the listed frames in order and reaches NULL exactly after the last one |
| `Frames.FrameAllocator.MallocPage` | `src/memmgnt.c:108-120` | the code refines the allocation step, panic included |
| `Frames.FrameAllocator.CallocPage` | `src/memmgnt.c:122-126` | the code refines allocation followed by zeroing |
| `Frames.FrameAllocator.FreePage` | `src/memmgnt.c:128-131` | the code refines the release step |
| `Paging.EntryFields` | `src/paging.c:21-37` | the entries written hold exactly the frame and rights asked for, bit 0 present, bit 1 writable, bit 2 user, and read back as such |
| `Paging.SetupKernelPaging` | `src/paging.c:19-38` | the kernel table maps page i to frame i, user-accessible exactly for 7 <= i < 0x80 |
| `Paging.IsMounted` | `src/paging.c:40-44` | true iff the processor would find a translation for the address |
| `Paging.MountPage` | `src/paging.c:46-67` | refines the mount step: a table is allocated iff the directory entry is absent, large pages are left alone |
| `Paging.MountTranslates` | `src/paging.c:46-67` | after a successful mount through an ordinary user table the address translates to the mounted frame with the rights asked for, a new table included |
| `Paging.CreateVas` | `src/paging.c:69-91` | refines address-space creation, with a panic at any of its three allocations |
| `Paging.LeavesStep` | `src/paging.c:155-161` | when free_pagetable reads entry i, the frames freed before have not overwritten the table |
| `Paging.FreePagetable` | `src/paging.c:155-161` | the frames named by the table as it was before the call are freed, in table order |
| `Paging.WalkStep` | `src/paging.c:163-173` | when free_VAS reaches slot i, the directory, that table and its leaves are intact, and freeing them completes the walk so far |
| `Paging.FreeVas` | `src/paging.c:163-173` | the new free list is the walked leaves and tables in push order on the old list, each once; only word 0 of freed frames changes; slot 0 and the directory are not freed |
| `Paging.WalkTables` | `src/paging.c:40-44` | reading the tables in memory gives the translation of Intel SDM Vol. 3A section 4.3 |
| `RotatingQueue.RotationsAre` | `src/processes/scheduler/scheduler.c:62-65` | k switches rotate the queue by k |
| `RotatingQueue.FullRound` | `src/processes/scheduler/scheduler.c:62-65` | n switches over n processes visit each exactly once, in ring order, and come back to the start |
| `RotatingQueue.RunsOnItsTurn` | `src/processes/scheduler/scheduler.c:46-65` | a process d ahead is current after exactly d switches, whatever is inserted meanwhile |
| `RotatingQueue.RunsNoEarlier` | `src/processes/scheduler/scheduler.c:46-65` | and after no fewer |
| `Scheduler.Scheduler.constructor` | `src/processes/scheduler/scheduler.c:14-18` | an empty ring |
| `Scheduler.Scheduler.ScheduleProcess` | `src/processes/scheduler/scheduler.c:46-60` | the linked insertion appends a fresh node to the queue, or panics iff the arena is full |
| `Scheduler.Scheduler.NextProcess` | `src/processes/scheduler/scheduler.c:62-65` | following next rotates the queue by one |
| `Scheduler.NextAndPrevAreInverse` | `src/processes/scheduler/scheduler.c:46-60` | on the ring next and prev undo one another |
| `Scheduler.OneCycle` | `src/processes/scheduler/scheduler.c:46-60` | following next from the current node meets every node once and then the current node again |
| `IntegerField.DigitsEvaluate` | `src/console.c:104-116` | the digits written for a number in any base evaluate to it |
| `IntegerField.DigitsFitScratch` | `src/console.c:104-118` | every 32-bit number has at most 11 digits, so the 23-byte scratch buffer is never exceeded |
| `IntegerField.FieldLength` | `src/console.c:84-171` | a field is max(width, sign + prefix + max(precision, digits)) characters long |
| `IntegerField.FieldEvaluates` | `src/console.c:84-171` | stripping blanks, sign and prefix from any field leaves digits of the base, and nothing else, that evaluate to the two's complement magnitude of the number; the sign is - iff the number is negative |
| `IntegerField.ParseIntStops` | `src/console.c:59-69` | parse_int consumes digits only and stops at the first non-digit |
| `IntegerField.ParseIntReads` | `src/console.c:59-69` | reading k digits accumulates the number they stand for |
| `IntegerField.ParseIntRoundTrip` | `src/console.c:59-69` | parse_int of the unpadded decimal output of any 32-bit number, followed by any non-digit, returns the number and stops there |
| `IntegerField.ParseIntDoesNotOverflow` | `src/console.c:61-66` | up to 2^31 - 1 no intermediate value of that reading leaves the range of int |
| `IntegerField.ParseIntFitsIff` | `src/console.c:61-66` | every value of that reading, the last included, is an int iff the number is below 2^31 |
| `FieldMeaning.FieldShows` | `src/console.c:84-171` | for every 32-bit argument, base, width, precision and flags: with v the integer in [-2^31, 2^31) that the argument stands for if signed, or else the argument, the field is blanks, a sign, a prefix, digits and blanks; the sign is - iff v < 0, the digits, in the letter case asked for, evaluate to the absolute value of v, there are as many as the precision says, and zeros and blanks only where precision and width ask for them |
| `C99.FieldConformsIff` | `src/console.c:84-171` | for every number, base, width, precision and flags the field is that of C99 section 7.19.6.1 iff the number is not 0 with precision 0, nor 0 in hexadecimal with #, and in octal with # the precision is not above the number of digits and the number is not 0 unless zeros fill a width of at least sign + 2 |
| `C99.SignsAgree` | `src/console.c:88-102` | the code takes sign and magnitude as the standard does, for which both are told from the value of the argument |
| `C99.ContentIff` | `src/console.c:130-163` | prefix, zeros and digits are those of the standard under the same condition, and longer otherwise |
| `C99.NegativePrecisionIff` | `src/console.c:238-243` | with a negative precision argument, which the code takes for 0 and the standard for none, the fields agree iff the 0 flag is absent or overridden and the condition above holds, or the width leaves nothing to fill |
| `C99.NegativeStringIff` | `src/console.c:269-281` | a negative precision argument leaves a %s field blank; that is the field of the standard iff the text is empty, or is all blanks and fits the width |
| `C99.OctalPrecisionDiffers` | `src/console.c:124-129` | %#.3o of 8 shows 0010, not 010 |
| `C99.ZeroDiffers` | `src/console.c:109-111` | %#o, %#x and %.0d of 0 show 00, 0x0 and 0, where the standard has 0, 0 and nothing |
| `C99.ZeroFilledOctalAgrees` | `src/console.c:151-156` | %#05o of 0 shows 00000, as the standard asks |
| `C99.NegativePrecisionDiffers` | `src/console.c:238-243` | %05.*d of -1 and 7 shows four blanks and 7, not 00007 |
| `Formatter.PlainText` | `src/console.c:190-194` | a format without % stands for itself |
| `Formatter.ReadDirectiveAdvances` | `src/console.c:196-250` | reading a directive never moves backwards |
| `DirectiveSyntax.FlagsAreMembers` | `src/console.c:196-212` | the flag loop collects exactly the flags that occur, in any order and number |
| `DirectiveSyntax.NumberIsRead` | `src/console.c:229-237` | a decimal number inside a format is read whole |
| `DirectiveSyntax.DirectiveIsRead` | `src/console.c:196-250` | a directive spelled from any flags, width, precision (absent, a number or *), qualifier and conversion is read back as exactly these, with + overriding blank, - overriding 0, a negative * width read as its size with -, and each * consuming one argument; a bare dot is precision 0 |
| `DirectiveSyntax.TextFieldWidths` | `src/console.c:258-281` | %c and %s fields are as wide as asked or as needed, and show the text, cut to the precision, on the side the - flag says |
| `Conversions.RenderShift` | `src/console.c:190-250` | what a format shows from some place on does not depend on the text before it |
| `Conversions.DirectiveShows` | `src/console.c:190-335` | any spelled directive followed by any text shows what its conversion makes of its parts, and then the text with the arguments that remain |
| `Conversions.IntegerIsShown` | `src/console.c:283-334` | %d, %i, %u, %o, %x and %X show the integer field of the qualified argument with the width, precision and flags that were spelled |
| `Conversions.StringIsShown` | `src/console.c:269-281` | %s shows the string field of its argument with the width, precision and flags that were spelled |
| `Conversions.CharacterIsShown` | `src/console.c:254-266` | %c shows the low byte of its argument in its field, %% a percent sign |
| `Conversions.IntegerDirectiveConformsIff` | `src/console.c:173-344` | for every integer directive, from its spelling and arguments to the text printed, the output is that of C99 section 7.19.6.1 iff the condition of FieldConformsIff holds, or of NegativePrecisionIff for a negative precision argument |
| `Conversions.StringDirectiveConformsIff` | `src/console.c:173-344` | the same for %s: only a negative precision argument makes a difference, unless the text is empty or blanks that fit the width |
| `PrintedText.IntegersAreShown` | `src/console.c:173-335` | every %d, %i, %o, %u, %x and %X, spelled with any flags, width, precision, stars and qualifier, shows the value of its argument, cut to a short by h, in base 10, 8 or 16, in a field as FieldShows has it for what was spelled; the rest of the format follows with the remaining arguments |
| `PrintedText.PointersAreShown` | `src/console.c:302-309` | %p shows its argument in hexadecimal, zero-filled to eight digits if no width was given |
| `PrintedText.TextIsShown` | `src/console.c:252-281` | %s shows its argument, cut to the precision, and %c the character of the low byte, with blanks up to the width on the side the - flag or a negative star leaves; %% shows a percent sign |
| `PrintedText.OthersShowNothing` | `src/console.c:311-315` | %n and every unknown conversion show nothing and take no argument beyond their stars |
| `Printf.BoundedIsPrefix` | `src/console.c:43-47` | the n bytes hold the first min(n-1, length) bytes of the text and a terminator, and no other byte changes (C99 section 7.19.6.5) |
| `Printf.Vsnprintf` | `src/console.c:173-344` | for every complete format, argument list and n the return value is the length of the full text, independent of n, and the destination is bounded as above |
| `Printf.PutDirective` | `src/console.c:196-335` | one directive appends exactly the text it stands for |
| `Printf.PutConversion` | `src/console.c:252-334` | each conversion appends the text of its specification and consumes its argument |
| `Printf.ScanDirective` | `src/console.c:196-250` | the scanning code refines the reading of a directive |
| `Printf.ScanFlags` | `src/console.c:196-218` | the flag loop and the two overrides refine the specification |
| `Printf.ScanWidth` | `src/console.c:221-231` | digits or *, with a negative * meaning left justification |
| `Printf.ScanPrecision` | `src/console.c:233-244` | digits, * or nothing after the dot; what is negative or missing counts as 0 |
| `Printf.FormatInteger` | `src/console.c:84-171` | the imperative formatter appends exactly the specified field |
| `Printf.DigitsBackwards` | `src/console.c:104-118` | the digit loop stores the digits least significant first, in the scratch buffer |
| `Printf.TakeSign` | `src/console.c:88-102` | the sign is split off and the magnitude of the two's complement number left |
| `Printf.PutField` | `src/console.c:134-170` | the padding loops lay out sign, prefix, zeros and digits |
| `Printf.PutCharField` | `src/console.c:258-266` | the %c loops append a character field |
| `Printf.PutStringField` | `src/console.c:269-281` | the %s loops append a string field |
| `Printf.BoundLength` | `src/console.c:49-57` | the length of the string, or the bound if that is smaller |
| `Printf.ReadInt` | `src/console.c:59-69` | the parse_int loop computes the specified value and position |
| `Printf.BoundedString.Put` | `src/console.c:43-47` | one more character of output, stored only inside the bound |
| `Printf.BoundedString.Pad` | `src/console.c:136-138` | a padding loop appends width copies, and what it leaves in the counter |
| `Printf.Terminate` | `src/console.c:336-342` | the terminator goes after the output, or into the last byte of the bound |
| `TextTerminal.TokensConcat` | `src/console.c:646-682` | a stream may be cut between tokens: the tokens of a concatenation are those of its parts |
| `TextTerminal.TokenLocal` | `src/console.c:587-604` | text after a whole escape sequence does not change how it is read |
| `TextTerminal.AnsiColorSwapsRedAndBlue` | `src/console.c:485-581` | each colour code selects the VGA colour with the red and blue bits exchanged and the brightness kept |
| `TextTerminal.GraphicsChangesOne` | `src/console.c:470-584` | foreground codes change only the foreground, background codes only the background, 0 restores both, and every other code changes nothing |
| `TextTerminal.DefaultCasesAreDead` | `src/console.c:475-483` | the cases of the switch for 39 and 49 would restore one colour each, but the guard in front of it lets neither code through, so both change nothing |
| `TextTerminal.StepKeeps` | `src/console.c:637-686` | whatever is printed, every cell access is on the screen, the cursor stays on it or one row below, and a set sync flag means the two buffers agree |
| `Transcript.WindowStep` | `src/console.c:646-682` | one token keeps the screen a window on the transcript |
| `Transcript.ScreenIsWindow` | `src/console.c:606-686` | over every stream without a backspace at column 0 the shadow screen is the last 24 rows of the unbounded transcript |
| `Transcript.WindowRows` | `src/console.c:626-635` | row r of the screen is row Y - cursor.y + r of the transcript, Y being its cursor row |
| `Transcript.OldLinesStay` | `src/console.c:626-635` | a line that has left the screen never changes again |
| `Transcript.FlushShowsTranscript` | `src/console.c:637-686` | when cflush returns, hardware memory too shows the last 24 rows |
| `Display.ColorsAreSelected` | `src/console.c:470-584` | 30 + k and 40 + k select for characters and background the VGA colour with the red and blue bits of k exchanged, 90 + k and 100 + k the same colour plus 8, 0 restores white on black, and no other code changes anything |
| `Display.ColorCodeIsRead` | `src/console.c:587-604` | ESC, [, any 32-bit number in decimal and m are read as that colour code; with any other final character nothing is done |
| `Display.StrayEscape` | `src/console.c:587-604` | an ESC without [ is dropped, and ESC [ without a number too, and reading goes on behind them |
| `Display.PlainTextIsWritten` | `src/console.c:606-620` | text of any length without control characters fills the transcript from the cursor on, row after row of 80 columns, in the current colours, and changes no other cell |
| `Display.TextIsOnScreen` | `src/console.c:606-686` | after cflush of such a text hardware memory shows it from the cursor on, wrapped at column 80; the screen has moved up by exactly the rows beyond row 23, what was there has moved along, new rows are blank, and the cursor stands behind the text |
| `Display.ControlsOnScreen` | `src/console.c:651-660` | newline, return, and backspace right of column 0: where the cursor goes, when the screen moves up, and that nothing but the blank of the backspace is written |
| `Display.ColorOnScreen` | `src/console.c:674-676` | a colour code written as text changes the current colours and nothing on the screen |
| `Display.BackspaceAtEdge` | `src/console.c:658-673` | a backspace in column 0 blanks column 79 of the row above if hardware memory has a character there, and else the column behind its last character, but never column 0 |
| `Buffering.CutBeforeTokenIff` | `src/console.c:646-684` | a flush before one token can be seen iff the token is a backspace that meets a lag: column 0, the cursor not below the screen, and another end of the row above in hardware memory than in the shadow buffer |
| `Buffering.CutBeforeBackspaceIff` | `src/console.c:661-671` | flushing a text and then a backspace differs from flushing both iff the terminal lags after the text |
| `Buffering.CutsAreInvisibleIff` | `src/console.c:637-686` | all cuts of all beginnings of a stream are invisible iff no backspace in it meets a lag |
| `Buffering.FlushedDoesNotLag` | `src/drivers/vga/vga.c:24-29` | a terminal whose two buffers agree does not lag |
| `Buffering.NoEdgeNoLag` | `src/console.c:658-673` | a stream without a backspace at column 0 meets no lag |
| `Buffering.FlushConcat` | `src/console.c:637-686` | flushing a and then b is flushing a + b, if no backspace in b meets a lag |
| `Buffering.BufferingIsTransparent` | `src/console.c:637-686` | a stream in which no backspace meets a lag, cut into any chunks and flushed piecewise, ends in the same screen, hardware memory, cursor and colours as one flush of the whole |
| `Buffering.PutStringIsTransparent` | `src/console.c:399-413` | wherever the automatic flushes of cputc fall in such a stream, the final result is that of one flush |
| `Buffering.PutPlain` | `src/console.c:399-405` | as long as the buffer has room, cputs only stores |
| `Buffering.BackspaceAtEdgeSeesTheCut` | `src/console.c:661-671` | a concrete screen that lags: the backspace ends in column 1, or in column 6 after an intermediate flush |
| `Buffering.EdgeScreenIsReached` | `src/console.c:18-32` | flushing 23 newlines, five blanks, an a and a carriage return to what init_consoles leaves gives that screen |
| `Buffering.CutIsSeenOnNewConsole` | `src/console.c:637-686` | so on a new console this text, and then a newline and a backspace flushed together or apart, leaves the cursor in column 1 or 6 |
| `Console.Console.constructor` | `src/console.c:18-32` | init_consoles leaves 24 rows of 80 blanks in white on black, flushed, and the cursor at the origin |
| `Console.Console.FlushVga` | `src/drivers/vga/vga.c:24-29` | the text memory becomes the shadow buffer |
| `Console.Console.PrintChar` | `src/drivers/vga/vga.c:37-42` | one cell of both buffers changes |
| `Console.Console.CopyRows` | `src/drivers/vga/vga.c:48-64` | rows of the flushed text memory are copied to the shadow buffer, and the buffers count as different |
| `Console.Console.FillRows` | `src/drivers/vga/vga.c:66-74` | rows of the shadow buffer are filled |
| `Console.Console.ClearConsole` | `src/console.c:34-41` | both buffers are blank in the current colours, cursor at the origin |
| `Console.Console.InplaceWrite` | `src/console.c:606-612` | the character under the cursor is replaced, in the current colours |
| `Console.Console.Write` | `src/console.c:614-620` | refines the character token, with the wrap at column 80 |
| `Console.Console.ScrollUp` | `src/console.c:626-635` | refines the scroll of the terminal |
| `Console.Console.FindRowEnd` | `src/console.c:665-670` | the search stops just past the last character the text memory shows in the row |
| `Console.Console.BackspaceOver` | `src/console.c:658-673` | refines the backspace token, at column 0 too |
| `Console.Console.ProcessGraphic` | `src/console.c:470-584` | the guard and the switch, the cases for 39 and 49 included, refine the colour codes |
| `Console.Console.ProcessEscape` | `src/console.c:587-604` | consumes exactly one escape token and applies it |
| `Console.Console.StepToken` | `src/console.c:646-682` | one turn of the loop refines one token |
| `Console.Console.CFlush` | `src/console.c:637-686` | refines the flush of the whole buffer, after which it is empty and the two screens agree |
| `Console.Console.CPutc` | `src/console.c:399-405` | a full buffer is flushed, then the character is stored |
| `Console.Console.CPuts` | `src/console.c:407-413` | the same for a string |
| `Console.Console.VCPrintf` | `src/console.c:378-389` | the text that fits the buffer is appended and flushed, and the full length is returned |
| `Console.FittingBounded` | `src/console.c:378-386` | what vsnprintf leaves in the free part of the buffer is what gets flushed, the terminator included when the text did not fit |
| `Console.FittingIsTextIff` | `src/console.c:378-386` | what is flushed of a printf is its text iff the text is shorter than the room there is, or empty, or ends in a character 0 where the terminator would stand |
| `Console.TextIsCut` | `src/console.c:378-386` | otherwise the end of the text is lost and a character 0 shown, and without any room nothing is shown at all |
| `Console.FullBufferLosesText` | `src/console.c:378-405` | after 512 calls of cputc a printf shows those characters and nothing of its own text |
| `Console.PrintfShowsItsText` | `src/console.c:378-389` | for every text, what was pending and then what fits of the text enters the transcript, and screen and hardware memory show its last rows; with FittingIsTextIff this says exactly when the text is shown |
| `ScanCodes.DecodingUndoesEncoding` | `src/drivers/ps2/ps2_keyboard.c:379-496` | for every list of key presses and releases, decoding their bytes, with ACK and RESEND inserted anywhere, yields exactly their events in order and an idle decoder |
| `ScanCodes.DecodePress` | `src/drivers/ps2/ps2_keyboard.c:394-495` | the bytes of one press or release yield its event and an idle decoder |
| `ScanCodes.RepliesAreInvisible` | `src/drivers/ps2/ps2_keyboard.c:380-393` | reply bytes do not influence decoding, in any state |
| `ScanCodes.DecodeConcat` | `src/drivers/ps2/ps2_keyboard.c:394-495` | decoding a concatenation is decoding its parts in turn |
| `ScanCodes.EncodingIsInjective` | `src/drivers/ps2/ps2_keyboard.c:394-495` | different key sequences have different encodings |
| `ScanCodes.ExtendedCompletesIff` | `src/drivers/ps2/ps2_keyboard.c:468-470` | after E0 a code byte completes a key iff it is neither 12 nor 7C |
| `Keyboard.SpecialKeys` | `src/drivers/ps2/ps2_keyboard.c:412-474` | PrintScreen and Pause, and no other key, are reported as such, on press and on release |
| `KeyTable.KeysAreRecognised` | `src/drivers/ps2/ps2_keyboard.c:394-495` | from a table of the bytes of each key: every sequence of keys pressed and released is recognised, key by key and in order, from its bytes, wherever FA and FE are interspersed |
| `KeyTable.OtherBytesAreNoKey` | `src/drivers/ps2/ps2_keyboard.c:412-482` | a press or release stands for a key iff its bytes are in that table |
| `KeyTable.RepliesAreFaAndFe` | `src/drivers/ps2/ps2_keyboard.c:379-386` | FA is taken as an acknowledgement, FE as a request to send again, and no other byte as a reply |
| `Keyboard.Keyboard.HandleCode` | `src/drivers/ps2/ps2_keyboard.c:394-495` | the handler refines the decoder for each scan-code byte |
| `Keyboard.Keyboard.HandleByte` | `src/drivers/ps2/ps2_keyboard.c:356-497` | for any byte at any time the handler refines the decoder and the protocol at once |
| `Keyboard.Keyboard.HandleBytes` | `src/drivers/ps2/ps2_keyboard.c:356-497` | for any stream of key codes and replies, due or not, one run of the handler yields the events of the decoder and does to queue and device what the replies one by one ask for; when all replies are due, that is an execution of the protocol |
| `Keyboard.Keyboard.HandleReply` | `src/drivers/ps2/ps2_keyboard.c:380-393` | ACK and RESEND leave the decoder alone and, whether or not an answer is due and whether or not the ring is empty, do what the protocol says; every byte sent is the command the protocol names |
| `Keyboard.Keyboard.constructor` | `src/drivers/ps2/ps2_keyboard.c:100-124` | queueing the commands and sending the first starts the protocol |
| `Keyboard.CommandQueue.Enqueue` | `src/drivers/ps2/ps2_device_general.c:241-244` | the ring refines appending to a sequence |
| `Keyboard.CommandQueue.SendTopQueue` | `src/drivers/ps2/ps2_device_general.c:246-254` | the front command, or nothing when the queue is empty, is sent |
| `Keyboard.CommandQueue.Top` | `src/drivers/ps2/ps2_device_general.c:256-258` | the byte at the head, which is the front command if there is one |
| `Keyboard.CommandQueue.Pop` | `src/drivers/ps2/ps2_device_general.c:260-262` | the ring refines removing the front; from an empty ring it leaves the 31 other old bytes queued |
| `CommandLink.ReceiveKeeps` | `src/drivers/ps2/ps2_keyboard.c:380-393` | each answer keeps the invariant of the protocol |
| `CommandLink.DeliveryIsOrdered` | `src/drivers/ps2/ps2_keyboard.c:380-393` | over every run of answers commands are first sent in queue order, none more than three times, and what is retired was acknowledged except possibly the last, dropped after exactly three sends |
| `CommandLink.DropsIffThreeResends` | `src/drivers/ps2/ps2_keyboard.c:385-393` | each ACK retires exactly one command, and one is dropped iff three RESENDs arrive in a row |
| `CommandLink.QuietMeansDoneOrDropped` | `src/drivers/ps2/ps2_keyboard.c:380-393` | when no answer is due, all commands were acknowledged iff no drop happened; after a drop nothing more is sent |
| `CommandLink.SecondCommandIsStranded` | `src/drivers/ps2/ps2_keyboard.c:387-391` | concrete run: after a drop the next command stays queued and is never sent |
| `CommandLink.AllDueIff` | `src/drivers/ps2/ps2_keyboard.c:380-393` | a sequence of replies is an execution of the protocol iff each arrives when one is due |
| `CommandLink.DueRepliesAnswer` | `src/drivers/ps2/ps2_keyboard.c:380-393` | replies that are all due give an execution of the protocol, whatever old bytes the ring holds |
| `CommandLink.UnexpectedAck` | `src/drivers/ps2/ps2_keyboard.c:380-384` | an ACK that is not due sends an old byte of the ring if all commands were acknowledged, and retires a command never sent if one was dropped |
| `Trampolines.GenerateTrampolines` | `src/interrupts.c:77-97` | writes the stub of each of the 256 vectors at its place, whatever the arena held |
| `Trampolines.WriteStub` | `src/interrupts.c:81-93` | one turn writes exactly the bytes of one stub at its place, and no other byte |
| `Trampolines.ErrorCodesAgree` | `src/interrupts.c:59-75` | has_error_code lists exactly the vectors for which processors push an error code: 8, 10 to 14, 17, 21, and 29 and 30 on AMD (Intel SDM Vol. 3A section 6.15, AMD APM Vol. 2 section 8.2) |
| `Trampolines.StubsReachCollect` | `src/interrupts.c:59-97` | for every vector and load address, executing the stub reaches collect_ctx modulo 2^32 with the same stack shape, whether or not the processor pushed an error code |
| `Trampolines.JumpLands` | `src/interrupts.c:87-90` | the relative jump lands on its target modulo 2^32 |
| `Trampolines.LittleEndianRoundTrip` | `src/interrupts.c:88-90` | the stored displacement is read back |
| `ContextSwitch.CollectRuns` | `src/boot.asm:143-162` | executing collect_ctx one instruction after another has the computed effect |
| `ContextSwitch.HandlerSeesContext` | `src/boot.asm:143-163` | the handler is called with a 16-byte aligned stack, data segments 0x10 and a Context that holds every register as it was, the vector, the error code and the interrupt frame |
| `ContextSwitch.UnwindRuns` | `src/boot.asm:166-172` | unwind_context loads every register from the Context at esp |
| `ContextSwitch.InterruptsRestoreEverything` | `src/boot.asm:143-173` | for every handler that returns and keeps ebx and the words pushed on entry, whatever else it writes, collect_ctx, the call, the stack reset and unwind_context restore all general and segment registers and leave esp at the intact CPU frame |
| `ContextSwitch.RestoreStartsProcess` | `src/boot.asm:175-177` | all of restore_context, reading its argument included, loads every register, stack, flags and instruction address from the saved context and changes no memory |
| `ContextSwitch.FreshProcessStarts` | `src/processes/process.c:29-53` | with the context of switch_process this starts the entry point in user mode: cs 0x1B, all data segments 0x23, eflags 0x202, esp 0x800000, and zeros in the other registers |
| `ContextSwitch.HandlerGetsVector` | `src/interrupts.c:84-85` | the sign-extended byte an entry stub pushes is read back as the vector |
| `Interrupts.DeliverEffect` | `src/boot.asm:268-269` | the processor's pushes, on the kernel stack if it comes from user mode, leave a complete frame and nothing changed above it |
| `Interrupts.ReachesCollect` | `src/interrupts.c:77-112` | through the gate and the stub of any vector the processor reaches collect_ctx with the vector, one more word and the frame on one stack |
| `Interrupts.HandlerGetsInterrupt` | `src/interrupts.c:46-57` | for every vector, from user and kernel mode, the handler runs with cs 0x08 and data segments 0x10, from user mode on the stack below 0x7C00, and gets a Context with the vector, the error code if the processor pushed one, and every register of the interrupted code, its stack included if it was switched |
| `Interrupts.InterruptsAreInvisible` | `src/boot.asm:143-173` | from the processor's pushes through stub, collect_ctx, handler and unwind_context to iret: for every vector and mode, if the handler returns and keeps the words pushed on entry, every register, eip, cs, eflags, esp and ss included, is as it was and memory is as the handler left it |
| `Pit.ReloadIsNearestIff` | `src/pit.c:19-40` | rounding by the frequency and then by 3 programs a nearest reload value iff 55 <= frequency <= 65535, over all 32-bit frequencies |
| `Pit.OtherReloads` | `src/pit.c:19-30` | below 18 Hz the reload value is 65535 and from 65536 Hz on it is 65536; from 18 to 54 it is nearest to a third of the lower 16 bits of a nearest 3579545 / frequency |
| `Pit.NearestIsNear` | `src/pit.c:26-27` | the rounded quotient is within half a divisor |
| `Pit.LowQuotient` | `src/pit.c:26-27` | below 55 the truncated quotient is never so small that the reload value would be 0 or 1 |
| `Pit.IncrementFits` | `src/pit.c:46-48` | no step of the increment leaves 64 bits, for any 32-bit reload value |
| `Pit.IncrementError` | `src/pit.c:46-48` | the increment m satisfies -1 < m - R*3000*2^32/3579545 <= R/1024 |
| `Pit.Add64IsAddition` | `src/pit_handler.asm:13-16` | the carry-chained pair of adds is addition modulo 2^64 |
| `Pit.ClockCounts` | `src/pit_handler.asm:10-19` | after n ticks the clock is n times the increment modulo 2^64 |
| `Pit.DriftIsBounded` | `src/pit_handler.asm:10-19` | before it wraps the clock is within 64 units of 2^-32 ms per tick of true time |
| `Pit.Timer.InitWithReload` | `src/pit.c:32-48` | the reload value, where 1 becomes 2 and 0 becomes 65536, and the increment programmed for any argument |
| `Pit.Timer.Init` | `src/pit.c:19-30` | the programmed reload is in [2, 65536], 65535 below 18 Hz, 65536 from 65536 Hz on, and is a nearest one iff 55 <= frequency <= 65535 |
| `Pit.Timer.Tick` | `src/pit_handler.asm:10-19` | one interrupt adds the increment modulo 2^64 |
| `Pit.Timer.Ticks` | `src/pit_handler.asm:10-19` | n interrupts from zero add n times the increment |
| `MemoryMove.MemMove` | `src/memmgnt.c:11-22` | the destination receives what the source held before, however they overlap, and nothing else changes |
| `MemoryMove.MemSet` | `src/memmgnt.c:31-35` | exactly the given bytes become the low byte of the value |
| `MemoryMove.ImmortalArena.Malloc` | `src/memmgnt.c:57-76` | blocks are aligned, disjoint and inside the arena, at the first place that fits; fails iff it would not fit or the size is 0 |
| `MemoryMove.RoundUp` | `src/memmgnt.c:67` | rounding up gives a multiple less than one step above |

## Left out

- ProcessTheorems.StoresAreIsolated: stores to [0x7000, end of the kernel image) are not steps of the machine. The kernel's variables are not words of the modelled memory, so what a store into the kernel image or the kernel stack below it does to them is not followed; `StoresStayInsideIff` says which stores these are.
- UserMemory.MemoryOverRuns: the kernel's own variables between 0x7000 and the end of its image change as the kernel runs; these words are followed only as far as user stores go.
- Kernel.Kernel.Switch: saving the registers of an interrupted process is not part of the machine, because the code never stores them back into the process; `set_cr3` and enabling or disabling paging change no modelled state.
- Kernel.Kernel.Enqueue: `argc` and `argv` are not modelled, and the register context of a process before its first switch, which the code leaves as the arena held it, is given as the fresh one; nothing depends on it.
- Kernel.Kernel.PagefaultHandler: the messages printed, and `error_code` bits other than the user bit, which the code does not read.
- Scheduler.Scheduler.ScheduleProcess: how many nodes fit the scheduler arena is the parameter `capacity`, since the code sizes the arena by `Process` and steps it by `SchedulerNode`; node addresses and the free list of nodes, to which nothing is ever returned, are not modelled. The process record inside a node is kept beside it, under its pid.
- Accessed and dirty bits, the TLB and caches, and interrupts that arrive inside handlers.
- The zeroing of a page is modelled word by word, not byte by byte.
- MemoryMove.ImmortalArena.Malloc: only the arena the loop reaches is modelled, and wrap-around of the rounding for alignments near 2^32 is not.
- IntegerField.FieldLength: width and precision are mathematical integers; overflow of `int` for widths near 2^31 (undefined in C) is not modelled.
- IntegerField.ParseIntRoundTrip: the reading is on mathematical integers; `ParseIntFitsIff` says for which numbers every step is an `int`.
- Printf.Vsnprintf: formats cut off inside a directive, missing arguments and arguments of another kind are excluded (`Format` is None); `s + n` must not wrap, which excludes `vsprintf`; the return value is not truncated to `int`. `%n` and unknown conversions are only skipped, as in the code. The comparison with the standard covers integer and `%s` directives; the code does not support floating point and the length modifiers C99 adds, and what `%p` prints is left to the implementation.
- Transcript.ScreenIsWindow: a backspace at column 0 goes back to a row by what the hardware memory shows, which has no counterpart on the transcript, so it is excluded from the claims about the transcript; the claims about chunks exclude it only where the two buffers disagree.
- Buffering.BufferingIsTransparent: escape sequences must be whole in each chunk; the code reads stale bytes otherwise.
- Consoles elsewhere: only the console at position (0,0) with 24 rows of 80 columns is modelled, the only one built; the comparison of a relative cursor with an absolute bound makes other positions differ.
- Partial rows: `vga_copy` and `vga_fill` are modelled for full rows, the only way the console calls them.
- Key tables: the 128 entries of the byte-to-code table and the characters a key prints are left abstract (`TableKey`).
- Keyboard.Keyboard.HandleBytes: channel 1 with its prefix byte and the resend counter it shares with channel 0, and commands queued later, are not modelled; sending does not time out.
- Ring overflow: overflowing the ring is the caller's error, as the source says.
- Interrupts.InterruptsAreInvisible: the handler is assumed to keep to the calling convention (ebx, cs, ss) and to leave alone the words pushed on entry, its constant context among them; in user mode these end at 0x7C00, below the kernel image, so all of the kernel's data may change. Handlers that never return, exit and the killing faults, are covered by RestoreStartsProcess. Interrupted kernel code must have a 4-aligned stack with 160 bytes of room. Not modelled: stubs that lie in the memory of the stack, segment checks of iret, and an interrupt inside the handler.
- Pit.Timer.InitWithReload: the reported `interrupt_frequency` and the writes to the timer's ports are not modelled.
- Port I/O, PS/2 controller and device initialisation, the interrupt controller, busy waits: hardware polling.
- ACPI tables, the boot loader, descriptor tables, `entry.c`, `experiments.c`, `hack.asm`, the build: fixed data and plumbing.
- `strlen` and `memcmp`: easy, or not the standard function.
