# keow kernel: a Dafny model

keow runs Linux programs on Windows. Its kernel is a debugger: it traps the system calls of the
processes it manages, reads and writes their memory and thread contexts, and answers in the way a Linux
kernel would. This project models the parts of that kernel with the most logic of their own and proves
what they are for.

| part | files |
|---|---|
| machine words, byte memory, a small x86 interpreter, shared names | `Words`, `ByteMemory`, `Cpu`, `Kernel` |
| signal frames, injected code, runs of one thread | `SignalFrames`, `SignalRuns`, `SignalProcess` |
| per-thread segment descriptors | `Descriptors`, `Ldt`, `LdtProcess` |
| memory of other processes: copies, strings, allocation | `AddressSpace`, `Transfer`, `BulkMemory`, `Allocator` |
| ELF loading, the program break, exec arguments, initial stack | `ProcessImage`, `StringLists`, `InitialStack` |
| paths, mounts, the /proc and /dev trie | `Paths`, `PathResolution`, `MountTable`, `StaticFilesystem` |
| kernel tables | `LinkedList`, `FileTable`, `Pids` |

Code that the kernel runs by updating state is a class or method with loops and `modifies` clauses; each is
proved against a function, and the properties over whole runs are proved about those functions.
`dafny verify dfyconfig.toml` checks everything.

## Main results

* **Interruption is transparent** (`SignalRuns.InterruptionIsTransparent`, `SignalRuns.DeliveryUnwinds`).
  However deliveries, nested handlers, system calls, GS stubs and other threads are interleaved, once what a
  signal pushed on the user stack is gone again, the thread has the registers (GS aside) and the outer frames
  it was interrupted with. The mask, which all threads of a process share, is the one from before unless
  others set another after the last handler gave it back. A handler that comes to its `ret` does get that far.
  The bytes the kernel writes are decoded and executed, not assumed to work.
* **Pending signals** (`SignalFrames.DispatchExactly`, `SignalRuns.MaskedSignalIsLost`). Which signals reach
  their handler, exactly, and what becomes of the others over every run.
* **One array is a map** (`Ldt.RunKeepsPair`). The flat 8192-slot table behaves as a map from
  (thread, entry number) to descriptor over every run. `Ldt.LeaksExactly` and `Ldt.RunKeepsLeaked` say which
  slots are lost on the way, and that they stay lost.
* **exec carries its arguments** (`InitialStack.SysExecve`). From the caller's memory through the kernel to
  the new stack pointer, every argv and envp arrives with the same strings in the same order.
* **Allocation and loading** (`Allocator.AllocateMemAndProtectProcess`, `ProcessImage.Process.LoadElfImage`,
  `ProcessImage.Process.RunBrks`). For every address, size and header table: which successes have their memory
  and their bytes, exactly, what is kept in any case, and that failures are Windows' refusals or requests outside
  user memory or the file.
* **Chunked copies are one copy** (`Transfer.ProcessReadWriteMemory`, `BulkMemory.TransferMemory`).
* **Paths** (`PathResolution.ResolvesToBestMount`, `Paths.ParseJoin`, `MountTable.MountUmountCancel`,
  `StaticFilesystem.Filesystem.CreateIOHandler`).
* **Kernel tables** (`FileTable.RunKeepsOwned`, `LinkedList.List`, `Pids.RunKeepsInv`, `Pids.PidOneIsInit`).

## Where the code does less than one would expect

Each of these is kept as the code has it; the named members give the exact condition, an input, or both.

* Two mounts on the same directory make the reported unix path repeat the directory's name, because the
  traversal appends the element once for each mount it enters (`PathResolution.UnixPathExactly`,
  `PathResolution.StackedMountsMisreport`).
* A reported allocation has its memory exactly if it starts at or above 64k and does not wrap past 4 GB
  (`Allocator.AllocateMemAndProtectProcess`). `Allocator.WrappedRequest` is granted with nothing at all;
  `Allocator.LowRequest` is granted, with nothing, exactly if Windows refuses it, and otherwise leaves granules
  reserved somewhere else.
* An ELF segment reported as loaded is in memory exactly if rounding its size up does not overflow and its range
  is one that an allocation can have (`ProcessImage.Process.LoadSegment`, `ProcessImage.AlignedRangeCovers`).
  `ProcessImage.Process.LoadWrappedSegment` is a header for which it is not.
* A break that grows from below 64k is granted without memory (`ProcessImage.Process.SysBrk`,
  `ProcessImage.Process.BreakFromNothing`).
* A GS load or a get of an entry number that the thread has not set, and a first set that Windows refuses,
  take a slot that nothing ever uses again (`Ldt.LeaksExactly`, `Ldt.RunKeepsLeaked`,
  `Ldt.TrapBeforeSetMisses`).
* Entry numbers that were never given out are not all refused: one that is the index of another pair's slot
  overwrites that pair (`Ldt.UnhandedNumberOverwrites`).
* A page-granular descriptor reaches past user memory for bases above 0x7FFEF000, and a limit that needs more
  than twenty bits is cut (`Descriptors.ReachIsBounded`, `Descriptors.PackDecodes`).
* Descriptor 1024 passes every bounds check, pipe does not look for a full table, and F_DUPFD calls through a
  null pointer when the duplicate fails (`FileTable.SafeExactly`). F_DUPFD refuses a limit with a positive
  EINVAL (`FileTable.DupFdRefusesExactly`, `FileTable.DupFdRefusalMisreads`).
* Assigning a list to itself empties it (`LinkedList.List.Assign`). So assigning a Path to itself takes its
  elements away and leaves its cached answer (`PathResolution.Path.Assign`, `PathResolution.AssignToItself`).
* A pending signal that is masked when its turn comes is dropped, not kept (`SignalFrames.DispatchExactly`,
  `SignalFrames.MaskedSignalIsDropped`, `SignalRuns.MaskedSignalIsLost`).
* The signal mask is the process's, but each frame saves it: what another thread sets while a handler runs is
  undone when the handler returns (`SignalRuns.StepKeepsDue`).
* Setting a relative path on the current directory's own Path object resolves against "/" unless its answer
  happens to be cached (`PathResolution.Path.SetUnixPath`).

## Model

| member | source | states |
|---|---|---|
| `Cpu.ContextLayout` | keow/keow-kernel/KeowKernel/Process.cpp:1684-1688 | the saved CONTEXT has each register at its Win32 offset |
| `SignalFrames.StubRestoresThread` | keow/keow-kernel/KeowKernel/Process.cpp:471-501 | for every context, wrap-around included, executing the fourteen injected bytes gives back every register and the saved GS, and only those fourteen bytes below Esp were written |
| `SignalFrames.AddSigAddsOne` | keow/keow-kernel/KeowKernel/Process.cpp:1789-1796 | masking the delivered signal sets its bit and no other, in either word of the set |
| `SignalFrames.HasSigIs` | keow/keow-kernel/KeowKernel/Process.cpp:1574 | signal s is the bit of the first or second mask word that counts 2^((s - 1) % 32) |
| `SignalFrames.FlagsAre` | keow/keow-kernel/KeowKernel/linux-abi/linux/linux_defines.h:355-362 | SA_SIGINFO, SA_NODEFER and SA_RESETHAND are the bits 0x4, 0x40000000 and 0x80000000 |
| `SignalFrames.SavedRoundTrip` | keow/keow-kernel/KeowKernel/sys_rtsig.cpp:57-70 | the saved record decodes to the context and mask it was made from |
| `SignalFrames.FrameLayout` | keow/keow-kernel/KeowKernel/Process.cpp:1711-1778 | the frame holds return address, signal number, siginfo pointer and siginfo if the action asks for one, zeros, the saved record and the restorer, each at its offset |
| `SignalFrames.FateExactly` | keow/keow-kernel/KeowKernel/Process.cpp:1542-1672 | for every state and signal: the process ends if and only if the signal is 9, or is unmasked with the default action and none of SIGCHLD, SIGCONT, SIGSTOP, SIGTSTP, SIGTTIN, SIGTTOU and SIGURG; a handler is called if and only if it is not 9 or 19, unmasked, and neither default nor ignore |
| `SignalFrames.DefaultActions` | keow/keow-kernel/KeowKernel/Process.cpp:1590-1634 | an input: with nothing set up SIGTERM ends the process and SIGCHLD does not |
| `SignalFrames.DispatchExactly` | keow/keow-kernel/KeowKernel/Process.cpp:356-375 | a pending signal that is not fatal is the only one no longer pending afterwards; its frame is pushed if and only if it is not 9 or 19, not masked, and its handler is neither default nor ignore; otherwise the thread goes on as if it had not been sent |
| `SignalFrames.MaskedSignalIsDropped` | keow/keow-kernel/KeowKernel/Process.cpp:1573-1578 | an input: signal 10, pending, masked and with a handler, is forgotten |
| `SignalFrames.SigReturnGives` | keow/keow-kernel/KeowKernel/sys_rtsig.cpp:57-70 | sigreturn and the stub leave the recorded registers and mask, and GS as on entry to the kernel |
| `SignalFrames.OtherEventGives` | keow/keow-kernel/KeowKernel/Process.cpp:640 | any other debug event gives back every register, mask, pending signals and actions |
| `SignalRuns.EspBelowAll` | keow/keow-kernel/KeowKernel/Process.cpp:1684-1810 | the stack pointer is below every live frame, so no delivery overwrites an outer frame's saved state |
| `SignalRuns.PushFrame` | keow/keow-kernel/KeowKernel/Process.cpp:1684-1810 | delivering a signal keeps every outer activation intact and adds one that can resume |
| `SignalRuns.RestorerFetch` | keow/keow-kernel/KeowKernel/Process.cpp:1711-1753 | the restorer bytes decode to mov ebx, mov eax, int 80 |
| `SignalRuns.HandlerEntered` | keow/keow-kernel/KeowKernel/Process.cpp:1684-1810 | a handled pending signal brings the thread, two instructions later, to the first instruction of its handler: arguments in registers and on the stack, restorer as return address, all other registers as interrupted, the mask exactly the action's plus the signal unless it asked otherwise, a one-shot handler reset |
| `SignalRuns.HandlerReturnStep` | keow/keow-kernel/KeowKernel/Process.cpp:1728-1778 | the handler's ret lands on the restorer of its own frame |
| `SignalRuns.RestorerRuns` | keow/keow-kernel/KeowKernel/Process.cpp:1711-1753 | from its first byte the restorer reaches int 80 as call 119 with Ebx at the saved record |
| `SignalRuns.ReturnRestores` | keow/keow-kernel/KeowKernel/sys_rtsig.cpp:57-70 | sigreturn is entered as call 119 with Ebx at the saved record, and reads from it exactly the interrupted context and mask |
| `SignalRuns.HandlerReturns` | keow/keow-kernel/KeowKernel/sys_rtsig.cpp:57-70 | with no signal pending, the handler's ret, the restorer, sigreturn and the GS stub can all run, in six steps, and give back the interrupted registers and mask with nothing of the frame left |
| `SignalRuns.StepKeepsInv` | keow/keow-kernel/KeowKernel/Process.cpp:346-460 | every step by kernel, program or other threads, which may change memory, pending signals, mask and actions, keeps every interrupted state recoverable |
| `SignalRuns.RunKeepsInv` | keow/keow-kernel/KeowKernel/Process.cpp:346-460 | so does every run |
| `SignalRuns.SignalEnabledExactly` | keow/keow-kernel/KeowKernel/Process.cpp:356-375 | a run can take a pending signal if and only if the stack has room and the signal does not end the process |
| `SignalRuns.FreshThread` | keow/keow-kernel/KeowKernel/Process.cpp:346-460 | a thread with nothing injected is in order, and so is every state it reaches |
| `SignalRuns.StepKeepsDue` | keow/keow-kernel/KeowKernel/Process.cpp:1745-1796 | no step changes the mask that is due when the activations are undone, except a mask set by others while no handler is live |
| `SignalRuns.UnwoundState` | keow/keow-kernel/KeowKernel/Process.cpp:346-460 | activations are undone innermost first, each to the registers it interrupted; the mask is the one due, or what others last set outside every handler |
| `SignalRuns.InterruptionIsTransparent` | keow/keow-kernel/KeowKernel/Process.cpp:346-460 | after any well-nested run, registers (GS aside) and outer frames are those from before the signal or debug event, and the mask is exactly the one from before or the last one others set outside every handler |
| `SignalRuns.DeliveryUnwinds` | keow/keow-kernel/KeowKernel/Process.cpp:346-460 | whatever ran since a delivery, once its handler comes to its ret with nothing pending the run unwinds, and registers and mask are those from before the delivery |
| `SignalRuns.MaskedSignalIsLost` | keow/keow-kernel/KeowKernel/Process.cpp:1573-1578 | a signal masked when its turn comes pushes no frame, and over every run in which nobody sends it again no step acts on it, however masks change |
| `SignalProcess.Process.ResumeKeowProcess` | keow/keow-kernel/KeowKernel/Process.cpp:462-509 | the in-place code pushes exactly the stub of the model |
| `SignalProcess.Process.HandleSignal` | keow/keow-kernel/KeowKernel/Process.cpp:1518-1810 | which signals end the process, pass or are handled, and the frame, context, mask and action after a handled one |
| `SignalProcess.Process.DispatchPending` | keow/keow-kernel/KeowKernel/Process.cpp:356-375 | the lowest pending signal is taken and acted on, and ends the process exactly if it is fatal |
| `SignalProcess.Process.SysSigreturn` | keow/keow-kernel/KeowKernel/sys_rtsig.cpp:49-70 | context and mask come from the record at Ebx, GS from before the call |
| `Descriptors.PackDecodes` | keow/keow-kernel/KeowKernel/MemoryHelper.cpp:572-609 | the processor reads the requested base, granularity, size, type and presence, and the clamped limit if and only if it fits twenty bits |
| `Descriptors.MaxLimitIsTight` | keow/keow-kernel/KeowKernel/MemoryHelper.cpp:574-586 | the clamp is the largest limit that stays in user memory above the base, in pages above the base rounded up |
| `Descriptors.ReachIsBounded` | keow/keow-kernel/KeowKernel/MemoryHelper.cpp:572-609 | the last byte reachable stays in user memory for every limit if and only if the base is at most 0x7FFEF000 (pages) or 0x7FFEFFFF (bytes) |
| `Ldt.SlotsAreDistinct` | keow/keow-kernel/KeowKernel/MemoryHelper.cpp:456-500 | distinct (thread, entry) pairs have distinct slots, all in 16..8191 |
| `Ldt.SetNumbered` | keow/keow-kernel/KeowKernel/sys_mem.cpp:357-388 | when a set of a given entry succeeds, what it changes in the map, and that no slot moves |
| `Ldt.SetAny` | keow/keow-kernel/KeowKernel/sys_mem.cpp:357-388 | a -1 request is given the lowest free slot's number, never one given out before |
| `Ldt.GetReturnsLastSet` | keow/keow-kernel/KeowKernel/sys_mem.cpp:392-412 | a get returns what the same thread last set and changes nothing; for a pair never set it takes a slot and returns a blank, or fails when the table is full |
| `Ldt.TrapSelectsSlot` | keow/keow-kernel/KeowKernel/MemoryHelper.cpp:638-666 | a trapped GS load selects the slot where the hardware has that thread's last descriptor |
| `Ldt.LeaksExactly` | keow/keow-kernel/KeowKernel/MemoryHelper.cpp:678-723 | an operation loses a slot if and only if there is room, the pair is not set and nothing gets recorded; it is then the lowest free one |
| `Ldt.RunKeepsLeaked` | keow/keow-kernel/KeowKernel/MemoryHelper.cpp:456-723 | over every run a lost slot stays lost, is no pair's slot, and no set, get or GS load uses it |
| `Ldt.TrapBeforeSetMisses` | keow/keow-kernel/KeowKernel/MemoryHelper.cpp:638-666 | the slot that a GS load before the first set selects is used by nothing in any later run |
| `Ldt.UnhandedNumberOverwrites` | keow/keow-kernel/KeowKernel/MemoryHelper.cpp:678-723 | a set with the number of another pair's slot succeeds for the slot's owner, and that pair's descriptor can no longer be got |
| `Ldt.BadNumberRefused` | keow/keow-kernel/KeowKernel/MemoryHelper.cpp:680-694 | a number outside 1..8191, or whose slot nobody owns, is refused by set and get and changes nothing |
| `Ldt.OwnNumberAccepted` | keow/keow-kernel/KeowKernel/MemoryHelper.cpp:680-694 | any other number whose slot the thread owns is that slot's, for set and get |
| `Ldt.StepKeepsInv` | keow/keow-kernel/KeowKernel/MemoryHelper.cpp:456-723 | every operation keeps the refinement, the slots and the numbers given out |
| `Ldt.NewProcessRuns` | keow/keow-kernel/KeowKernel/Process.cpp:90 | from a new process's zeroed table every run keeps the refinement |
| `Ldt.RunKeepsPair` | keow/keow-kernel/KeowKernel/MemoryHelper.cpp:456-723 | over every run in which the thread does not set the entry again, its descriptor, its slot, what get returns and what a GS load selects stay the same |
| `LdtProcess.Process.AllocateLDTSelector` | keow/keow-kernel/KeowKernel/MemoryHelper.cpp:456-500 | the loop over the table takes the lowest free slot |
| `LdtProcess.Process.CalculateLDTEntryForThread` | keow/keow-kernel/KeowKernel/MemoryHelper.cpp:678-723 | the slot an entry number means for a thread, allocated if need be |
| `LdtProcess.Process.GetLDTSelector` | keow/keow-kernel/KeowKernel/MemoryHelper.cpp:504-519 | the descriptor recorded in that slot |
| `LdtProcess.Process.SetLDTSelector` | keow/keow-kernel/KeowKernel/MemoryHelper.cpp:524-632 | table and hardware get the descriptor, clamped, in that slot, if Windows accepts it |
| `LdtProcess.Process.HandlePossibleLDTException` | keow/keow-kernel/KeowKernel/MemoryHelper.cpp:638-666 | only mov gs, eax is handled; Eax, GS and the GS to be restored become the thread's selector and Eip moves past the instruction |
| `LdtProcess.Process.SysSetThreadArea` | keow/keow-kernel/KeowKernel/sys_mem.cpp:357-388 | the system call is the model's SetThreadArea |
| `LdtProcess.Process.SysGetThreadArea` | keow/keow-kernel/KeowKernel/sys_mem.cpp:392-412 | the system call is the model's GetThreadArea |
| `Transfer.MovePiece` | keow/keow-kernel/KeowKernel/MemoryHelper.cpp:158-252 | the Win32 contract: a call inside one page at both ends moves its bytes where there is memory, a call that crosses a page moves nothing |
| `Transfer.MoveLocalPiece` | keow/keow-kernel/KeowKernel/MemoryHelper.cpp:186-240 | a piece inside one local page is moved completely, in one or two remote pieces each inside a page |
| `Transfer.ProcessReadWriteMemory` | keow/keow-kernel/KeowKernel/MemoryHelper.cpp:158-252 | the chunked copy is one copy of the whole range in the chosen direction, with wrap at 4 GB, and reports all bytes when all pages are there |
| `BulkMemory.TransferMemory` | keow/keow-kernel/KeowKernel/MemoryHelper.cpp:281-295 | copying through a 4k buffer is one copy, also inside one process when the ranges do not overlap; in every case only the target range changes, and a negative length changes nothing |
| `BulkMemory.FillMem` | keow/keow-kernel/KeowKernel/MemoryHelper.cpp:302-324 | the whole range, and only it, gets the fill byte; a negative length fills nothing |
| `BulkMemory.TakeUntilNul` | keow/keow-kernel/KeowKernel/MemoryHelper.cpp:428-434 | a block gives the string its bytes up to the first NUL, and says whether there was one |
| `BulkMemory.ReadString` | keow/keow-kernel/KeowKernel/MemoryHelper.cpp:411-440 | exactly the bytes before the first NUL; no page read beyond the NUL's |
| `Allocator.ReserveRange` | keow/keow-kernel/KeowKernel/MemoryHelper.cpp:62-88 | from 64k up every page touched ends up reserved, nothing changes outside the rounded 64k range, failure only on a refusal or beyond user memory; below 64k it goes on only after a refusal, and otherwise leaves a reservation elsewhere |
| `Allocator.CommitRange` | keow/keow-kernel/KeowKernel/MemoryHelper.cpp:90-115 | every page touched ends up committed unless it was never reserved; pages that gain memory gain zeros; failure only on a refusal |
| `Allocator.AllocateMemAndProtectProcess` | keow/keow-kernel/KeowKernel/MemoryHelper.cpp:42-120 | for every address, none included: committed pages keep state and contents, the granule invariant holds, from 64k up nothing changes outside the rounded range; a reported range has all its memory if and only if it starts at or above 64k and does not wrap; when it fails and what a failure leaves behind |
| `Allocator.WrappedRequest` | keow/keow-kernel/KeowKernel/MemoryHelper.cpp:62-69 | an input: everything from 64k to the end of memory is granted with nothing allocated |
| `Allocator.LowRequest` | keow/keow-kernel/KeowKernel/MemoryHelper.cpp:67-88 | an input: the second page of memory is granted, with nothing allocated, if and only if Windows refuses |
| `ProcessImage.AlignedRangeCovers` | keow/keow-kernel/KeowKernel/Process.cpp:1090-1101 | for every power-of-two alignment the range starts at the multiple just below vaddr + base and is a multiple long; it contains the segment if and only if the rounded size does not overflow, and then ends at the multiple just above |
| `ProcessImage.Process.AllocateMemAndProtect` | keow/keow-kernel/KeowKernel/MemoryHelper.cpp:123-129 | as the allocator, and a success is remembered at the address it was given |
| `ProcessImage.Process.LoadSegment` | keow/keow-kernel/KeowKernel/Process.cpp:1086-1141 | for every header: after a reported success with a sound range the file bytes are at (vaddr + base) mod 2^32, zeros behind them and in the rest of the aligned range; with any other range they are not; bytes it does not touch are kept; when it fails |
| `ProcessImage.Process.LoadElfImage` | keow/keow-kernel/KeowKernel/Process.cpp:1081-1164 | for every table with filesz at most memsz and disjoint ranges: after a reported success all segments are in memory together, each at vaddr + base, if and only if all their ranges are sound; untouched memory is kept; the break is the highest aligned end, at or above vaddr + base + memsz of every segment if the ranges are sound; when it fails |
| `ProcessImage.MaxEndIsOne` | keow/keow-kernel/KeowKernel/Process.cpp:1149-1150 | the break is the old one or the aligned end of one of the segments |
| `ProcessImage.Process.LoadWrappedSegment` | keow/keow-kernel/KeowKernel/Process.cpp:1104-1141 | an input: a header reported as loaded with no page allocated and the segment not in memory |
| `ProcessImage.Process.SysBrk` | keow/keow-kernel/KeowKernel/sys_mem.cpp:41-81 | the reply and new break in every case; the break never falls; what is granted has memory if and only if the old break is at or above 64k, and then everything from the load-time break on stays backed |
| `ProcessImage.Process.BreakFromNothing` | keow/keow-kernel/KeowKernel/sys_mem.cpp:62-79 | an input: with no break yet, the first page is granted and not there |
| `ProcessImage.Process.RunBrks` | keow/keow-kernel/KeowKernel/sys_mem.cpp:41-81 | over every run of brk calls the same holds, no committed byte changes, and every granted break stays granted |
| `StringLists.PackedIsList` | keow/keow-kernel/KeowKernel/MemoryHelper.cpp:376-408 | the packed form is a null-terminated list of exactly these strings |
| `StringLists.ScanList` | keow/keow-kernel/KeowKernel/MemoryHelper.cpp:345-371 | the first pass finds every string's address and size |
| `StringLists.WriteList` | keow/keow-kernel/KeowKernel/MemoryHelper.cpp:384-408 | the second pass writes the packed form and nothing else |
| `StringLists.CopyStringListBetweenProcesses` | keow/keow-kernel/KeowKernel/MemoryHelper.cpp:332-408 | the list arrives in pages that were free, nothing committed changes, failure only when Windows refuses memory |
| `InitialStack.StackIsRight` | keow/keow-kernel/KeowKernel/Process.cpp:1376-1422 | the stack's bytes amount to argc, argv, envp, auxv up to AT_NULL and the end marker |
| `InitialStack.AuxValues` | keow/keow-kernel/KeowKernel/Process.cpp:1393-1414 | each auxiliary entry with its value: gid, uid, entry point, interpreter base, header count, size and address, page size, AT_NULL |
| `InitialStack.StackNeedsPages` | keow/keow-kernel/KeowKernel/Process.cpp:1380-1391 | a program can read its arguments only from a stack with memory for both pointer arrays |
| `InitialStack.BuildStack` | keow/keow-kernel/KeowKernel/Process.cpp:1376-1422 | the writes are one contiguous run from the stack pointer |
| `InitialStack.FinishStack` | keow/keow-kernel/KeowKernel/Process.cpp:1357-1422 | a new program reads its arguments from the stack, and only the stack_needed bytes were written |
| `InitialStack.StartNewImageRunning` | keow/keow-kernel/KeowKernel/Process.cpp:1345-1422 | the lists the kernel held are on the new stack; failure only when Windows refuses memory |
| `InitialStack.SysExecve` | keow/keow-kernel/KeowKernel/sys_process.cpp:213-250 | for every argv and envp, the new program reads the same argc and strings in the same order from its stack pointer; only the stack_needed bytes of what was committed change; failure only when Windows refuses memory |
| `Paths.AppendNormal` | keow/keow-kernel/KeowKernel/Path.cpp:123-176 | appending never leaves an empty element, ".", ".." or a slash inside an element |
| `Paths.AppendCompose` | keow/keow-kernel/KeowKernel/Path.cpp:123-176 | appending a and then a relative b is appending a/b |
| `Paths.ParseJoin` | keow/keow-kernel/KeowKernel/Path.cpp:179-193 | parsing "/" and the joined list gives the list back |
| `Paths.JoinInjective` | keow/keow-kernel/KeowKernel/Path.cpp:179-193 | different normal lists join to different strings |
| `Paths.AppendDotDot` | keow/keow-kernel/KeowKernel/Path.cpp:155-160 | ".." takes the last element away, if there is one |
| `Paths.AppendUp` | keow/keow-kernel/KeowKernel/Path.cpp:123-176 | an element followed by ".." comes to nothing |
| `Paths.AppendNeutral` | keow/keow-kernel/KeowKernel/Path.cpp:150-154 | "." and empty pieces change nothing |
| `Paths.AppendPath` | keow/keow-kernel/KeowKernel/Path.cpp:123-176 | the find-and-cut loop is the character scan that these laws are about |
| `Paths.JoinList` | keow/keow-kernel/KeowKernel/Path.cpp:179-193 | the loop joins in order with slashes between |
| `Paths.EqualsPartialPath` | keow/keow-kernel/KeowKernel/Path.cpp:355-376 | true exactly for the first otherLen elements |
| `PathResolution.ResolvesToBestMount` | keow/keow-kernel/KeowKernel/Path.cpp:262-345 | the latest mount on the longest mounted non-empty prefix, else the root mount |
| `PathResolution.ResolvesInside` | keow/keow-kernel/KeowKernel/Path.cpp:252-345 | when there is no link to follow: the real path is the best mount's destination, the path inside the mount is separator and element for each element the mount is not on, with ".lnk" behind a link, and the win32 path is the two joined |
| `PathResolution.EtcResolves` | keow/keow-kernel/KeowKernel/Path.cpp:332-333 | an input: /etc in a root at C:\keow |
| `PathResolution.ResolvesLink` | keow/keow-kernel/KeowKernel/Path.cpp:310-328 | a link in the last element: a relative destination goes on from the link's directory, an absolute one starts afresh |
| `PathResolution.UnixPathExactly` | keow/keow-kernel/KeowKernel/Path.cpp:262-345 | when there is no link to follow the unix path is "/" plus the joined elements if and only if no prefix carries two mounts |
| `PathResolution.FollowedExactly` | keow/keow-kernel/KeowKernel/Path.cpp:297-338 | a link is followed if and only if the path follows links and one of its elements, on no mount point, is a link; until then both kinds of walk agree |
| `PathResolution.StackedMountsMisreport` | keow/keow-kernel/KeowKernel/Path.cpp:282-295 | two mounts on /mnt make /mnt report another path |
| `PathResolution.Path.Copy` | keow/keow-kernel/KeowKernel/Path.cpp:35-41 | the copy's cache is good whenever the original's was |
| `PathResolution.Path.Assign` | keow/keow-kernel/KeowKernel/Path.cpp:68-79 | the copy's cache is good whenever the original's was; assigned to itself a Path loses its elements, and its cache is good if and only if it is to be computed again or the answer is the root's |
| `PathResolution.AssignToItself` | keow/keow-kernel/KeowKernel/Path.cpp:68-79 | an input: a Path for a name in the root assigned to itself still answers that name with no elements left |
| `PathResolution.Path.SetUnixPath` | keow/keow-kernel/KeowKernel/Path.cpp:82-104 | the new elements, also when the path is the current directory's own, and a cache equal to a fresh resolution |
| `PathResolution.Path.FollowSymLinks` | keow/keow-kernel/KeowKernel/Path.cpp:107-111 | changing the setting leaves no stale answer |
| `PathResolution.Path.AppendUnixPath` | keow/keow-kernel/KeowKernel/Path.cpp:114-118 | appending leaves no stale answer |
| `PathResolution.Path.GetUnixPath` | keow/keow-kernel/KeowKernel/Path.cpp:223-232 | cached or not, the answer of a fresh resolution |
| `PathResolution.Path.GetWin32Path` | keow/keow-kernel/KeowKernel/Path.cpp:235-241 | cached or not, the answer of a fresh resolution, which `PathResolution.ResolvesInside` describes |
| `PathResolution.Path.GetPathInFilesystem` | keow/keow-kernel/KeowKernel/Path.cpp:243-249 | cached or not, the answer of a fresh resolution, which `PathResolution.ResolvesInside` describes |
| `PathResolution.Path.TranverseMountPoints` | keow/keow-kernel/KeowKernel/Path.cpp:262-345 | the traversal loop computes the resolution of the model |
| `MountTable.TargetIs` | keow/keow-kernel/KeowKernel/sys_mount.cpp:60-61 | an absolute target stands for itself, a relative one is looked up from the current directory |
| `MountTable.TargetIsPath` | keow/keow-kernel/KeowKernel/sys_mount.cpp:60-61 | the elements of a target are those a Path gets from it |
| `MountTable.Table.SysMount` | keow/keow-kernel/KeowKernel/sys_mount.cpp:42-129 | when it succeeds, and that it then appends a mount on the elements of its target; the error otherwise |
| `MountTable.Table.SysUmount` | keow/keow-kernel/KeowKernel/sys_mount.cpp:135-166 | removes the latest mount on the elements of its target, or fails |
| `MountTable.RemoveLatestIs` | keow/keow-kernel/KeowKernel/sys_mount.cpp:145-166 | exactly that entry goes, the rest keeps its order |
| `MountTable.UmountUndoesMount` | keow/keow-kernel/KeowKernel/MountPoint.cpp:47-67 | umount right after mount restores the table |
| `MountTable.MountAndUmount` | keow/keow-kernel/KeowKernel/sys_mount.cpp:42-166 | at call level: umount of the string just mounted succeeds and restores the table |
| `MountTable.NestRestores` | keow/keow-kernel/KeowKernel/sys_mount.cpp:97-166 | properly nested mounts and umounts on any targets restore the table |
| `MountTable.BalancedRestores` | keow/keow-kernel/KeowKernel/sys_mount.cpp:97-166 | every run, interleaved in any way, in which no target is ever unmounted more often than mounted and the totals agree restores the table |
| `MountTable.MountUmountCancel` | keow/keow-kernel/KeowKernel/sys_mount.cpp:97-166 | with any operations on other targets in between, table and resolution of every path are as without the pair |
| `StaticFilesystem.Filesystem.AddFileInternal` | keow/keow-kernel/KeowKernel/FilesystemGenericStatic.cpp:71-113 | the heap tree stays the tree of the registered patterns, now with this file |
| `StaticFilesystem.Filesystem.AddListerInternal` | keow/keow-kernel/KeowKernel/FilesystemGenericStatic.cpp:115-156 | likewise for a lister, keeping a handler that was there |
| `StaticFilesystem.Filesystem.Lookup` | keow/keow-kernel/KeowKernel/FilesystemGenericStatic.cpp:173-224 | the node selected by "exact name, else star, level by level", and the elements under its stars in order |
| `StaticFilesystem.Filesystem.CreateIOHandler` | keow/keow-kernel/KeowKernel/FilesystemGenericStatic.cpp:173-293 | the handler or lister called and its arguments, as a function of the registrations and the path alone |
| `StaticFilesystem.RouteExactly` | keow/keow-kernel/KeowKernel/FilesystemGenericStatic.cpp:183-224 | the selected pattern is the one that at each level has the name itself if it is called for and a star only if it is not |
| `StaticFilesystem.CapturedAt` | keow/keow-kernel/KeowKernel/FilesystemGenericStatic.cpp:219-220 | the k-th captured element is the path's element under the k-th star |
| `StaticFilesystem.AnswersExactly` | keow/keow-kernel/KeowKernel/FilesystemGenericStatic.cpp:226-290 | which paths are missing, files or directories, and the handler, lister, names and arguments of each |
| `StaticFilesystem.RouteFits` | keow/keow-kernel/KeowKernel/FilesystemGenericStatic.cpp:183-224 | the selected pattern matches the path element by element |
| `StaticFilesystem.FilesHaveHandlers` | keow/keow-kernel/KeowKernel/FilesystemGenericStatic.cpp:226-243 | a file answer below the root comes from a registered, non-null handler with as many arguments as its pattern has stars |
| `LinkedList.List.PushBack` | keow/keow-kernel/KeowKernel/List.h:163-175 | appends; prev and next stay mutually inverse |
| `LinkedList.List.PopBack` | keow/keow-kernel/KeowKernel/List.h:178-192 | removes and returns the last element |
| `LinkedList.List.Find` | keow/keow-kernel/KeowKernel/List.h:195-204 | the first node with the value, or the end |
| `LinkedList.List.Erase` | keow/keow-kernel/KeowKernel/List.h:207-224 | removes exactly the element at the iterator |
| `LinkedList.List.EraseValue` | keow/keow-kernel/KeowKernel/List.h:227-230 | removes the first occurrence, if any |
| `LinkedList.List.Empty` | keow/keow-kernel/KeowKernel/List.h:240-243 | true exactly for the empty sequence |
| `LinkedList.List.Clear` | keow/keow-kernel/KeowKernel/List.h:233-237 | empties the list |
| `LinkedList.List.Size` | keow/keow-kernel/KeowKernel/List.h:246-256 | the length of the sequence |
| `LinkedList.List.At` | keow/keow-kernel/KeowKernel/List.h:150-160 | the element at the index; for any other index, the end iterator is dereferenced |
| `LinkedList.List.Assign` | keow/keow-kernel/KeowKernel/List.h:137-147 | a copy in new nodes; self-assignment empties |
| `FileTable.FindFreeIsLowest` | keow/keow-kernel/KeowKernel/Process.cpp:2117-2125 | the lowest free descriptor, or none |
| `FileTable.CallKeepsOwned` | keow/keow-kernel/KeowKernel/sys_io.cpp:198-301 | every call keeps: distinct handlers in distinct slots, no handler deleted twice, every handler made either in its slot or deleted |
| `FileTable.SafeExactly` | keow/keow-kernel/KeowKernel/sys_io.cpp:493-607 | a call stays in bounds and off null pointers if and only if the named condition on its arguments and the table holds |
| `FileTable.OthersUnchanged` | keow/keow-kernel/KeowKernel/sys_io.cpp:277-301 | descriptors a call does not name, or that are taken, keep their handlers |
| `FileTable.CloseExactly` | keow/keow-kernel/KeowKernel/sys_io.cpp:277-301 | close of an open descriptor replies 0, frees it and deletes exactly its handler; of any other it replies -EBADF and changes nothing |
| `FileTable.ClosedUntilGiven` | keow/keow-kernel/KeowKernel/sys_io.cpp:277-301 | after a close that replied 0 the descriptor is not open until some call gives it out again |
| `FileTable.OpenExactly` | keow/keow-kernel/KeowKernel/sys_io.cpp:212-255 | the reply, table and deletions of open in every case |
| `FileTable.Dup2Exactly` | keow/keow-kernel/KeowKernel/sys_io.cpp:563-607 | the reply, table and deletions of dup2 in every case; an open target is closed even if the duplicate fails |
| `FileTable.DupExactly` | keow/keow-kernel/KeowKernel/sys_io.cpp:536-554 | dup is dup2 to the lowest free descriptor |
| `FileTable.DupFdExactly` | keow/keow-kernel/KeowKernel/sys_io.cpp:493-520 | the reply and table of F_DUPFD in every case |
| `FileTable.PipeExactly` | keow/keow-kernel/KeowKernel/sys_io.cpp:917-939 | the reading end takes the lowest free descriptor, the writing end the next |
| `FileTable.LowestIsTaken` | keow/keow-kernel/KeowKernel/sys_io.cpp:536-554 | open, dup and F_DUPFD return the lowest free descriptor, which then holds the handler |
| `FileTable.Dup2KeepsSource` | keow/keow-kernel/KeowKernel/sys_io.cpp:563-607 | dup2 never deletes the handler it is about to duplicate |
| `FileTable.DupFdRefusesExactly` | keow/keow-kernel/KeowKernel/sys_io.cpp:506-510 | an open descriptor is refused with positive EINVAL if and only if the lowest free descriptor is above the limit |
| `FileTable.DupFdRefusalMisreads` | keow/keow-kernel/KeowKernel/sys_io.cpp:506-510 | an input on which the refusal reads as descriptor 22 |
| `FileTable.ExecKeepsInheritable` | keow/keow-kernel/KeowKernel/Process.cpp:2140-2151 | exec closes exactly the descriptors that are not inheritable |
| `FileTable.RunKeepsOwned` | keow/keow-kernel/KeowKernel/sys_io.cpp:198-301 | over every run: ownership holds, a handler never changes its descriptor and leaves it exactly when it is deleted |
| `FileTable.Process.FindFreeFD` | keow/keow-kernel/KeowKernel/Process.cpp:2117-2125 | the loop over the array |
| `FileTable.Process.SysOpen` | keow/keow-kernel/KeowKernel/sys_io.cpp:198-270 | the array, the handlers made and deleted, and the reply |
| `FileTable.Process.SysClose` | keow/keow-kernel/KeowKernel/sys_io.cpp:277-301 | likewise |
| `FileTable.Process.SysDup` | keow/keow-kernel/KeowKernel/sys_io.cpp:536-554 | likewise |
| `FileTable.Process.SysDup2` | keow/keow-kernel/KeowKernel/sys_io.cpp:563-607 | likewise |
| `FileTable.Process.SysFcntlDupFd` | keow/keow-kernel/KeowKernel/sys_io.cpp:452-520 | likewise |
| `FileTable.Process.SysPipe` | keow/keow-kernel/KeowKernel/sys_io.cpp:917-939 | likewise |
| `FileTable.Process.CloseBeforeExec` | keow/keow-kernel/KeowKernel/Process.cpp:2140-2151 | likewise |
| `Pids.SearchIsFirstFree` | keow/keow-kernel/KeowKernel/Process.cpp:198-216 | the search takes the first of 10000 cyclic probes that is free, and fails exactly if none is |
| `Pids.ProbesReachAll` | keow/keow-kernel/KeowKernel/Process.cpp:200-216 | going on long enough the probes come to every pid from 2 to 0xFFFF |
| `Pids.ForkFailsOnlyWhenFull` | keow/keow-kernel/KeowKernel/Process.cpp:202-207 | a fork fails only with at least 10000 processes in the table |
| `Pids.ForkKeepsInv` | keow/keow-kernel/KeowKernel/Process.cpp:198-224 | the new pid is not in use, and is 1 exactly when no pid was tried before and init is gone |
| `Pids.RunKeepsInv` | keow/keow-kernel/KeowKernel/Process.cpp:198-224 | over every run of forks and reaps pids are distinct and in 1..0xFFFF |
| `Pids.RemoveIs` | keow/keow-kernel/KeowKernel/sys_process.cpp:470-473 | a reap takes out that process and keeps the order of the others |
| `Pids.PidOneIsInit` | keow/keow-kernel/KeowKernel/Process.cpp:198-217 | over every run in which forks are made by processes in the table, no fork is given pid 1 |
| `Pids.KernelTable.FindProcess` | keow/keow-kernel/KeowKernel/KernelTable.cpp:92-104 | found exactly if a process has the pid |
| `Pids.KernelTable.StartFork` | keow/keow-kernel/KeowKernel/Process.cpp:198-224 | the loop is the model's search; the process is appended |
| `Pids.KernelTable.Reap` | keow/keow-kernel/KeowKernel/sys_process.cpp:470-473 | the process leaves the list, the others keep their order |

## Left out

- Win32 is a set of contracts: memory reads and writes, VirtualQueryEx (assumed to succeed), VirtualAllocEx, thread contexts, NtSetInformationProcess. `Space.refusals` counts the requests Windows turns down for want of memory or room. A region that VirtualQueryEx reports does not cross the end of user memory.
- Signals a process raises on itself in HandleException, signals under ptrace, stopping and resuming threads, core dumps; signal 0 is taken never to be pending, because its mask bit is a shift by -1.
- The signal model takes the stack pages as present and asks programs and other threads to leave live frames above the stack pointer alone and to return from handlers in nesting order; sigreturn with a forged record, longjmp out of a handler and GS itself are not covered.
- SignalRuns.RunKeepsInv: assumes room on the stack for what is pushed, so a stack pointer near address 0 is not covered; the stub alone is covered with wrap-around.
- LDT use through modify_ldt and marker entries (bIsReallyLDT), which get an owner that is never found again.
- Ldt.RunKeepsPair: covers entry numbers handed out by -1 requests; `Ldt.UnhandedNumberOverwrites` shows why others are not covered.
- StringLists.CopyStringListBetweenProcesses: when the allocation fails the code goes on and writes the list to address 0 or -1; the model stops there with a failure, and says nothing of what those writes do. Lists total less than 2 GB.
- BulkMemory.TransferMemory: what arrives from a source with missing pages, or with overlapping ranges in one process, is not stated, because the buffer then keeps bytes of the previous chunk or sees bytes already overwritten; only that nothing else changes. Above 0x7FFFF000 bytes the loop's own int arithmetic overflows, which is undefined.
- InitialStack.SysExecve: asks for a stack with memory for all that is written to it; the code reserves 1 MB and checks nothing, so some 260,000 arguments do not fit (`InitialStack.StackNeedsPages`). "#!" scripts, image loading in between, and the move of the process's memory to the new image are not modelled; the new image's memory is a parameter. The register reset and the freeing of the kernel's copies are left out.
- ProcessImage.Process.LoadElfImage: bss_start, program_base, program_max, last_lib_addr, the interpreter and the other header types are not modelled; for tables with overlapping ranges, or more bytes in the file than in memory, only what is kept and when it fails is stated.
- PathResolution.ResolvesLink: covers the first link of a path, in its last element; where the code goes on behind a followed link is modelled and not claimed to be right. The filesystems' answers are functions.
- MountTable.Table.SysMount: the checks on target and source directory are parameters, and so is the unix path of the current directory.
- StaticFilesystem.Filesystem.AddFileInternal: asks for patterns whose node is not there yet and for a true star count, as every caller in /proc and /dev gives; a second file of the same name would be a second sibling.
- StaticFilesystem.Filesystem.CreateIOHandler: what handlers and listers themselves produce, and the order of a directory's fixed names, are left out; a root without children or lister has handler 0.
- FileTable.RunKeepsOwned: covers runs of calls that are safe in the sense of `FileTable.SafeExactly`; handlers are numbers, their reading and writing is left out, and so is the copying of the table at fork.
- Pids.RunKeepsInv: forks and reaps happen one after the other; the code does not lock the process list.
- LinkedList.List.PopBack: asks for a list that is not empty, as the code dereferences the last node; deallocation of nodes is not modelled.
- Memory mapping, sockets, select, terminals, devices, file operations, process groups, waiting, orphan reparenting, freeing memory before exec: plumbing around Win32 or stubs.
