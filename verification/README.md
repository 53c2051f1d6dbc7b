# Nachos: a verified model

Nachos is a teaching operating system kernel that runs on its own machine simulator. This project
models the parts where the kernel's correctness is decided and proves what they promise, in four
layers, each on the contract of the one below.

1. **Monitors and scheduling.** Threads, the FIFO scheduler and semaphores with their re-checking
   wait loop (`Kernel.dfy`, `KernelCode.dfy`, `KernelLaws.dfy`); `Lock` from two semaphores and an owner id
   (`LockModel.dfy`); `Condition` from a counter and two semaphores (`ConditionModel.dfy`); the
   blocking queue `SynchList` (`SynchList.dfy`); creation, exit and join of user threads
   (`JoinModel.dfy`); the synchronous disk (`SynchDiskModel.dfy`) and its timing (`DiskTiming.dfy`);
   delivery of mail (`PostOfficeModel.dfy`). The protocols are transition systems over an unbounded set
   of threads with explicit program counters, and the theorems are about every schedule. Semaphores are proved
   first; P and V are then single steps of `Lock` and `Condition`, whose operations are in turn
   single steps of their clients.
2. **The simulated machine.** The shift-and-add multiplier (`Words.dfy`), the MIPS I instruction set
   with delayed loads (`Mips.dfy`, `MipsCode.dfy`) and what each instruction word does
   (`InstructionLaws.dfy`), what preemption does to a user program (`Preemption.dfy`) and which
   instructions can tell (`DelaySlot.dfy`), address translation (`Memory.dfy`), simulated time and
   pending interrupts (`InterruptTime.dfy`, `InterruptCode.dfy`, `InterruptLaws.dfy`) on the linked list
   of `threads/list.cc` (`LinkedList.dfy`).
3. **Memory management and loading.** The word-packed bit map (`Bitmap.dfy`), frames, page tables
   and NOFF loading (`Spaces.dfy`, `SpacesCode.dfy`): address spaces are private byte arrays.
4. **The file system.** Bytes on sectors (`Storage.dfy`), open files (`OpenFiles.dfy`), headers and
   the free map (`FileHeaders.dfy`), the directory (`Directories.dfy`), ownership of sectors
   (`FileSystems.dfy`), what each operation changes (`FileSystemSteps.dfy`), the map a disk stands for
   and the room it leaves (`FileMaps.dfy`), the table of open files (`OpenFileTable.dfy`), whole runs
   with files that stay open (`FileSystemRuns.dfy`, `FileMapRuns.dfy`) and the operations
   (`FileSystemCode.dfy`): a disk is a map from names to byte strings, and an open file is a position in
   one of them.

Code that updates fields or arrays step by step is a class or a method with loops, proved against
a specification function or relation; the theorems are about those. `Counting.dfy` holds the lemmas
about counting threads.

`dafny verify dfyconfig.toml` checks everything.

Conventions. Machine words are numbers from 0 to 2^32 - 1 (`Word`), signed ones are `Int32`, and
wrap-around is written out (`Wrap`, `Signed`, `Unsigned`). Bits of a word are its binary digits.
Random choices, interrupt times, what interrupt handlers do, what other processes do to their own
memory, and the contents of uninitialised memory are arbitrary parameters.

Where the code does not keep a promise of its documentation, the model follows the code and states
the exact condition:

- `Lock` excludes when only holders release it, whatever the ids (`LockExcludes`). With releases by
  others it excludes in every run if and only if thread ids are distinct (`ExclusionIffDistinctTids`);
  the main threads of all processes carry id 1.
- A look at the pending interrupts keeps their order if and only if the first one shares its time with
  no other (`PeekKeepsOrderIff`). In general, when the first time has a group of n interrupts, k ticks
  that come too early turn the group k times, and it fires in the order it had if and only if k is a
  multiple of n (`EqualTimesOrderIff`); the first polls of the console and of the network fire swapped
  (`EqualTimesCanSwap`).
- The join condition table is never left in runs with ids up to n if and only if n is below
  `UserThreadMax` (`TableSafeIff`), which bounds live threads and not ids.
- Removing a directory entry as a file keeps the ownership of sectors, and writing into it keeps the disk
  consistent whatever is written, if and only if its name is not "." or ".."
  (`RemoveKeepsOwnershipIff`, `WriteKeepsConsistentIff`): the open table opens every name that the
  directory holds (code/filesys/openfiletable.cc:43-77).
- A removal does not look at the table of open files, and an open file keeps its header in memory.
  Writing through it keeps the disk consistent, whatever is written and wherever, if and only if no data
  sector of that header is by now the header of a file or the system's (`ThroughHeaderIff`,
  `WriteThroughOpenIff`).
  Create, open, remove, create twice and write spoils every disk (`RemovedWhileOpenSpoils`,
  `RemoveWhileOpen`). While no open file is removed, every write goes to the file of its name
  (`RunRefinesMap`).
- A load pending for register r can be applied before an instruction without a trace, in every state
  with the page table of a process, if and only if the instruction is unaffected by r
  (`EarlyLoadInvisibleIff`), a condition on the instruction alone that the delay-slot rule implies.
  `CheckIfDue` applies it at any instruction.
- `GetEmptyFrame` returns with its lock held if and only if no frame is free.

## Model

| member | source | states |
|---|---|---|
| KernelModel.RunInvariant | code/threads/synch.cc:64-99 | every run keeps the partition of the threads and the no-lost-wake-up count of every semaphore |
| KernelModel.EveryThreadInOnePlace | code/threads/thread.cc:179-305 | in every reachable state each live thread is the current one, or on the ready list once, or on one semaphore queue once, or finished, and its status matches |
| KernelModel.FinishFindsNoCarcass | code/threads/thread.cc:179-195 | at each Finish threadToBeDestroyed is NULL; a finished thread is freed once and never while current |
| KernelModel.SemaphoreConservation | code/threads/synch.cc:64-99 | a semaphore's value is its initial value plus completed V minus completed P |
| KernelModel.SleepersHaveNoToken | code/threads/synch.cc:64-99 | while the wait queue is non-empty the value is at most the number of threads woken and not yet re-checked, each of those is ready or current, and with nobody ready or running the value is 0 |
| KernelModel.DispatchedInTurn | code/threads/scheduler.cc:53-142 | the thread at ready index k is the current one after k + 1 dispatches |
| KernelLaws.LongestSleeperWakes | code/threads/synch.cc:88-99 | in every run V makes exactly the thread ready that fell asleep first on the semaphore, if any sleeps there, puts it at the end of the ready list and moves no other thread |
| KernelLaws.ForkedThreadRuns | code/threads/thread.cc:103-135 | a forked thread is ready behind all ready threads, and the dispatch after those makes it current |
| KernelLaws.FinishedThreadIsFreed | code/threads/thread.cc:179-195 | in every continuation a finished thread stays current until the first dispatch, which frees it; it is freed once and never a thread again |
| KernelCode.Kernel.constructor | code/threads/system.cc:157-157 | the kernel boots with the main thread running and the given semaphores |
| KernelCode.Kernel.ReadyToRun | code/threads/scheduler.cc:53-60 | the thread becomes ready and goes to the end of the list, nothing else changes |
| KernelCode.Kernel.FindNextToRun | code/threads/scheduler.cc:70-74 | the first ready thread is taken, or none when the list is empty |
| KernelCode.Kernel.Run | code/threads/scheduler.cc:90-142 | the next thread becomes current and running, and a finished thread is freed |
| KernelCode.Kernel.ForkThread | code/threads/thread.cc:103-135 | is the Fork action of the model |
| KernelCode.Kernel.YieldCpu | code/threads/thread.cc:215-232 | is the Yield action: the caller goes behind the ready threads and the first of them runs |
| KernelCode.Kernel.TestAndTake | code/threads/synch.cc:69-74 | one pass of the loop in P: sleep on the queue when the value is 0, otherwise take one |
| KernelCode.Kernel.SemaphoreP | code/threads/synch.cc:64-78 | is the P action, or its resumption after a wake-up |
| KernelCode.Kernel.SemaphoreV | code/threads/synch.cc:88-99 | is the V action: wakes the first sleeper and increments in any case |
| KernelCode.Kernel.FinishThread | code/threads/thread.cc:179-195 | is the Finish action, and its ASSERT holds |
| KernelCode.Kernel.SleepSwitch | code/threads/thread.cc:253-268 | is the switch at the end of Sleep to the first ready thread |
| LockModel.LockExcludes | code/threads/synch.cc:118-147 | with distinct ids, or when only holders release, at most one thread is between Acquire and Release in every run, ownerID names it, and the else branch of Acquire is not reached |
| LockModel.SharedTidDefeatsLock | code/threads/synch.cc:135-147 | two threads with one id can be made to hold the lock together by a stray release |
| LockModel.ExclusionIffDistinctTids | code/threads/synch.cc:118-147 | over all runs with stray releases, mutual exclusion holds if and only if ids are distinct |
| LockModel.LockRefinesAtomicCell | code/threads/synch.cc:118-147 | every run has a history of holders of an atomic lock: it starts free, stands for the state at each point, is taken only while free by the thread at the test in Acquire, and freed only by its holder at the test in Release |
| LockModel.LockProgress | code/threads/synch.cc:118-147 | a thread that cannot move waits for a lock holder, or some thread can move |
| LockModel.AcquireFindsOwner | code/threads/synch.cc:125-133 | an Acquire that finds an owner gives its token back, leaves the owner alone and returns |
| ConditionModel.ConditionAccounting | code/threads/synch.cc:164-205 | totalSleepers plus the value of sleepLock is the number of registered waiters, corrected by one between V and decrement |
| ConditionModel.SignalReachesWaiter | code/threads/synch.cc:179-191 | at its test Signal decides to issue a token exactly when a registered waiter has none |
| ConditionModel.SignalIssues | code/threads/synch.cc:179-191 | one whole Signal, whatever others do meanwhile, issues one token if a registered waiter had none at its test, and otherwise none |
| ConditionModel.BroadcastIssues | code/threads/synch.cc:193-205 | one whole Broadcast, whatever others do meanwhile, issues one token for each waiter registered without one when it entered |
| ConditionModel.OwedIsPaid | code/threads/synch.cc:179-205 | over any stretch of a run inside Signal or Broadcast, the tokens issued and still owed stay the same together |
| ConditionModel.BroadcastReachesAll | code/threads/synch.cc:193-205 | Broadcast leaves its loop exactly when every registered waiter has a token |
| ConditionModel.BroadcastOwnsTheCounter | code/threads/synch.cc:193-205 | while a thread holds innerLock nobody else changes the counter or issues a token |
| ConditionModel.TokenHasTaker | code/threads/synch.cc:164-191 | an outstanding token always has a waiter that can take it |
| ConditionModel.WaitReturnsWithMonitor | code/threads/synch.cc:164-177 | in every run a thread inside Wait is without the monitor lock from its release on and has it, found free, when Wait returns; the lock changes hands only by its taker and its holder |
| SynchListModel.FifoUnderEveryInterleaving | code/threads/synchlist.cc:53-82 | in every run what was removed followed by what is queued is what was appended, one thread is inside at a time, and the ASSERT holds |
| SynchListModel.NoLostWakeup | code/threads/synchlist.cc:53-82 | when removers sleep, no token is out and no append is in progress, the list is empty |
| SynchListModel.DeadlockFree | code/threads/synchlist.cc:53-82 | some operation in progress can move, or all of them wait for an item on an empty list |
| ThreadTable.WithoutRemoves | code/userprog/addrspace.cc:295-321 | removal from a table without repetitions takes out exactly the given id |
| ThreadTable.Table.constructor | code/userprog/addrspace.cc:149-152 | the table starts with the main thread |
| ThreadTable.Table.ContainThreadID | code/userprog/addrspace.cc:323-338 | true exactly when the id is in the table |
| ThreadTable.Table.AddThreadID | code/userprog/addrspace.cc:280-293 | appends an id that is not there yet |
| ThreadTable.Table.ShiftUp | code/userprog/addrspace.cc:303-309 | the entry at i is gone and the later ones have moved up |
| ThreadTable.Table.RemoveThreadID | code/userprog/addrspace.cc:295-321 | the table without the first occurrence of the id |
| ThreadTable.Table.GetNextThreadID | code/userprog/addrspace.cc:340-343 | ids increase by one |
| JoinModel.JoinReturnsAfterExit | code/userprog/userthread.cc:83-109 | in every run a join returned 0 only for ids that were removed |
| JoinModel.JoinAnswers | code/userprog/userthread.cc:83-109 | in every run, of a join that has tested its target, the next result is 0 if the target was in the table at the test and -1 otherwise |
| JoinModel.RefusalsAreJustified | code/userprog/userthread.cc:83-98 | in every run each result of -1 belongs to a thread that joined itself or to a join whose target was not in the table when it was tested |
| JoinModel.JoiningItself | code/userprog/userthread.cc:83-90 | in every run a thread that joins itself gets -1 at once and nothing else happens, and no thread ever waits for itself |
| JoinModel.JoinerReturns | code/userprog/userthread.cc:100-108 | once the target of a join is removed and the lock is free, the steps of the joiner alone lead to the result 0 |
| JoinModel.JoinOfMainReturns | code/userprog/userthread.cc:83-109 | the main thread creates thread 2 and joins it: it waits while 2 is in the table and returns 0 after the exit of 2 |
| JoinModel.IdsNeverReissued | code/userprog/addrspace.cc:340-343 | ids are given once, in increasing order, and a removed id is in no later table |
| JoinModel.RemovalReleasesWaiters | code/userprog/addrspace.cc:295-381 | after RemoveThreadID(t) the waiters on condition t are as many as its tokens, and each can go on |
| JoinModel.SleepersAreJustified | code/userprog/userthread.cc:100-104 | a sleeping joiner waits for an id in the table or has a token |
| JoinModel.ConditionTableInRange | code/userprog/addrspace.cc:373-381 | while fewer than UserThreadMax ids were given the condition table is indexed inside its bounds |
| JoinModel.TableSafeIff | code/userprog/addrspace.cc:373-381 | over all runs that give out ids up to n, the condition table is never left if and only if n is below UserThreadMax |
| JoinModel.LastThreadOverflowsIff | code/userprog/userthread.cc:33-81 | after n creations the exit of the last thread leaves the table exactly when n is at least UserThreadMax - 1 |
| SynchDiskModel.DiskNeverAskedTwice | code/machine/disk.cc:115-153 | ASSERT(!active) holds in every run |
| SynchDiskModel.ReturnsAfterOwnInterrupt | code/filesys/synchdisk.cc:72-109 | a sector call returns only after the interrupt of its own request, with the logged result |
| SynchDiskModel.CallsAreSequential | code/filesys/synchdisk.cc:72-97 | disk and results are those of the logged calls executed one after the other |
| SynchDiskModel.ReadsSeeLastWrite | code/filesys/synchdisk.cc:72-97 | in every run a read delivers the data of the last write to its sector that was accepted before it, or the initial contents, and so does the disk in the end |
| SynchDiskModel.DiskProgress | code/filesys/synchdisk.cc:72-109 | while a call is in progress a thread can move or an interrupt is pending |
| DiskTiming.LatencyIsPositive | code/machine/disk.cc:232-270 | a latency is never zero, as Schedule asserts, and the track buffer began to fill before the next request |
| DiskTiming.HeadArrives | code/machine/disk.cc:179-253 | without the track buffer the interrupt comes at the first moment after the seek at which the head has passed over the whole sector |
| DiskTiming.BufferedIff | code/machine/disk.cc:232-270 | a request is served from the track buffer exactly when it is a read on the same track and the head has passed over the whole sector since the buffer began to fill |
| DiskTiming.LatencyIs | code/machine/disk.cc:179-253 | a read on the same track of a sector that the head has passed over since the buffer began to fill takes 500 ticks; any other request ends with the first moment, 500 ticks per track and 500 ticks or more later, at which the head has just passed over the whole sector |
| DiskTiming.HeadMoves | code/machine/disk.cc:255-270 | afterwards the head is at the new sector; the buffer goes on filling on the same track and begins anew at the first sector boundary after a seek |
| DiskTiming.ModuloDiff | code/machine/disk.cc:202-209 | the sectors to pass until the target's position on the track |
| PostOfficeModel.SlotFullIffAnnounced | code/machine/network.cc:59-86 | the input slot is full exactly when there is one token or the worker is between P and Receive; the asserts hold |
| PostOfficeModel.NoPacketLost | code/network/post.cc:228-253 | what arrived is what was put, then held by the worker, then in the slot, then in the socket, in order |
| PostOfficeModel.MailArrivesInOrder | code/network/post.cc:100-140 | each mailbox hands out in order exactly the packets addressed to it |
| PostOfficeModel.MailKeepsMoving | code/network/post.cc:228-253 | while a packet is on its way the worker can move or the next poll takes one in |
| PostOfficeModel.AdmittedPackets | code/network/post.cc:268-298 | exactly the packets that the asserts of the senders admit reach the socket, in order |
| Multiplier.Mult | code/machine/mipssim.cc:691-748 | hi and lo are the exact 64-bit product, signed or unsigned, of every pair of 32-bit operands |
| Multiplier.MultiplyPatterns | code/machine/mipssim.cc:713-734 | the loop with arithmetic shift and early exit multiplies the two bit patterns |
| Multiplier.AddDouble | code/machine/mipssim.cc:721-724 | adds two double words with carry |
| Multiplier.ShiftDouble | code/machine/mipssim.cc:728-732 | doubles a double word |
| Multiplier.NegateDouble | code/machine/mipssim.cc:738-744 | two's complement of a double word |
| InstructionLaws.EveryWordHasFields | code/machine/mipssim.cc:645-690 | every word is put together from its fields, so the laws below are about all words |
| InstructionLaws.RegisterArithmetic | code/machine/mipssim.cc:140-167 | ADD and SUB trap with OverflowException exactly when the signed result is no 32-bit integer and write it otherwise, ADDU and SUBU write it modulo 2^32, SLT and SLTU write 1 exactly for smaller signed and unsigned numbers; the outcome fixes every register, the memory and the page table |
| InstructionLaws.ImmediateArithmetic | code/machine/mipssim.cc:150-163 | the same for ADDI, ADDIU, SLTI and SLTIU with the sign-extended field, and LUI |
| InstructionLaws.RegisterLogic | code/machine/mipssim.cc:386-396 | AND, OR, XOR and NOR write the word whose 32 binary digits are combined one by one |
| InstructionLaws.ImmediateLogic | code/machine/mipssim.cc:397-400 | ANDI, ORI and XORI do so with the field without its sign |
| InstructionLaws.Shifts | code/machine/mipssim.cc:413-512 | SLL multiplies by 2^n modulo 2^32, SRL divides the unsigned and SRA the signed number by 2^n rounding down; n is the field or the lowest five bits of rs |
| InstructionLaws.HiAndLo | code/machine/mipssim.cc:210-385 | MULT and MULTU leave the double-word product, DIV and DIVU numbers with lo * b + hi == a, hi smaller than b in magnitude and with the sign of a, MTHI and MTLO set one half |
| InstructionLaws.FromHiAndLo | code/machine/mipssim.cc:360-367 | MFHI and MFLO copy one half |
| InstructionLaws.Branches | code/machine/mipssim.cc:176-209 | BEQ is taken exactly when the registers are equal, BNE exactly when they are not, BLEZ and BGTZ by the sign of rs; the target is a signed number of words from the delay slot, which runs in any case |
| InstructionLaws.BranchesOnSign | code/machine/mipssim.cc:181-204 | BLTZ, BGEZ, BLTZAL and BGEZAL follow the sign of rs, which for the last two is the return address when rs is register 31 |
| InstructionLaws.Jumps | code/machine/mipssim.cc:234-239 | J and JAL keep the upper four bits of the address behind the delay slot |
| InstructionLaws.RegisterJumps | code/machine/mipssim.cc:240-245 | JR and JALR go where rs points, and JALR writes rd first |
| InstructionLaws.Loads | code/machine/mipssim.cc:246-358 | a load leaves its value pending for rt: LB and LH extend the sign of the bytes at the translated address, LBU and LHU do not, LWR replaces the lowest byte of rt; misaligned addresses and failed translations trap with the address, LWL and LWR assert instead |
| InstructionLaws.Stores | code/machine/mipssim.cc:401-532 | SB, SH and SW put the lowest bytes of rt at the translated address, lowest first, and change no other byte |
| InstructionLaws.PartialStores | code/machine/mipssim.cc:533-589 | SWL on an aligned address stores the whole word, SWR its lowest byte at the highest address |
| InstructionLaws.SystemCall | code/machine/mipssim.cc:590-592 | SYSCALL traps |
| InstructionLaws.IllegalExactly | code/machine/mipssim.cc:602-605 | the processor raises IllegalInstrException exactly for the words that the machine does not implement |
| InstructionLaws.FetchFaults | code/machine/mipssim.cc:105-117 | a failed fetch traps with the program counter as the bad address |
| Preemption.ReadSetsComplete | code/machine/mipssim.cc:138-609 | an instruction depends on no register outside its read set |
| Preemption.WriteSetRight | code/machine/mipssim.cc:138-609 | an instruction writes no general register but its destination |
| Preemption.FlushInvisible | code/machine/mipssim.cc:631-638 | for an instruction that respects the delay slot an early DelayedLoad(0, 0) changes nothing |
| Preemption.FlushVisibleInDelaySlot | code/machine/mipssim.cc:631-638 | with a load of a new value pending for r1 and ADDU r2, r1, r0 fetched, applying the load early changes the outcome |
| DelaySlot.EarlyLoadInvisibleIff | code/machine/mipssim.cc:105-638 | for every instruction word and register: no state with the page table of a process, in which a load is pending for the register, shows whether it was applied before the instruction, if and only if the instruction is unaffected |
| DelaySlot.UnaffectedSeesNothing | code/machine/mipssim.cc:105-638 | an unaffected instruction has the same outcome with the load applied early, in every state of a process |
| DelaySlot.AffectedSeesLoad | code/machine/mipssim.cc:105-638 | for every other instruction a state of a process is built in which the outcomes differ |
| DelaySlot.PreemptionOfUnaffected | code/machine/interrupt.cc:324-335 | preemptions at any boundaries are invisible to every program whose instructions are unaffected by the loads pending before them |
| DelaySlot.RespectsSuffices | code/machine/mipssim.cc:623-638 | the delay-slot rule implies that the instruction is unaffected |
| Preemption.StepSameView | code/machine/mipssim.cc:105-621 | an instruction sees memory only through the page table |
| Preemption.PreemptionInvisible | code/machine/interrupt.cc:324-335 | any preemptions at any boundaries, with any activity of other processes, leave registers, program counters, memory image and exceptions of a delay-slot-respecting program unchanged |
| MipsCode.Processor.ApplyDelayedLoad | code/machine/mipssim.cc:631-638 | is DelayedLoad on the register array |
| MipsCode.Processor.DoLoad | code/machine/mipssim.cc:246-358 | the load cases of the switch |
| MipsCode.Processor.DoWrite | code/machine/mipssim.cc:401-411 | a store through WriteMem, or its exception |
| MipsCode.Processor.DoPartialStore | code/machine/mipssim.cc:533-588 | the SWL and SWR cases behind their alignment asserts |
| MipsCode.Processor.DoStore | code/machine/mipssim.cc:401-411 | the store cases of the switch |
| MipsCode.Processor.DoHiLo | code/machine/mipssim.cc:360-384 | the cases for hi and lo; MULT and MULTU run Mult |
| MipsCode.Processor.Switch | code/machine/mipssim.cc:138-609 | the switch changes memory and delivers results as Execute specifies |
| MipsCode.Processor.Retire | code/machine/mipssim.cc:611-621 | applies the pending load and advances the program counters |
| MipsCode.Processor.ExecuteOne | code/machine/mipssim.cc:105-621 | is OneInstruction on registers and memory in place |
| MipsCode.Processor.RaiseException | code/machine/machine.cc:108-119 | records the address and finishes the delayed load |
| MipsCode.Processor.SaveUserState | code/threads/thread.cc:408-413 | all registers are copied to the thread |
| MipsCode.Processor.RestoreUserState | code/threads/thread.cc:424-429 | all registers are copied back |
| MipsCode.Processor.ContextSwitch | code/threads/thread.cc:408-429 | applying the pending load, saving the registers, letting others overwrite registers and their own frames, and restoring is the preemption of the runs |
| LinkedList.InsertAt | code/threads/list.cc:185-216 | the new element lands in front of the first greater key |
| LinkedList.InsertSortedStable | code/threads/list.cc:185-216 | insertion keeps the order and puts equal keys in order of arrival |
| LinkedList.InsertKeepsEntries | code/threads/list.cc:185-216 | insertion adds exactly the new entry |
| LinkedList.List.constructor | code/threads/list.cc:43-46 | the new list is empty |
| LinkedList.List.IsEmpty | code/threads/list.cc:161-168 | true exactly for the empty list |
| LinkedList.List.Append | code/threads/list.cc:76-91 | the chain stands for the old sequence with the item at its end |
| LinkedList.List.Prepend | code/threads/list.cc:105-120 | the chain stands for the item followed by the old sequence |
| LinkedList.List.FindPlace | code/threads/list.cc:201-210 | the walk stops at the last element in front of the first greater key |
| LinkedList.List.SortedInsert | code/threads/list.cc:185-216 | the chain stands for the sorted insertion |
| LinkedList.List.SortedRemove | code/threads/list.cc:231-254 | the first entry is returned and the chain stands for the rest |
| LinkedList.List.Remove | code/threads/list.cc:131-134 | the first item is returned, or none |
| InterruptTime.TimeNeverRunsBack | code/machine/interrupt.cc:153-182 | over every run total ticks are idle plus system plus user ticks, no handler runs early, and firing times never decrease |
| InterruptTime.EveryInterruptAccounted | code/machine/interrupt.cc:267-339 | what was scheduled is what fired together with what is pending, each once |
| InterruptTime.FiringDrains | code/machine/interrupt.cc:293-339 | each firing leaves one interrupt fewer due, the measure of the drain loops |
| InterruptTime.DrainLeavesNothingDue | code/machine/interrupt.cc:172-173 | the drain loop ends with nothing due, or in idle mode with just a timer interrupt |
| InterruptTime.OneTickFiresAllThatIsDue | code/machine/interrupt.cc:153-182 | after a tick of a machine that is not idle nothing is due and interrupts are on |
| InterruptTime.IdleHaltsIff | code/machine/interrupt.cc:213-237 | Idle halts exactly when nothing is pending or a timer interrupt is alone, which stays pending |
| InterruptTime.PeekKeepsOrderIff | code/machine/interrupt.cc:309-315 | a look at a list with nothing due leaves it unchanged exactly when the first interrupt shares its time with no other |
| InterruptTime.TurnedIs | code/machine/interrupt.cc:309-315 | k turns of a group of n put its element k mod n first |
| InterruptTime.EarlyTicksTurn | code/machine/interrupt.cc:309-315 | in every run, k ticks in front of the first time turn the group of interrupts for that time k times and fire nothing |
| InterruptTime.EqualTimesOrderIff | code/machine/interrupt.cc:294-339 | in every run outside idle mode, after k early ticks and one in time the group has fired in the order of the turned list, which is the order it had if and only if k is a multiple of its size, whatever the handlers do |
| InterruptTime.EqualTimesCanSwap | code/machine/interrupt.cc:309-315 | the first polls of console and network, scheduled in this order for one time, fire in the other |
| InterruptLaws.SetLevelTicks | code/machine/interrupt.cc:118-130 | in every run that is not halted and not in idle mode, enabling interrupts when they were off adds 10 ticks in system and 1 in user mode to the total and to that counter, leaves nothing due and fires exactly what was due then, in order; any other change of the level changes only the level |
| InterruptLaws.InstructionTicks | code/machine/interrupt.cc:153-182 | the same for the tick after a user instruction |
| InterruptLaws.RequestIsPending | code/machine/interrupt.cc:267-278 | in every run a request is pending for its time after its call, beside what was pending before; nothing fires and time stands still |
| InterruptLaws.IdleJumps | code/machine/interrupt.cc:213-237 | in every run Idle moves time to the first pending interrupt, counts the difference as idle and fires that interrupt first, unless nothing or only a timer interrupt is pending |
| InterruptLaws.HandlersAreHeard | code/machine/interrupt.cc:330-336 | in every run each request of each handler that ran is in the log for the time it asked for |
| InterruptLaws.YieldIffAsked | code/machine/interrupt.cc:172-181 | when the due interrupts have fired, a yield is asked for exactly when it was before or one of their handlers asked for it |
| InterruptCode.Interrupt.constructor | code/machine/interrupt.cc:60-67 | the initial state of the clock |
| InterruptCode.Interrupt.Schedule | code/machine/interrupt.cc:267-278 | is Schedule of the model |
| InterruptCode.Interrupt.YieldOnReturn | code/machine/interrupt.cc:196-200 | inside a handler, a yield is asked for |
| InterruptCode.Interrupt.RunHandler | code/machine/interrupt.cc:334-334 | the handler's calls of Schedule, one after the other, and its request for a yield |
| InterruptCode.Interrupt.CallHandler | code/machine/interrupt.cc:330-336 | the handler runs in system mode with inHandler set; afterwards both are as before and the clock is that of Fire |
| InterruptCode.Interrupt.CheckIfDue | code/machine/interrupt.cc:293-339 | is CheckIfDue of the model, with its ASSERT |
| InterruptCode.Interrupt.DrainDue | code/machine/interrupt.cc:172-173 | the loop ends and is Drain of the model |
| InterruptCode.Interrupt.OneTick | code/machine/interrupt.cc:153-182 | is OneTick of the model |
| InterruptCode.Interrupt.SetLevel | code/machine/interrupt.cc:118-130 | is SetLevel of the model and returns the old level, for callers that its ASSERT admits |
| InterruptCode.Interrupt.Idle | code/machine/interrupt.cc:213-237 | is Idle of the model |
| Memory.AccessStaysInPage | code/machine/translate.cc:186-255 | a translated access lies inside one frame and inside memory |
| Memory.TranslateSucceeds | code/machine/translate.cc:186-255 | with a well-formed table translation succeeds exactly for aligned addresses inside the space, and changes no mapping |
| Memory.TranslateVerdict | code/machine/translate.cc:186-255 | which exception each failing access raises, by the first check that fails; a successful one keeps the offset and sets use, and for a write dirty, of its page alone |
| Memory.BitsRecordAccesses | code/machine/translate.cc:186-255 | over any sequence of accesses use is set exactly for the pages that an allowed access touched, dirty exactly for those that an allowed write touched, and the mapping stays |
| Memory.DecodeEncode | code/machine/translate.cc:101-166 | reading what was stored gives the value truncated to its size |
| Memory.StoredByteOrder | code/machine/translate.cc:137-169 | a byte read at the k-th address of a stored value gives its bits 8k to 8k + 7 |
| Memory.LoadedByteOrder | code/machine/translate.cc:87-122 | the k-th byte of a value that is read is the image's byte at the k-th address |
| Memory.ReadSeesImage | code/machine/translate.cc:87-122 | a read delivers the bytes of the space's image |
| Memory.WriteChangesImage | code/machine/translate.cc:137-169 | a write overlays the image of the space and nothing else of it |
| Memory.WriteKeepsOtherImage | code/machine/translate.cc:137-169 | a write changes no byte that a table with other frames sees |
| Spaces.LoadedByte | code/userprog/addrspace.cc:127-141 | from the bytes of the executable: with virtualAddr, inFileAddr and size of code and data read from offsets 4 and 16, byte v of the image is the file's byte at inFileAddr + v - virtualAddr for v in the data segment, else for v in the code segment, as far as the file has it, and 0 everywhere else |
| Spaces.HeaderBytes | code/bin/noff.h:8-26 | the header fields are the little-endian words at offsets 0, 4 to 15, 16 to 27 and 36 |
| Spaces.LoadedSize | code/userprog/addrspace.cc:68-100 | the image has the sizes of code, data and bss and 2048 bytes of stack, rounded up to 128; an executable is loadable exactly when its magic number is right, that fits into memory and its segments lie inside |
| Spaces.StoreBytesImage | code/userprog/addrspace.cc:453-475 | writing byte after byte through scattered frames overlays the image |
| Spaces.RunIsolated | code/userprog/addrspace.cc:94-125 | in every run live tables map to pairwise disjoint frames inside memory, exactly the marked ones |
| Spaces.SpacesArePrivateArrays | code/userprog/addrspace.cc:68-141 | creation, release, reads and writes do to the images what they do to private byte arrays |
| Spaces.ReadBack | code/machine/translate.cc:87-169 | reading back in the same space returns what was written |
| SpacesCode.Machine.constructor | code/machine/machine.cc:55-72 | memory of the right size |
| SpacesCode.Machine.TranslateAddress | code/machine/translate.cc:186-255 | is Translate, setting use and dirty bits in place |
| SpacesCode.Machine.ReadMemory | code/machine/translate.cc:87-122 | is ReadMem |
| SpacesCode.Machine.StoreAt | code/machine/translate.cc:150-166 | the bytes land at their address, the others stay |
| SpacesCode.Machine.WriteMemory | code/machine/translate.cc:137-169 | is WriteMem on the memory array |
| SpacesCode.FrameProvider.constructor | code/userprog/frameprovider.cc:8-18 | every frame but 0 is free |
| SpacesCode.FrameProvider.NumAvailFrame | code/userprog/frameprovider.cc:72-81 | the number of clear bits |
| SpacesCode.FrameProvider.GetEmptyFrame | code/userprog/frameprovider.cc:26-60 | some free frame, now marked and zeroed, other frames untouched; with none free, -1, nothing changed and the lock still held |
| SpacesCode.FrameProvider.CollectFree | code/userprog/frameprovider.cc:37-44 | exactly the free frames |
| SpacesCode.FrameProvider.ZeroFrame | code/userprog/frameprovider.cc:55-55 | the bytes of that frame are zero, the others as before |
| SpacesCode.FrameProvider.ReleaseFrame | code/userprog/frameprovider.cc:67-70 | the frame is free again |
| SpacesCode.MapPages | code/userprog/addrspace.cc:102-125 | the table maps each page to its own fresh zeroed frame |
| SpacesCode.AddrSpace.constructor | code/userprog/addrspace.cc:68-141 | is CreateStep of the model, and the image seen through the new table is the loaded one; or refuses when frames are missing and changes nothing |
| SpacesCode.AddrSpace.ReleaseFrames | code/userprog/addrspace.cc:477-488 | exactly the space's frames become free |
| SpacesCode.ReadAtVirtual | code/userprog/addrspace.cc:453-475 | stores the segment through the new table and puts the old table back |
| BitMaps.CountClearUpdate | code/userprog/bitmap.cc:115-124 | marking or clearing a bit changes the number of clear bits by what it changed |
| BitMaps.WithBitDigits | code/userprog/bitmap.cc:49-86 | setting or clearing one bit of a word leaves the other bits |
| BitMaps.TestBitIs | code/userprog/bitmap.cc:77-86 | bit k of a word w is set exactly when w / 2^k is odd |
| BitMaps.BitMap.constructor | code/userprog/bitmap.cc:20-27 | every bit is clear |
| BitMaps.BitMap.Mark | code/userprog/bitmap.cc:49-54 | that bit is set, the others stay |
| BitMaps.BitMap.Clear | code/userprog/bitmap.cc:63-68 | that bit is clear, the others stay |
| BitMaps.BitMap.Test | code/userprog/bitmap.cc:77-86 | the bit |
| BitMaps.BitMap.Find | code/userprog/bitmap.cc:97-107 | the first clear bit, now set, or -1 when there is none |
| BitMaps.BitMap.NumClear | code/userprog/bitmap.cc:115-124 | the number of clear bits |
| Storage.WordsRoundTrip | code/userprog/bitmap.cc:153-170 | words written as bytes are read back |
| Storage.HeaderRoundTrip | code/filesys/filehdr.cc:80-97 | a header written to its sector is fetched back |
| Storage.HeaderLayout | code/filesys/filehdr.h:58-63 | length, sector count and the thirty sectors lie at offsets 0, 4 and 8 + 4i of the header sector, lowest byte first |
| Storage.TableRoundTrip | code/filesys/directory.cc:63-80 | a directory table written as bytes is read back, paddings included |
| Storage.EntryLayout | code/filesys/directory.h:32-40 | entry i lies at 20i of the directory file: the use flag at 0, the sector at 4, the name from 8, the kind at 18 |
| Storage.FileBytesFrame | code/filesys/filehdr.cc:109-113 | the bytes of a file depend on its own data sectors only |
| OpenFiles.SpliceThenRead | code/filesys/openfile.cc:115-185 | what was written is read back and reads elsewhere are unchanged |
| OpenFiles.ReadDelivers | code/filesys/openfile.cc:115-143 | a read delivers the bytes from its position on, as many as were asked for and as there are |
| OpenFiles.SpliceAt | code/filesys/openfile.cc:145-185 | after a write the byte at each position of the file is the written one where the write covers it, and the old one elsewhere |
| OpenFiles.ChunksEqualOneWrite | code/filesys/openfile.cc:73-87 | splices in chunks of any sizes, the position moving along, equal one splice of the concatenation |
| OpenFiles.SynchDisk.ReadSector | code/filesys/synchdisk.cc:72-79 | the contents of the sector |
| OpenFiles.SynchDisk.WriteSector | code/filesys/synchdisk.cc:90-97 | that sector is replaced, the others stay |
| OpenFiles.OpenFile.constructor | code/filesys/openfile.cc:29-34 | the header is the one on the disk and the position is 0 |
| OpenFiles.OpenFile.ByteToSector | code/filesys/filehdr.cc:109-113 | the sector that holds the byte |
| OpenFiles.OpenFile.FillSectors | code/filesys/openfile.cc:133-137 | the buffer holds the sectors |
| OpenFiles.OpenFile.ReadAt | code/filesys/openfile.cc:115-143 | the slice of the file, cut off at its end |
| OpenFiles.OpenFile.Read | code/filesys/openfile.cc:73-79 | reads at the position and moves it by what was read |
| OpenFiles.OpenFile.Assemble | code/filesys/openfile.cc:164-177 | the buffer holds the new bytes and, around them, the file |
| OpenFiles.OpenFile.Flush | code/filesys/openfile.cc:179-182 | the sectors come from the buffer, all others stay |
| OpenFiles.OpenFile.WriteAt | code/filesys/openfile.cc:145-185 | what the header in memory lists becomes the splice cut off at its end, and no other sector changes |
| OpenFiles.OpenFile.Write | code/filesys/openfile.cc:81-87 | writes at the position and moves it by what was written |
| OpenFiles.OpenFile.WriteChunks | code/filesys/fstest.cc:65-68 | a loop of Writes leaves the file and the position as one Write of everything would, and no sector outside the header's list changes |
| FileHeaders.TakeSectorsTakes | code/filesys/filehdr.cc:41-54 | allocation takes different sectors that were clear and marks exactly those |
| FileHeaders.TakeThenClear | code/filesys/filehdr.cc:41-71 | freeing what was allocated restores the free map |
| FileHeaders.FileHeader.Allocate | code/filesys/filehdr.cc:41-54 | succeeds exactly when enough bits are clear; the header then lists the taken sectors |
| FileHeaders.FileHeader.Deallocate | code/filesys/filehdr.cc:63-71 | exactly the listed sectors are cleared, and each ASSERT holds |
| FileHeaders.FileHeader.FetchFrom | code/filesys/filehdr.cc:80-84 | the header in the sector |
| FileHeaders.FileHeader.WriteBack | code/filesys/filehdr.cc:93-97 | the sector holds the header, the others stay |
| FileHeaders.FetchMap | code/userprog/bitmap.cc:153-157 | the bits that the file stands for |
| FileHeaders.WriteMap | code/userprog/bitmap.cc:166-170 | the file stands for the bits, and no other sector changes |
| FileHeaders.MapLayout | code/userprog/bitmap.cc:153-170 | sector i is marked by bit i % 8 of byte i / 8 of the free map file |
| Directories.SameName | code/filesys/directory.cc:94-94 | strncmp finds names equal exactly when their padded first nine characters are |
| Directories.SameKeyIff | code/filesys/directory.cc:88-95 | two names are the same to the directory if and only if they agree in their first nine characters up to the first zero or the end |
| Directories.KeyCharacters | code/filesys/directory.cc:189-195 | in front of its end and below nine each character of a name is kept as it is, and zeros follow |
| Directories.LookupOnBytes | code/filesys/directory.cc:88-118 | on the bytes of the directory file: the first of ten entries with a use flag that is not zero and the same name to the directory, or -1 |
| Directories.NewEntry | code/filesys/directory.cc:189-195 | the entry is found under the given name whatever was stored in it before |
| Directories.AddKeepsLookup | code/filesys/directory.cc:197-218 | after adding, the new name is found in its entry and every other name where it was |
| Directories.RemoveKeepsLookup | code/filesys/directory.cc:265-277 | after removing, the name is unknown and every other name is found where it was |
| Directories.Directory.constructor | code/filesys/directory.cc:38-44 | no entry is in use |
| Directories.Directory.FetchFrom | code/filesys/directory.cc:63-67 | the table that the file stands for |
| Directories.Directory.WriteBack | code/filesys/directory.cc:76-80 | the file stands for the table, and no other sector changes |
| Directories.Directory.FindIndex | code/filesys/directory.cc:90-97 | the first entry in use with that name, or -1 |
| Directories.Directory.Find | code/filesys/directory.cc:108-116 | the sector of that entry, or -1 |
| Directories.Directory.Add | code/filesys/directory.cc:189-195 | the entry is filled in, the others stay |
| Directories.Directory.AddFile | code/filesys/directory.cc:197-218 | succeeds exactly when the name is new and an entry is free, and uses the first free one |
| Directories.Directory.AddSpecialDir | code/filesys/directory.cc:244-257 | fills in "." and ".." when both entries are free |
| Directories.Directory.Remove | code/filesys/directory.cc:265-277 | the entry is no longer in use, the others stay |
| FileSystems.OwnsAdd | code/filesys/filesys.cc:281-290 | giving clear sectors to a free entry keeps exact ownership |
| FileSystems.OwnsRemove | code/filesys/filesys.cc:456-461 | clearing the sectors of an entry and dropping it keeps exact ownership |
| OpenTables.OpenFileTable.constructor | code/filesys/openfiletable.cc:9-15 | no slot is taken |
| OpenTables.OpenFileTable.Find | code/filesys/openfiletable.cc:148-161 | the first slot with this header sector, or -1 |
| OpenTables.OpenFileTable.Add | code/filesys/openfiletable.cc:111-133 | the entry goes into the first free slot, or -1 exactly when none is free; the ASSERT is not reached |
| OpenTables.OpenFileTable.Remove | code/filesys/openfiletable.cc:135-146 | that slot is free and the others stay |
| OpenTables.OpenFileTable.SectorOf | code/filesys/openfiletable.cc:49-53 | the header sector that the directory file has for the name, or -1 |
| OpenTables.OpenFileTable.Open | code/filesys/openfiletable.cc:43-77 | a name that is not found changes nothing; a file that is open already gives its slot, with the old mode; another takes the first free slot with its header and position 0 |
| OpenTables.OpenFileTable.Close | code/filesys/openfiletable.cc:79-93 | the slot is free, -1 if it was so before |
| OpenTables.OpenFileTable.Get | code/filesys/openfiletable.cc:95-109 | the entry with this index, none outside the table |
| FileSystemSteps.CreateKeepsConsistent | code/filesys/filesys.cc:243-298 | a created file keeps the disk consistent |
| FileSystemSteps.RemoveKeepsConsistent | code/filesys/filesys.cc:429-470 | removing a file entry keeps the disk consistent |
| FileSystemSteps.WriteKeepsConsistent | code/filesys/openfile.cc:145-185 | writing into a file keeps the disk consistent |
| FileSystemSteps.SplicedKeepsConsistent | code/filesys/openfile.cc:145-185 | a write through any header whose sectors are neither the system's nor the header of a file keeps the disk consistent |
| FileSystemSteps.ThroughHeaderIff | code/filesys/openfile.cc:29-34 | writes through a header fetched at some time from a file or the directory keep the disk consistent, whatever is written and wherever, if and only if none of its data sectors is the header of a file or the system's |
| FileSystemRuns.NextKeepsSound | code/filesys/filesys.cc:74-638 | each harmless operation keeps the disk consistent and every open header one that was fetched from a file or the directory |
| FileSystemRuns.RunKeepsOwnership | code/filesys/filesys.cc:74-638 | in every run from a formatted disk of creating, removing, opening, closing, reading and writing, in which no removal is of "." or ".." and no write is through a header with a sector that is now the header of a file or the system's, the on-disk bit map marks exactly the sectors of the system and of the listed files, none owned twice |
| FileSystemRuns.WriteThroughOpenIff | code/filesys/filesys.cc:625-638 | in every such run the condition on writes is exact: writing through an open file keeps the disk consistent if and only if it holds |
| FileSystemRuns.RemovedWhileOpenSpoils | code/filesys/filesys.cc:429-470 | every run that creates a file of four bytes, opens and removes it, creates two empty files and writes four bytes ends with an inconsistent disk, at its last operation |
| FileSystemSteps.CreateRefinesMap | code/filesys/filesys.cc:243-298 | creation adds the name with a byte string of the given length and changes no other |
| FileSystemSteps.RemoveRefinesMap | code/filesys/filesys.cc:429-470 | removal takes the name away and changes no other |
| FileSystemSteps.WriteRefinesMap | code/filesys/openfile.cc:145-185 | a write splices into that file and changes no other |
| FileMapRuns.CurrentWriteOnMap | code/filesys/filesys.cc:625-638 | a write through an open file whose sector still holds, for some name, the header it was opened with splices the string of that name and changes no other |
| FileMapRuns.OpenFileShowsString | code/filesys/filesys.cc:604-617 | while open files are not removed, what one of them shows is the string of its name |
| FileMapRuns.RunRefinesMap | code/filesys/filesys.cc:74-638 | along every run that removes no open file, neither "." nor "..", and does not write to the directory, the disk holds a map from names to byte strings and the open table stands for names with positions: creation adds a name exactly when it is new and the map leaves an entry and the sectors for it, removal takes it away, opening takes the first free handle for a name that is not open, reads and writes move the position, a write splices, and nothing else changes |
| FileSystemSteps.CreateThenRemove | code/filesys/filesys.cc:243-470 | creating and removing a file restores the free map and the listing |
| FileSystemSteps.CreateThenRemoveContents | code/filesys/filesys.cc:243-470 | and every name stands for what it stood for |
| FileSystemSteps.RemoveKeepsOwnershipIff | code/filesys/filesys.cc:429-470 | removing an entry keeps ownership exactly when its name is not "." or ".." |
| FileSystemSteps.WriteKeepsConsistentIff | code/filesys/openfiletable.cc:43-77 | whatever is written wherever through a name that Open finds, the disk stays consistent, if and only if the name is not "." or ".." |
| FileMaps.OwnedSectorsCount | code/filesys/filehdr.cc:42-76 | clear bits, sectors of the system and sectors of the files add up to the disk |
| FileMaps.FreeSpace | code/filesys/filesys.cc:74-115 | the clear bits of the on-disk map are the sectors less five of the system and less one header and the data sectors of each file |
| FileMaps.FreeEntries | code/filesys/directory.cc:197-218 | a directory entry is free exactly when there are fewer files than entries besides "." and ".." |
| FileMaps.HeldMap | code/filesys/directory.cc:88-118 | the map that a disk holds is that of its directory |
| FileMaps.CanCreateOnMap | code/filesys/filesys.cc:243-281 | whether a file can be created is decided by the map alone: its name, the number of files and the sectors they use |
| FileSystemCode.EntrySectorsMarked | code/filesys/filehdr.cc:66-70 | every sector of an entry in use is marked, so the ASSERT in Deallocate holds |
| FileSystemCode.Format | code/filesys/filesys.cc:78-115 | whatever was on the disk, it is consistent and without files |
| FileSystemCode.PlanSectors | code/filesys/filesys.cc:88-95 | both allocations succeed and the bits mark exactly the system's sectors |
| FileSystemCode.FileSystem.constructor | code/filesys/filesys.cc:128-134 | on any disk with sound headers in sectors 0 and 1 the free map and the directory are open, each with the header that the disk holds, and no other file is |
| FileSystemCode.FileSystem.StoreMap | code/filesys/filesys.cc:460-460 | the on-disk free map is the one in memory, the directory is untouched |
| FileSystemCode.FileSystem.StoreDirectory | code/filesys/filesys.cc:461-461 | the on-disk directory is the one in memory, the free map is untouched |
| FileSystemCode.FileSystem.FlushAll | code/filesys/filesys.cc:283-286 | header, directory and free map are on the disk and no other sector has changed |
| FileSystemCode.FileSystem.Reserve | code/filesys/filesys.cc:260-281 | header sector, entry and data sectors are taken exactly when the conditions for creation hold |
| FileSystemCode.FileSystem.PrepareFile | code/filesys/filesys.cc:243-281 | the part of creation that works in memory |
| FileSystemCode.FileSystem.CreateFile | code/filesys/filesys.cc:243-298 | succeeds exactly when the name is new, an entry is free and one plus the data sectors are clear; a failure leaves every sector unchanged |
| FileSystemCode.FileSystem.FreeAndFlush | code/filesys/filesys.cc:456-461 | frees data and header sectors, takes the entry out and flushes |
| FileSystemCode.FileSystem.RemoveFile | code/filesys/filesys.cc:429-470 | succeeds exactly when the name is found; a failure leaves every sector unchanged |
| FileSystemCode.FileSystem.Open | code/filesys/filesys.cc:582-585 | is Open of the runs and returns the slot of the file, for whatever name |
| FileSystemCode.FileSystem.Close | code/filesys/filesys.cc:593-596 | is Close of the runs |
| FileSystemCode.FileSystem.Read | code/filesys/filesys.cc:604-617 | is Read of the runs: -1 unless the slot is open for reading, otherwise the bytes that its header lists from its position on |
| FileSystemCode.FileSystem.Write | code/filesys/filesys.cc:625-638 | is Write of the runs: -1 unless the slot is open for writing, otherwise a splice through the header in the slot; the system files stay mounted in any case |
| FileSystemCode.RemoveWhileOpen | code/filesys/filesys.cc:429-638 | performs the run of RemovedWhileOpenSpoils on any disk, from formatting on, and ends with an inconsistent disk |

## Left out

- Translation through the TLB (code/machine/translate.cc:222-234): only linear page tables are modelled.
- Subdirectories and path walking (code/filesys/filesys.cc:324-393, code/filesys/filesys.cc:496-552, code/filesys/filesys.cc:657-708): a new directory is larger than one header can address, and it is opened before its header is written; the model has the root directory only.
- OpenTables.OpenFileTable.constructor: the array of the table is filled with null pointers; the source does not initialise it (code/filesys/openfiletable.cc:9-15). The lock of the table makes its operations single steps.
- OpenTables.OpenFileTable.Close: requires an index inside the table; the source would read outside of it.
- Stack slots of user threads (code/userprog/addrspace.cc:423-445): taking and giving back are not inverses, because of unparenthesised macros.
- Waiting for all threads at the end of a process (code/userprog/userprocess.cc:54-93): the loop is that of a join on another condition. Frames are reclaimed only by explicit FreeFrames, since the code behind Finish is not reached.
- FileHeaders.FileHeader.Allocate: a size above MaxFileSize is admitted only while the disk has too few clear sectors for it; otherwise the loop writes behind the header, and what that changes is undefined. Sizes are not negative.
- FileSystemCode.FileSystem.Reserve: the same bound on the size.
- FileSystemCode.FileSystem.PrepareFile: the same bound on the size.
- FileSystemCode.FileSystem.CreateFile: the same bound on the size; runs leave such creations out.
- OpenFiles.OpenFile.ReadAt: requires a position that is not negative, as an array index must be; so does WriteAt. Byte counts are unbounded: in C position + numBytes overflows for counts near 2^31, and the cut-off at the end of the file is then missed.
- FileSystemRuns.RunKeepsOwnership: operations on a disk that is no longer consistent are not described; OpenFile::Seek, which nothing calls, is not among the operations, but WriteThroughOpenIff is about every position.
- KernelCode.Kernel.ForkThread: the stack of the new thread and the address space that it inherits are not modelled.
- ThreadTable.Table.AddThreadID: requires room in the array, which the caller has tested (code/userprog/userthread.cc:33-81); the source would write behind its end.
- ThreadTable.Table.RemoveThreadID: the two broadcasts are left to the caller, who learns from the result whether they happen; JoinModel has the broadcast on the condition of the thread.
- MipsCode.Processor.Switch: register arithmetic is the expression that Compute names, evaluated as such; only loads, stores and multiplication have code of their own.
- MipsCode.Processor.RaiseException: the change of the machine status and the call of the kernel's handler are not modelled; the exception is the result of the instruction.
- SpacesCode.Machine.TranslateAddress: the branch for the TLB is left out.
- InterruptCode.Interrupt.RunHandler: handlers only schedule interrupts and ask for a yield; their effect on devices and semaphores is in the models of those.
- MipsCode.Processor.DoPartialStore: the partial-word cases are guarded by alignment asserts in the source, which leave only the aligned ones; so are the LWL and LWR cases.
- SpacesCode.AddrSpace.constructor: requires what the source asserts of the executable (magic number, size), and segments inside the space. A byte outside would raise an address exception from within the loader, and the kernel's handler would move the program counter of the process that runs it (code/userprog/exception.cc:392-393).
- Division of the most negative integer by -1 (code/machine/mipssim.cc:210-218) wraps in the model and is undefined on the host.
- Byte swapping for big-endian hosts (code/machine/translate.cc:41-71): the host is little-endian.
- Bit operations of the bit map are written by their effect on binary digits.
- InterruptCode.Interrupt.CheckIfDue: the DelayedLoad before the handler (code/machine/interrupt.cc:326-329) acts on the processor; Preemption and DelaySlot say what it does to a program.
- InterruptCode.Interrupt.OneTick: does not model the context switch that a handler asked for; the scheduler model has it as its own action.
- LinkedList elements are not deallocated in the model, and Mapcar is not modelled.
- Sending packets (code/network/post.cc:268-298) is the handshake of the synchronous disk once more; ReliableSend (code/network/reliable.cc) is a bounded retry.
- Overflow of tick counts in the disk's timing (code/machine/disk.cc:179-253); the handshake is proved for arbitrary interrupt times.
- Console, timer device, SWITCH, system call dispatch, debugging output, the standalone tools and the test programs.
