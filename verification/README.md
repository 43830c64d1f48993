# Models of the firmware, and what is proved about them

This project models the algorithms of a small RISC-V machine-mode firmware and proves them right.
Word width, byte order and hart count are parameters of the models, so both XLENs and any number of
harts are covered. `dafny verify dfyconfig.toml` checks everything.

**Harts** (`HartModel`, `HartInvariant`, `HartFrame`, `HartSteps`, `HartHandler`, `HartProtocol`,
`HartCalls`, `HartProgress`).
The mailbox, HSM and spinlock protocol is one transition system. One step is one access to shared
memory: a lock word, msip, one word of a command slot, an HSM state word. Each hart has a program
counter for SBI calls and the interruptible exception handler, and one for the interrupt handler.
A schedule is any list of moves; the theorems speak of every state that any schedule reaches from
hart 0 STARTED, the others STOPPED, all locks free and all msip clear. A SUSPENDED hart can be
started, as in the code. The fields `order`, `handled`, `token`, `parks`, `wins`, `launches`, `owner`
and `diary` record history only. `HartCalls` says what every call returns and that all its messages are
sent; `HartProgress` says what calls and commands bring about when their hart moves alone and finds its
locks free, down to the last field of the state.

**Calls on many harts** (`Dispatch`). IPIs and remote fences check every selected id first and then act
in bit order. What they send is what the mailbox protocol accepts.

**Traps** (`Trap`). The register file, `mscratch` and friends, and the three frames of a hart.
The C handlers are arbitrary code that keeps s0 and stays out of the contexts, except that
the exception handler may change the trapped program's frame.

**Arithmetic** (`Words`, `LongDivision`, `SoftSingle`, `WordPairs`, `SoftDouble`). All ten routines,
register by register, against the results that the ISA defines.

**Heap** (`HeapView`, `Heap`, `HeapMeaning`, `HeapMemory`). The section list as a sequence, the decisions of
`kmalloc` under wrapping arithmetic, and the allocator in place on a memory of words.
The two overflow checks of `kmalloc` are not enough for every heap: the second compares with the
address of the section, and a sum that wraps past it goes unnoticed. The decisions are right if and only
if the heap ends below twice its start plus a word (or is too small to fail, ending below its start plus
three words), which the linked layout (base 0x80000000) satisfies. The same condition decides whether
every run of calls keeps the list in order: on any other block, two calls of `kmalloc` that a caller can
make corrupt it.

**Pages** (`Pages`). The free list threaded through one page array refines a set of allocated pages
from which the lowest free page is always taken.

**Walkers and printers** (`PageWalk`, `Blob`, `Dtb`, `DtbBlob`, `Cpio`, `CpioArchive`, `Digits`, `Printm`,
`Conversions`). `walk_pts` against the
translation algorithm of the Privileged Architecture; `dtb_parse` and the cpio lookup against serialized
trees and archives, on hosts of either byte order; `printm` against a parser of formats and a renderer of
pieces that know neither buffer nor flags. Two things to know: a width in `%s` is a maximum and
not a minimum, and looking up `TRAILER!!!` in an archive finds its trailer.

The label comments of the assembly do not show that the subtracting loops of `DOUBLE_UMOD` and
`DOUBLE_MOD` jump back into the doubling loop. The model does the same, and the proof shows that
the doubling loop then changes nothing.

## Model

| member | source | states |
|---|---|---|
| HartInvariant.BootInv | src/main.c:94-105 | the initial state satisfies the invariant that ties program counters, mailboxes, state words and locks of all harts together |
| HartSteps.StepBaseKeeps | src/sbi_commands/hsm.c:12-105 | every step of an SBI call or a send keeps the invariant |
| HartSteps.AcquireKeeps | src/thread_locking.S:7-13 | a spinning or successful ksem_wait on any lock keeps the invariant |
| HartSteps.QueueTakenKeeps | src/interrupts/context_switch.c:625 | taking a mailbox lock, which puts the command into the order, keeps the invariant; it says that no other command is on its way there |
| HartSteps.ClaimingKeeps | src/sbi_commands/hsm.c:39 | the write of START_PENDING under the HSM lock keeps the invariant, which says that the caller is now the only winner |
| HartSteps.ClaimedKeeps | src/sbi_commands/hsm.c:40-46 | posting the HSM lock keeps the invariant, which holds the winner's claim until its STARTHART is signalled |
| HartSteps.ParkWriteKeeps | src/sbi_commands/hsm.c:53-55 | the write of STOPPED or SUSPENDED under the lock keeps the invariant |
| HartSteps.CopyWordKeeps | src/interrupts/context_switch.c:628 | storing one word of the slot keeps the invariant, which says that the words stored are a prefix of the command and that nobody else writes or reads them |
| HartSteps.KickKeeps | src/interrupts/context_switch.c:629 | setting msip keeps the invariant, which asks for a complete command in a mailbox that was free |
| HartSteps.DrainKeeps | src/interrupts/context_switch.c:646-673 | the waiting and reading steps of blk and ret keep the invariant, which says that the slot stays theirs |
| HartHandler.StepIrqKeeps | src/interrupts/context_switch.c:54-198 | every step of the software interrupt handler keeps the invariant |
| HartHandler.StartWriteKeeps | src/interrupts/context_switch.c:169-171 | the write of STARTED keeps the invariant, which counts one claim less for the hart |
| HartHandler.ClearMsipKeeps | src/interrupts/context_switch.c:173-175 | clearing msip keeps the invariant, which says that the command consumed was at the head of the order and that a started hart leaves with the entry it was given |
| HartHandler.NeverUnhandled | src/interrupts/context_switch.c:196-198 | the handler never meets a command word it does not know |
| HartProtocol.StepKeeps | src/interrupts/context_switch.c:54-198 | any step of any hart, interrupt entry included, keeps the invariant |
| HartProtocol.ExecKeeps | src/interrupts/context_switch.c:54-198 | so does any schedule |
| HartProtocol.ReachedInv | src/main.c:94-105 | every reachable state satisfies it |
| HartProtocol.StartPendingIsInFlight | src/sbi_commands/hsm.c:31-46 | a hart is START_PENDING if and only if one STARTHART for it is in flight: either one winner has not signalled it or it is in the mailbox before the write of STARTED, never both, never two winners |
| HartProtocol.OneStartPerRest | src/sbi_commands/hsm.c:31-48 | one success per time a hart is stopped or suspended, at most one launch per success, and launch i has the start address and opaque of winner i |
| HartProtocol.StartReturns | src/sbi_commands/hsm.c:32-48 | a granted call can only return 0, a refused one only -6; a state word of STARTED, START_PENDING or RESUME_PENDING refuses and any other grants, and what is granted is recorded with the address and argument of the call |
| HartProtocol.MutualExclusion | src/thread_locking.S:7-17 | a lock word is 1 if and only if a hart is inside that lock's section, and then just one is |
| HartProtocol.HandlerOverNoLock | src/interrupts/context_switch.c:67-175 | the STARTHART handler only ever interrupts code of its hart that holds no lock |
| HartProtocol.NoSelfDeadlock | src/interrupts/context_switch.c:169-171 | no hart ever spins on a lock it holds |
| HartProtocol.ShortWaits | src/sbi_commands/hsm.c:31-37 | waiting for a lock never runs in a circle: behind a holder that waits stands one that does not |
| HartProtocol.HandledInOrder | src/interrupts/context_switch.c:621-632 | the handled commands are a prefix of the commands in lock order, word for word; what is missing is in the mailbox or with the hart that has the lock |
| HartProtocol.CopyIsWhole | src/interrupts/context_switch.c:58-59 | the handler's copy is never a mixture of two commands |
| HartProtocol.BlockingSendIsHandled | src/interrupts/context_switch.c:646-673 | when blk or ret is about to return, its own command is the last one handled; ret has read back its own parameters and a command word of 0 |
| HartProtocol.HistoryGrows | src/interrupts/context_switch.c:621-632 | no order, handling, success or launch is ever taken back |
| HartCalls.BootIs | src/main.c:94-105 | hart 0 starts in its kernel and STARTED, the others idle and STOPPED, all locks free and all mailboxes empty |
| HartCalls.CallReturns | src/sbi_commands/hsm.c:12-105 | what a call that is over has returned, for every call in every reachable state: -3, -5 or -6 for exactly the bad arguments, 0 only with a claim on record for that address and argument; stop, and suspend with good arguments, never return |
| HartCalls.RestsIn | src/sbi_commands/hsm.c:51-92 | a hart rests exactly while it is not STARTED; until it is claimed it is STOPPED after sbi_hart_stop or if it never ran, and SUSPENDED after sbi_hart_suspend with one of the two types and a valid address |
| HartCalls.StartDecides | src/sbi_commands/hsm.c:16-31 | sbi_hart_start goes on to the lock of its target if and only if that is another usable hart and the address is aligned and in memory; otherwise it is on its way to -3, -5 or -6 |
| HartCalls.CallIsNoted | src/sbi_commands/ipi.c:38-53 | the messages a call is asked to send are noted as it is made, if they go to other usable harts and carry one of the four commands that return |
| HartCalls.StatusReads | src/sbi_commands/hsm.c:63-74 | sbi_hart_get_status returns the number of the state of its target |
| HartCalls.AllSent | src/sbi_commands/ipi.c:38-53 | nothing a call was asked to send is lost: what was asked is what is ordered, then the message waited for, then the rest; back in the kernel all of it is ordered, and the order of each mailbox has exactly the commands for it, each once |
| HartProgress.AloneIsRun | src/thread_locking.S:7-17 | a hart that moves alone is one of the schedules |
| HartProgress.FenceIsHandled | src/interrupts/context_switch.c:58-195 | nine steps after the interrupt a fence or soft interrupt is handled and the mailbox free, and nothing else has changed |
| HartProgress.StartIsHandled | src/interrupts/context_switch.c:67-175 | with the two locks free, sixteen steps after the interrupt the hart is STARTED and in its kernel at the address and with the argument of the command |
| HartProgress.SendIsDelivered | src/interrupts/context_switch.c:621-632 | a send that finds lock and mailbox free takes thirteen steps, after which the slot is the command and msip is set |
| HartProgress.CallIsDelivered | src/sbi_commands/ipi.c:38-53 | a call that sends to several harts with free mailboxes delivers to every one and changes no other |
| HartProgress.StartIsGranted | src/sbi_commands/hsm.c:31-48 | sbi_hart_start on a resting hart with locks and mailbox free: eighteen steps later it has returned 0, the hart is START_PENDING and has its STARTHART with that address and argument |
| HartProgress.StartIsRefused | src/sbi_commands/hsm.c:16-30 | bad arguments return -3, -5 or -6 after three steps, and nothing else changes |
| HartProgress.StopStops | src/sbi_commands/hsm.c:51-56 | nine steps later the hart idles and is STOPPED |
| HartProgress.SuspendSuspends | src/sbi_commands/hsm.c:76-105 | with a good type and address it idles and is SUSPENDED; otherwise -5, -2 or -3 after three steps |
| HartProgress.StatusIsRead | src/sbi_commands/hsm.c:63-74 | the number of the state after four steps, or -3 after three |
| Dispatch.SelectedIs | src/sbi_commands/ipi.c:40-42 | the ids acted on are exactly those of the set bits, with the sum wrapping at the word size |
| Dispatch.DifferentIds | src/sbi_commands/ipi.c:42 | two bits never select the same hart, also where the sum wraps |
| Dispatch.SelectedOnce | src/sbi_commands/ipi.c:40-53 | no hart is selected twice |
| Dispatch.SetBitsAre | src/sbi_commands/ipi.c:40-52 | the bits walked are those of the mask |
| Dispatch.Firmware.BitsMeant | src/sbi_commands/ipi.c:13-36 | the bits, their ids and the check in terms of the arguments of the call |
| Dispatch.Firmware.ActionsMeant | src/sbi_commands/rfnc.c:92-107 | the actions, word by word, in terms of the arguments of the call |
| Dispatch.AllHartsBits | src/sbi_commands/ipi.c:13-18 | the mask built for base -1 has exactly the bits of the usable harts |
| Dispatch.Firmware.IdentifyHarts | src/sbi_commands/ipi.c:13-19 | the first loop computes that mask and base 0, and otherwise leaves both alone |
| Dispatch.Firmware.CheckHarts | src/sbi_commands/ipi.c:22-36 | the check passes if and only if every selected id is usable |
| Dispatch.Firmware.ActOnHarts | src/sbi_commands/ipi.c:39-53 | the actions appended are those of the selected ids, in order, local for the caller and a command for the rest |
| Dispatch.Firmware.OnHarts | src/sbi_commands/rfnc.c:11-60 | all or nothing, written out: the bits are those of the mask, or of the usable harts for base -1; one id (base + bit) modulo the word size that is not usable gives -3 and no action, otherwise 0 and one action each in bit order, with the command words by position |
| Dispatch.Firmware.SendIpi | src/sbi_commands/ipi.c:11-60 | the same, with the command words 20 and its target |
| Dispatch.Firmware.RemoteFenceI | src/sbi_commands/rfnc.c:11-60 | the same, with the command words 17 and its target |
| Dispatch.Firmware.RemoteSfenceVma | src/sbi_commands/rfnc.c:62-114 | the same, with the command words 18, its target, start and size |
| Dispatch.Firmware.RemoteSfenceVmaAsid | src/sbi_commands/rfnc.c:116-169 | the same, with the command words 19, its target, start, size and ASID |
| Dispatch.Firmware.AllOnesMeansAll | src/sbi_commands/rfnc.c:13-19 | base -1 selects exactly the usable harts and passes the check |
| Dispatch.Firmware.OneActionEach | src/sbi_commands/rfnc.c:39-53 | a selected hart gets exactly one action, any other hart none |
| Dispatch.Firmware.SentIsSendable | src/sbi_commands/rfnc.c:47-51 | what is sent satisfies the precondition of the mailbox protocol |
| Trap.Machine.SaveRegs | src/interrupts/context_switch_asm.h:49-63 | x1 to x31 are in the frame although s0 and ra are used for the swap, nothing else in memory changes, mscratch is the frame again |
| Trap.Machine.LoadRegs | src/interrupts/context_switch_asm.h:65-73 | x1 to x31 are loaded although the pointer is one of them |
| Trap.Machine.FindContext | src/interrupts/context_switch_asm.S:129-147 | the search finds this hart's own context |
| Trap.Machine.Entry | src/interrupts/context_switch_asm.S:97-172 | the frame in mscratch gets registers, program counter and mode; C code gets frame, cause and value; an exception goes on with mscratch at the exception frame, and with interrupts enabled if and only if the word that the code tests is not 3 |
| Trap.Machine.SwitchContext | src/interrupts/context_switch_asm.S:174-213 | registers, program counter and privilege are those of the frame, and mscratch points at it |
| Trap.Machine.InterruptRoundTrip | src/interrupts/context_switch_asm.S:97-213 | an interrupt of the exception handler that returns leaves registers, program counter, mode, mscratch and all memory but the exception frame and its own stores alone |
| Trap.Machine.RunHandler | src/interrupts/context_switch_asm.S:156-168 | under any sequence of such interrupts the handler sees its own registers, and the trapped program's frame is what the handler made of it |
| Trap.Machine.ExceptionEntry | src/interrupts/context_switch_asm.S:97-168 | the handler starts with the trapped program's frame saved and is given frame, cause and mtval in registers; it can be interrupted if and only if the tested word is not 3, whatever that word holds |
| Trap.Machine.ExceptionRoundTrip | src/interrupts/context_switch_asm.S:97-213 | for any interleaved interrupts the final mret restores x1 to x31, pc and mode as the handler left the frame, with mscratch pointing at it |
| Trap.Machine.TransparentException | src/interrupts/context_switch_asm.S:97-213 | if the handler leaves the frame alone the program notices neither the exception nor the interrupts |
| Trap.Machine.SparedFrame | src/interrupts/context_switch_asm.S:164-172 | handlers that spare the frame spare it over any run, whatever the interrupts |
| Trap.Machine.LastWrite | src/interrupts/context_switch_asm.S:166-172 | a word of the frame holds what the last stretch of handler code that wrote to it wrote, else what the trap saved |
| Trap.Machine.LastCode | src/interrupts/context_switch_asm.S:166-172 | registers and program counter of the handler are those of its own last stretch |
| Trap.Machine.SavedWords | src/interrupts/context_switch_asm.S:100-113 | where each register, the program counter and the mode are in the frame; nothing else changes |
| Trap.Machine.FramesAre | src/interrupts/context_switch_asm.S:131-160 | the three frames of a hart lie apart from each other and from those of other harts |
| Trap.Machine.Delegate | src/interrupts/context_switch_asm.S:218-284 | delegation enters the kernel's handler in S-mode with the saved registers, scause, stval, sepc, SPP and SPIE of the trap |
| LongDivision.UnsignedRecompose | src/ext_m_supplement.S:649-680 | unsigned quotient times divisor plus remainder is the dividend modulo 2 to the N, divisor 0 included |
| LongDivision.UnsignedIs | src/ext_m_supplement.S:370-409 | over unbounded integers the unsigned quotient times the divisor plus the remainder is the dividend, and the remainder is below the divisor |
| LongDivision.SignedRecompose | src/ext_m_supplement.S:503-556 | the same for the signed results, overflow included |
| LongDivision.SignedIs | src/ext_m_supplement.S:151-212 | the same for the signed results, but for the least number by -1; the remainder has the sign of the dividend |
| LongDivision.CornerResults | src/ext_m_supplement.S:370-375 | division by zero and signed overflow give the results of section 7.2 of the Unprivileged ISA 20191213 |
| LongDivision.MulStep | src/ext_m_supplement.S:95-108 | one turn of the shift-add loop keeps accumulator plus remaining product |
| LongDivision.DivStep | src/ext_m_supplement.S:396-405 | one turn of the shift-subtract loop keeps quotient, remainder and shifted divisor in step |
| LongDivision.ModStep | src/ext_m_supplement.S:670-677 | the same for the remainder alone |
| SoftSingle.SingleMul | src/ext_m_supplement.S:91-112 | x * y modulo 2 to the w |
| SoftSingle.SingleUDiv | src/ext_m_supplement.S:370-409 | the r with r * y <= x < r * y + y, all ones for divisor 0 |
| SoftSingle.SingleDiv | src/ext_m_supplement.S:151-212 | the signed q for which a - q * b is smaller than b and has the sign of a; -1 for divisor 0, the least number for its quotient by -1 |
| SoftSingle.SingleUMod | src/ext_m_supplement.S:649-680 | the r below y with y dividing x - r, the dividend for divisor 0 |
| SoftSingle.SingleMod | src/ext_m_supplement.S:503-556 | the signed remainder smaller than b with the sign of a and b dividing a - m; the dividend for divisor 0 |
| SoftDouble.DoubleMul | src/ext_m_supplement.S:114-149 | the product modulo 2 to the 2w on two registers with carry by hand, written as hi * 2^w + lo |
| SoftDouble.DoubleDivide | src/ext_m_supplement.S:420-497 | with split compare, borrow and a two-word quotient mask the loops end with the quotient rounded down |
| SoftDouble.DoubleUDiv | src/ext_m_supplement.S:411-501 | r * y <= x < r * y + y for every pair, and all ones for divisor 0 |
| SoftDouble.DoubleDiv | src/ext_m_supplement.S:214-368 | the signed quotient on pairs as for one word, with the corner cases of the ISA |
| SoftDouble.DoubleUntilAbove | src/ext_m_supplement.S:689-714 | the doubling loop leaves everything alone when it is entered with remainder below divisor |
| SoftDouble.DoubleReduce | src/ext_m_supplement.S:689-737 | the loops end with the exact remainder although the second one jumps back into the first |
| SoftDouble.DoubleUMod | src/ext_m_supplement.S:682-739 | the r below y with y dividing x - r for every pair, the dividend for divisor 0 |
| SoftDouble.DoubleMod | src/ext_m_supplement.S:558-647 | the signed remainder on pairs as for one word |
| WordPairs.SubtractPair | src/ext_m_supplement.S:434-438 | subtraction on two words with the borrow taken from a comparison is subtraction of the pairs |
| WordPairs.PairCompare | src/ext_m_supplement.S:429-431 | comparing high words first and low words on equality compares the pairs |
| HeapView.PayloadsDisjoint | src/memalloc.c:177-229 | no address belongs to two live payloads, or to a payload and a header |
| HeapView.InsertOrdered | src/memalloc.c:198-222 | a section put into a gap that is large enough keeps order, alignment and bounds |
| HeapView.InsertOverlaps | src/memalloc.c:198-222 | a section put into a gap that is too small leaves a list that is not in order |
| HeapView.RemoveOrdered | src/memalloc.c:239-248 | so does taking a section out; only the first one stays, with size 0 |
| HeapView.RemoveInserted | src/memalloc.c:231-256 | taking out the section just put in gives the same list back |
| HeapView.LowestGap | src/memalloc.c:187-226 | the first gap in list order is the one at the lowest address |
| HeapMeaning.OrderedIs | src/memalloc.c:177-271 | what an ordered list is, in addresses and sizes |
| HeapMeaning.NeedIs | src/memalloc.c:178-185 | a request takes up whole words and a header of two words |
| HeapMeaning.ChoiceIs | src/memalloc.c:177-229 | on a block that ends low enough the first gap with room is used, and a request for something fails only if none has room |
| HeapMeaning.NoRoom | src/memalloc.c:198-226 | where no gap has room, no stretch of the block of that length is free of live sections |
| HeapMeaning.InsertIs | src/memalloc.c:201-221 | a grant adds one live section and changes no other |
| HeapMeaning.RemoveIs | src/memalloc.c:239-248 | a free takes one live section and changes no other |
| HeapMeaning.GrantIs | src/memalloc.c:198-222 | the payload of a grant that fits holds the request, aligned, in the block and away from every other live section |
| Heap.ChecksExact | src/memalloc.c:188-197 | on a heap that ends low enough each of the two overflow tests fires if and only if its sum over unbounded integers overflows |
| Heap.ScanExact | src/memalloc.c:186-226 | the traversal finds the first gap that fits over unbounded integers, or that none does |
| Heap.ChoiceExact | src/memalloc.c:177-229 | kmalloc fails only for size 0 or when no gap fits the rounded size plus header, and otherwise takes the lowest |
| Heap.RightIffLowEnough | src/memalloc.c:177-229 | on a word-aligned block kmalloc decides rightly for every list and size if and only if the block ends below twice its start plus a word, or below its start plus three words |
| Heap.UndetectedOverflow | src/memalloc.c:193-222 | on every other block: the request that is granted although it wraps around the address space |
| Heap.StepKeeps | src/memalloc.c:177-271 | kallocinit and kfree keep the list ordered, aligned, in bounds, with at most the first section free; kmalloc does if and only if the gap it takes has room |
| Heap.GrantOrdered | src/memalloc.c:198-222 | inserting what kmalloc granted leaves an ordered list if and only if the gap has room for it |
| Heap.EveryRun | src/memalloc.c:177-271 | that after every sequence of calls on blocks that end low enough, with live payloads disjoint from each other and from all headers |
| Heap.TwoCalls | src/memalloc.c:186-222 | on any other block two calls of kmalloc after kallocinit leave a list that is not in order |
| Heap.RunsKeepIffLowEnough | src/memalloc.c:177-271 | every run of calls on a word-aligned block keeps the list ordered if and only if the block ends low enough in that sense |
| Heap.FreeUndoesMalloc | src/memalloc.c:231-256 | kfree of a fresh kmalloc result restores the previous view, wherever the grant has room |
| HeapMemory.InsertThreaded | src/memalloc.c:203-220 | the three stores of kmalloc leave a list in memory that is linked like the new sequence |
| HeapMemory.RemoveThreaded | src/memalloc.c:243-246 | the stores of kfree do so for the sequence without the section |
| HeapMemory.PayloadStores | src/memalloc.c:203-207 | whatever an owner stores in its payload, the list in memory stays as it is |
| HeapMemory.HeaderOf | src/memalloc.c:232-235 | the pointer arithmetic and bounds test of kfree accept exactly header addresses, wrap included |
| HeapMemory.ListIs | src/memalloc.c:9-12 | a header in memory is the size and then the address of the next section, or 0 |
| HeapMemory.StackWordIs | src/memalloc.c:163 | the word above the stack is at the 16-byte boundary at or below allocation + size + 0x10 |
| HeapMemory.Allocator.Kallocinit | src/memalloc.c:258-271 | one free section at the start with a header of two zero words, or nothing changes when there is no room for one |
| HeapMemory.Allocator.Kmalloc | src/memalloc.c:177-229 | address, list and memory after the call are those of the lowest gap, with every address wrapped as the code wraps it, and nothing changes on failure; the list in memory is the new list if and only if the gap has room. On a block that ends low enough: n bytes from the result are in the block, behind a header of two words, away from every live section and in the first gap with room, and 0 only for size 0 or when no gap has room |
| HeapMemory.Allocator.Search | src/memalloc.c:187-226 | the loop over the links in memory decides as the specification on the sequence does |
| HeapMemory.Allocator.TakeGap | src/memalloc.c:198-222 | the stores insert exactly one section, and keep a proper list if and only if the gap has room for it |
| HeapMemory.Allocator.Kfree | src/memalloc.c:231-256 | the live section whose header is two words below the pointer is taken out and no other changes; any pointer that is not live changes nothing |
| HeapMemory.Allocator.Find | src/memalloc.c:236-254 | the traversal stops at the section with that address and knows its predecessor, or finds that there is none |
| HeapMemory.Allocator.Unlink | src/memalloc.c:240-247 | the stores remove exactly that section |
| HeapMemory.Allocator.KmallocStack | src/memalloc.c:157-166 | address, list and memory for any size; the list in memory stays proper if and only if the gap has room and the two stored words hit none of its words; the stack top is 16-byte aligned, and when the word above it is inside the allocation, as BackPointerInside says, that word holds the allocation address and the list gains just that allocation |
| HeapMemory.Allocator.KfreeStack | src/memalloc.c:168-175 | frees the allocation named by that word, and nothing for 0 or a word that is not live |
| HeapMemory.Allocator.AllocateAndFree | src/memalloc.c:231-256 | kmalloc and then kfree restore the list and all memory but the two words of the fresh header, wherever the grant has room |
| HeapMemory.Allocator.AllocateAndFreeStack | src/memalloc.c:157-175 | kmalloc_stack and then kfree_stack restore the list for any size, wrapping ones too, whenever the stored words stay inside the allocation |
| HeapMemory.BackPointerInside | src/memalloc.c:158-164 | the word above the stack is inside the allocation if and only if size + 0x20 does not wrap or what is left after wrapping reaches a 16-byte boundary |
| HeapMemory.StoreKeepsList | src/memalloc.c:163-164 | a store leaves a proper list in memory if and only if it hits no word of the list or stores what was there |
| Pages.Links | src/memalloc.c:62-107 | the threaded list ascends strictly up to the frontier, and no link of a page equals the mark 1 |
| Pages.Determined | src/memalloc.c:62-107 | the array is determined by the set of allocated pages and the frontier |
| Pages.TakeFirst | src/memalloc.c:96-104 | popping the head keeps the array threaded through exactly the free pages |
| Pages.TakeFrontier | src/memalloc.c:72-79 | so does moving the frontier |
| Pages.PutBehind | src/memalloc.c:126-135 | so does inserting a page behind the last free page below it |
| Pages.BreaksList | src/memalloc.c:126-135 | storing the link of a page that is not allocated breaks the list: what is left is threaded through no set of free pages |
| Pages.FirstPageWraps | src/memalloc.c:31-44 | the wrapping rounding yields the first page boundary plus one page, or is found out by the comparison |
| Pages.PageAllocator.KallocPageinit | src/memalloc.c:29-60 | a block is accepted if and only if whole pages fit behind the array; then it starts at the first page boundary in the block plus one page, and every page is free |
| Pages.PageAllocator.KallocPage | src/memalloc.c:62-107 | gives the address start + h * 0x1000 of the lowest page h that is not allocated and marks it, or 0 with the array restored when that page is the limit; without wrap-around the page overlaps neither the page of the array nor another page handed out |
| Pages.PageAllocator.Advance | src/memalloc.c:72-104 | list, head, frontier, count and set stay in step |
| Pages.PageAllocator.KfreePage | src/memalloc.c:109-155 | for a pointer to start + k * 0x1000: an allocated page k becomes free; k the head of the free list changes nothing, nor does a pointer that is not to a page above the array; for any other k the stores leave an array that is no free list of any set of pages, so the list is kept if and only if k is the head or allocated |
| Pages.PageAllocator.AddressIsBack | src/memalloc.c:113-118 | the address kalloc_page gives leads kfree_page back to the same page |
| Pages.PageAllocator.AllocateAndFree | src/memalloc.c:62-135 | kalloc_page and then kfree_page restore the set of allocated pages |
| Pages.PagesApart | src/memalloc.c:66 | the pages at different numbers do not overlap, nor does any overlap the array |
| PageWalk.Table39 | src/interrupts/context_switch.c:480-484 | the shifts in front of a table access extract the page number of the entry, sign-extended from bit 55 |
| PageWalk.Placed39 | src/interrupts/context_switch.c:517-521 | the three shifts at the end place it |
| PageWalk.Room39 | src/interrupts/context_switch.c:523-532 | an aligned superpage leaves room for the untranslated bits, also through the sign extension |
| PageWalk.GoesOn | src/interrupts/context_switch.c:515 | for a translation that exists, the flags test goes on exactly where the standard does |
| PageWalk.TranslatedAtStop | src/interrupts/context_switch.c:479-515 | a translation that exists is that of the entry where the code stops, which looks at four flags only |
| PageWalk.Sv39Is | src/interrupts/context_switch.c:472-515 | the Sv39 translation level by level, with every field of address and entry written out |
| PageWalk.Sv32Is | src/interrupts/context_switch.c:564-580 | the same for Sv32 |
| PageWalk.ThroughIs | src/interrupts/context_switch.c:480-484 | how the registers of the walk hold a physical address |
| PageWalk.AppendPart | src/interrupts/context_switch.c:530-533 | each or of the superpage loop adds exactly one level of the virtual page number |
| PageWalk.Load64 | src/interrupts/context_switch.c:479-499 | one pass reads the entry that the translation algorithm reads |
| PageWalk.Finish64 | src/interrupts/context_switch.c:517-537 | a leaf of any level gives the physical address, sign-extended |
| PageWalk.Walk64 | src/interrupts/context_switch.c:470-557 | walk_pts equals the Sv39 translation of section 4.4 of the Privileged Architecture 20211203 wherever that does not fault; on every table it returns the page number of the entry it stops at, or-ed with the bits that level does not translate, after exactly one read per level, at most 3; without translation it returns its argument |
| PageWalk.Table32 | src/interrupts/context_switch.c:573-577 | the shift in front of an Sv32 table access extracts the page number, truncated to 32 bits |
| PageWalk.Placed32 | src/interrupts/context_switch.c:582-585 | the two shifts at the end place it |
| PageWalk.Walk32 | src/interrupts/context_switch.c:562-604 | walk_pts equals the Sv32 translation of section 4.3.2 truncated to 32 bits wherever that does not fault, and on every table returns the or of the entry it stops at, with at most 2 reads |
| Dtb.SwapEndianness32 | src/dataparse/dtb_parse.c:5-17 | the shift-and-mask loop reverses the four bytes |
| Dtb.SwappedLoad | src/dataparse/dtb_parse.c:86-90 | a little-endian load with the bytes swapped is the big-endian word |
| Dtb.TokensAreTree | src/dataparse/dtb_parse.c:85-146 | the flattened tree is the bytes of its tokens, and the tokens carry its properties in preorder |
| Dtb.ReadHeader | src/dataparse/dtb_parse.c:44-57 | the header in host order on either kind of host, whether to swap, and the loaded words for a magic number in either order |
| Dtb.NextToken | src/dataparse/dtb_parse.c:86-146 | the word under the cursor is the tag of the next token, which ends inside the block |
| Dtb.TakeToken | src/dataparse/dtb_parse.c:91-146 | each branch advances the cursor by exactly the padded size of its token, and never by 0 |
| Dtb.TakeProperty | src/dataparse/dtb_parse.c:112-143 | a property is folded into the accumulator of its name, if it has one |
| Dtb.Accumulate | src/dataparse/dtb_parse.c:125-128 | shifting in bytes gives the big-endian number modulo 2 to the W |
| Dtb.WalkStructure | src/dataparse/dtb_parse.c:82-148 | the walk visits the properties of the tree in preorder |
| Dtb.DtbParse | src/dataparse/dtb_parse.c:43-158 | for every tree: the numbers of the linux,initrd-start and linux,initrd-end properties modulo 2 to the W; nothing for an unknown magic number |
| Dtb.AbsentProperty | src/dataparse/dtb_parse.c:79-80 | no property of the name gives 0 |
| Dtb.SingleProperty | src/dataparse/dtb_parse.c:124-134 | one property of the name gives its value |
| DtbBlob.LoadIs | src/dataparse/dtb_parse.c:86-90 | what a load gives on a host of either byte order |
| DtbBlob.HeaderIs | src/dataparse/dtb_parse.h:6-17 | the header byte by byte |
| DtbBlob.ItemIs | src/dataparse/dtb_parse.h:24-33 | the bytes of each token |
| DtbBlob.PreorderIs | src/dataparse/dtb_parse.c:82-148 | the properties of a node come where the node stands |
| DtbBlob.NamesAre | src/dataparse/dtb_parse.c:124-129 | the two names, byte by byte |
| DtbBlob.SerializedLayout | src/dataparse/dtb_parse.c:59-61 | a serialized tree is laid out as the walk expects |
| DtbBlob.ParseSerialized | src/dataparse/dtb_parse.c:43-158 | in every serialized tree the number in the one property of either name is found modulo 2 to the W, and 0 for a name that no property has, on hosts of either byte order |
| Digits.NumeralCanonical | src/printm.c:20-38 | the digits evaluate back to the number and have no leading zero |
| Digits.NumeralLength | src/printm.c:88 | any 64-bit number in base 8 or more fits the staging buffer |
| Digits.DigitsAre | src/printm.c:14-31 | the sixteen digits in either case and what they are worth |
| Digits.ValueAppend | src/printm.c:21-34 | a digit string is worth the base times the string before its last digit, plus that digit |
| Digits.Itoa | src/printm.c:13-58 | the canonical digits, or the lowest ones when the buffer is too short |
| Digits.ReverseInPlace | src/printm.c:41-55 | the exchange loop reverses the digits |
| Printm.Field | src/printm.c:198-226 | a field is exactly as long as the larger of width and prefix plus digits |
| Printm.PlainText | src/printm.c:94-103 | text without a percent sign is printed unchanged |
| Printm.ReadsBack | src/printm.c:198-226 | behind its prefix a printed number reads back |
| Printm.SignedRange | src/printm.c:183-186 | the negated number is the magnitude for every width, the least number included |
| Printm.NextPiece | src/printm.c:93-566 | what each character of the format contributes to the output |
| Conversions.DirectiveRead | src/printm.c:105-151 | a percent sign, flags in any order, a width, a length and a conversion are one directive with those modifiers |
| Conversions.OthersSkipped | src/printm.c:536-565 | other characters inside a directive are skipped |
| Conversions.ArgumentsInTurn | src/printm.c:154-529 | every directive that prints an argument takes the next one |
| Conversions.FieldIs | src/printm.c:198-226 | where padding, prefix and digits are in a field |
| Conversions.NumeralIs | src/printm.c:13-58 | digits of the base and case only, no leading zero, and worth the number |
| Conversions.UnsignedPrinted | src/printm.c:230-489 | u, o, x, X and p print the argument modulo 2 to the width that hh, h, l or ll selects, in base 10, 8 or 16, with 0, 0x or 0X in front if asked for |
| Conversions.SignedPrinted | src/printm.c:154-229 | d and i print the argument as a two's complement number, with - exactly when it is negative, else + or a space as the flags say |
| Conversions.OthersPrinted | src/printm.c:490-548 | c prints the character, s at most width characters of the string, the percent conversion a percent sign, and the floating-point conversions nothing |
| Printm.Console.PrintSigned | src/printm.c:154-229 | sign, padding and digits come out in the order of the field for every flag combination |
| Printm.Console.PrintUnsigned | src/printm.c:230-281 | the same for u |
| Printm.Console.PrintPrefixed | src/printm.c:282-489 | the same for o, x, X and p with their prefixes |
| Printm.Console.Convert | src/printm.c:154-548 | each conversion prints what the renderer of pieces prints |
| Printm.Console.Printm | src/printm.c:82-575 | for every format and argument list the output equals that of the specification, which has no buffer |
| Cpio.SwapEndianness16 | src/dataparse/cpio_parse.c:5-10 | exchanges the two bytes |
| Cpio.ReadEntry | src/dataparse/cpio_parse.c:13-43 | a header in either byte order becomes the member's fields in host order, long values included |
| Cpio.LookupFirst | src/dataparse/cpio_parse.c:45-69 | the search finds the first member of the name, the trailer only when that is asked for, and otherwise nothing |
| Cpio.MemberHere | src/dataparse/cpio_parse.c:49-66 | at a member's offset its header can be loaded and its name read, and the next member starts behind its padded data |
| CpioArchive.MemberIs | src/dataparse/cpio_parse.h:13-24 | a member byte by byte in either byte order |
| CpioArchive.ArchiveHeld | src/dataparse/cpio_parse.c:48-66 | the concatenated members are an archive as the search expects it |
| CpioArchive.DataHere | src/dataparse/cpio_parse.c:57-61 | the data of a member is behind its padded name |
| Cpio.GetCpioEntryHeader | src/dataparse/cpio_parse.c:45-69 | for every archive in any mixture of byte orders: the data offset and host-order header of the member that the search finds, or 0 |
| CpioArchive.FindMember | src/dataparse/cpio_parse.c:45-69 | in every serialized archive the first member of a name is found with its data and its header in host order, and nothing when there is none |

## Left out

- Fatal traps and handlers that halt a hart; exceptions taken from M-mode; interrupts other than the M-mode software interrupt.
- The SWITCHCONTEXT command, which nothing sends, and the self-send of hart 0 at boot. Calls never send to their own hart.
- The second diagnostic line of the STARTHART handler (src/interrupts/context_switch.c:114), which takes the print lock where the first one did.
- Weak memory order, fairness, and whether a spinning hart ever gets its lock. A remote fence may be pending when its SBI call returns.
- A hart that stops or suspends itself is taken to wait in an idle loop, and that is an assumption: the code switches to a context (src/sbi_commands/hsm.c:56, 91) whose program counter is 0 after src/main.c:126 and is set nowhere, so the hart goes to address 0 in M-mode.
- Command words that a sender leaves unset are 0 in the models. That a hart has handled a command is recorded; the fence instruction or the pending bit that it stands for is not state of the models.
- Devices and CSRs other than those of the trap path: UART, CLINT timer, PMP, MENVCFG, time, reset and base calls.
- The fields of mstatus are kept apart instead of as bits of one word, and addresses in the trap model count words.
- On RV32 src/interrupts/context_switch_asm.S:161 reads reserved_0 instead of execution_mode; the model reads what the code reads, for any value of that word.
- The three hypervisor fences of rfnc.c, which only return an error. The four calls share the model of their common skeleton, and printing the failure is not an action.
- HeapMemory.Allocator.AllocateAndFreeStack: a heap below address 16 could give a stack top of 0, which kfree_stack takes for a failure.
- HeapMemory.Allocator.Kallocinit: blocks that are not word-aligned or start at address 0.
- Pages.PageAllocator.KallocPage: the frontier stays inside one page array; crossing into further arrays and clearing the page are left out.
- Pages.PageAllocator.KfreePage: pointers to pages beyond the entries of the array, where the stores leave the array.
- Permission, A and D bits, which walk_pts does not check, and the fault itself: on tables on which the standard raises a page fault the code returns an address, and Walk64 and Walk32 say which.
- Dtb.DtbParse: the reserve map, the 64-bit swap, null out-pointers, and blobs that are not laid out as the specification says; a string that is not terminated ends with the blob.
- Printm.Console.Printm: arguments are a list of numbers and strings are found by address; the print lock is part of the hart model.
- Cpio.GetCpioEntryHeader: archives without a trailer, and member sizes that wrap 32 bits.
- Loops that two routines of ext_m_supplement.S share instruction for instruction are written once (division and unsigned division, modulo and unsigned modulo).
- 128-bit XLEN, decode_instruction, and debug printing in walk_pts.
