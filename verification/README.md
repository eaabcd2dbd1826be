# Verification of the RV32IMA hart

A Dafny model of the emulator's hart (`src/rv32/`, `src/mem_map_manager.cpp`, `src/basic_memory.cpp`,
`src/bit_field.hpp`) and proofs about it. `dafny verify dfyconfig.toml` checks the whole project.

## How the model is built

- **Data layer.** `Bits`, `Words` and `MulDiv` model bit fields and the 32-bit arithmetic on bounded integers.
  `FlatMemory` is physical memory as one partial map of bytes; `MemoryMap` holds the classes `BasicMemory` and
  `MemoryMapManager`, whose methods are proved to act on that map. `Instructions` and `Decoder` follow the source;
  `Encoding` is the instruction listing of the Unprivileged ISA, written separately;
  `Datapath` reads loads, branches, shifts and bitwise operators against independent definitions.
- **Address translation.** `PageWalk` is the loop of `translateAddress` with its counter, its unchecked table
  addresses and its order of checks. `Sv32` is the translation of sections 4.3.1 and 4.3.2 of the Privileged
  Specification (20211203), written separately over a 34-bit memory. `PointerChain` proves when the loop
  ends, `Sv32Refinement` when the two agree, `TranslationLaws` what holds of the walk beyond the standard, and `WalkLimits`
  gives page tables on which the two differ.
- **State machine.** `Csrs`, `HartState`, `Execute` and `Steps` give each instruction and each step as a function on
  states: a step reads a clock value and a getchar answer, and ends in `Next`, in `Stop` (an `EmulatorException`, with the
  state it leaves) or in `Never` (a page walk that does not end). `Run` iterates steps over a sequence of inputs. `Effects`
  and `Fronts` prove what an instruction and what the part before it can touch; the modules `Fetching`, `Privilege`,
  `UserMode`, `InterruptMasking`, `Precision`, `TrapNesting`, `Reservations`, `Timer`, `Counters` and `Isolation` prove the
  invariants and run properties; `CounterAccess` and `IsolationRuns` carry what single instructions do to the counters and
  to memory over runs. `RegisterInstructions`, `ControlInstructions`, `MemoryInstructions`, `AtomicInstructions`,
  `CsrInstructions`, `Calls` and `TrapDelivery` state what every instruction and every trap does as it executes, in terms of
  the standard instead of the functions of `Execute`. `Departures` compares instructions and interrupts with the standard where the section below says
  that they differ, with the exact condition of agreement, and `Counters` does so for instret. `Witnesses` gives states and
  runs in which they differ, and `Idling` shows that runs of every length exist in both modes.
- **The object.** `HartObject.Hart` is the class the source writes: fields updated in place, the page walk as a loop,
  `stepInstruction` as methods. Each method is proved to land in the state the state machine gives, up to
  `StepInstruction` and the loop around it, so every theorem about `Step` and `Run` is a theorem about the object.

## Where the code departs from the standard

The model follows the code. For translation `Sv32Refinement.Refines` gives the exact condition of agreement; the
departures behind it are:

- A pointer PTE at the last level does not fault; the counter wraps to 2^32-1 and the walk goes on with vpn1
  (`WalkLimits.OverrunSucceeds`). A table whose two PTEs for an address point back to it is walked for ever.
- A pointer PTE with U, A or D set is followed, though section 4.3.1 reserves these bits in a pointer and section 4.3.2
  faults (`WalkLimits.ReservedFollowed`).
- Table addresses at or above 2^32 are cut off (`WalkLimits.HighRootDeparts`, `WalkLimits.HighTableDeparts`); only the
  final address is checked.
- Physical address 0 counts as a fault. `Sv32Refinement.Expected` translates the standard's answer so;
  `Sv32Refinement.AddressGiven` states the exact condition and `WalkLimits.ZeroFaults` gives a page table.

Elsewhere:

- Misaligned loads and stores report the translated address in stval (`Departures.LoadReports`,
  `Departures.StoreReports`, `Witnesses.ReportsPhysical`); AMOs report the virtual one (`Departures.AmoReports`).
- AMOSWAP also writes rs2 (`Departures.AmoStandard`, `Witnesses.SwapOverwrites`).
- CSR instructions write rd before a refused write traps, and the set and clear forms are refused by the value of the
  register that rs1 names instead of by the field: CSRRS and CSRRC with a register that holds zero retire on a read-only CSR,
  and user programs can change counters with CSRRSI and CSRRCI (`Departures.ReadOnlyStandard`,
  `Departures.ReadOnlyChanged`, `Witnesses.UserChangesCycle`, `Witnesses.ZeroRegisterRetires`).
- SRET, SFENCE.VMA, SFENCE.W.INVAL and SFENCE.INVAL.IR have no mode check (`Departures.PrivilegedStandard`,
  `Witnesses.UserReturns`); `Privilege` and `UserMode` show that a user's SRET cannot raise the mode.
- Interrupts are served software, timer, external; section 4.1.3 puts external first (`Departures.OrderStandard`,
  `Witnesses.SoftwareFirst`).
- The decoder leaves out fields that the listing fixes (`Encoding.Accepted`); an unmatched SYSTEM word with funct3 = 0,
  MRET for one, is decoded as CSRRW (`Departures.SystemFallthrough`, `Witnesses.MretFallsThrough`); EBREAK and SINVAL_VMA reach
  the CSR path and throw (`Departures.UnhandledThrow`).
- A memory region ending at 2^32 is never matched (`MemoryMap.CoversRange`).
- A step whose instruction traps still counts in instret (`Counters.InstretStandard`, `Witnesses.ServedCounts`).

A supervisor ECALL is served inside the step, as the machine-mode firmware below the hart would serve it, and SC checks the
reservation flag and not the reserved address. On one hart the latter is within section 8.2 of the Unprivileged ISA,
which lets the reservation set be of any size.

## Model

| member | source | states |
|---|---|---|
| Sv32Refinement.Refines | src/rv32/hart.cpp:694-768 | For every satp, memory, address, access and mode: `translateAddress` gives the answer of section 4.3.2 if and only if the two do not part (decided by the page numbers of the tables and at most two PTEs), or the chain of pointers the emulator goes on to follow ends in a PTE that gives the fault due where they part. |
| Sv32Refinement.AddressGiven | src/rv32/hart.cpp:757-767 | Where the two do not part and the standard gives an address, the emulator gives it if and only if it is neither 0 nor at or above 2^32; 0 faults and the rest throws. |
| Sv32Refinement.StandardParts | src/rv32/hart.cpp:703-754 | A reserved bit in the root pointer or a pointer at the second level is a page fault of the standard, a table at or above 2^32 an access fault, in every memory. |
| Sv32Refinement.ChainDecides | src/rv32/hart.cpp:705-767 | The emulator faults, or throws, exactly when the PTE or gap at the end of the chain is unusable or names frame 0, or is unmapped or names a frame at or above 2^32. |
| Sv32Refinement.TwoReads | src/rv32/hart.cpp:705-755 | The walk ends within two PTE reads exactly when the second PTE consulted is not a pointer. |
| Sv32Refinement.PermitsIsAllowed | src/rv32/hart.cpp:713-740 | The seven ordered checks on a leaf amount to the permission, alignment and A/D rules of section 4.3.2. |
| Sv32Refinement.ComposeIs | src/rv32/hart.cpp:742-749 | The field assignments build the 34-bit address of step 8, for pages and superpages, and stay within 34 bits. |
| Sv32Refinement.VirtualFields | src/rv32/vmem.hpp:10-15 | The fields of a virtual address are its quotients and remainders by the page and superpage size. |
| PointerChain.EndsWithin | src/rv32/hart.cpp:705-755 | From any table and counter the loop ends if and only if it ends within 2^52 + 1 iterations, one more than the pairs of a table and a counter; what the chain reaches within that bound is what the loop ends on. |
| PointerChain.ComesBack | src/rv32/hart.cpp:705-755 | A walk that returns to a table address modulo 2^32 with the same counter never ends. |
| PointerChain.SelfPointing | src/rv32/hart.cpp:705-755 | A table that points to itself leaves the walk unfinished after every number of iterations. |
| PointerChain.SelfPointingEndless | src/rv32/hart.cpp:703-755 | Translation through such a root table never returns. |
| WalkLimits.OverrunSucceeds | src/rv32/hart.cpp:705-754 | Concrete tables for which the standard faults at the second level and the emulator translates through a third. |
| WalkLimits.HighRootDeparts | src/rv32/hart.cpp:703-706 | For every satp whose root lies at or above 2^32 some memory makes the emulator translate what the standard cannot reach. |
| WalkLimits.HighTableDeparts | src/rv32/hart.cpp:706-753 | For every root below 2^32 and every second table at or above it, some memory makes the emulator translate what the standard cannot reach, unless the cut-off address is the root PTE itself. |
| WalkLimits.ZeroFaults | src/rv32/hart.cpp:757-759 | A superpage at physical 0: the standard gives address 0 and the emulator faults. |
| WalkLimits.ReservedFollowed | src/rv32/hart.cpp:708-754 | Concrete tables whose root pointer has the reserved bit U set: the standard faults and the emulator translates. |
| TranslationLaws.SamePage | src/rv32/hart.cpp:742-767 | Two addresses of one page get the same answer with equal offsets into one frame, physical 0 apart. |
| TranslationLaws.SameSuperpage | src/rv32/hart.cpp:746-767 | Two addresses of a superpage translate alike over the whole 4 MiB. |
| TranslationLaws.WriteImpliesRead | src/rv32/hart.cpp:712-740 | A writable address is readable at the same physical address. |
| TranslationLaws.ExecuteExclusive | src/rv32/hart.cpp:713-728 | With paging on no address is executable in both modes, whatever SUM and MXR are. |
| TranslationLaws.SumMxrMonotone | src/rv32/hart.cpp:721-732 | Setting SUM or MXR never removes an access nor moves its physical address. |
| Privilege.StepClean | src/rv32/hart.cpp:27-692 | Every step keeps "user mode implies spp = user", and leaves user mode only by entering a trap. |
| Privilege.ReachableClean | src/rv32/hart.cpp:449-458 | The same invariant in every state of every run. |
| Privilege.SupervisorOnlyByTrap | src/rv32/hart.cpp:449-458 | A run of any length that goes from user to supervisor mode takes a trap. |
| Privilege.UserToSupervisor | src/rv32/hart.hpp:119-121 | The same for any two points of a run from reset, and spp is user at the first. |
| UserMode.StepUser | src/rv32/hart.cpp:446-627 | A user step without a trap changes no trap or translation CSR; sip only by stip; sstatus only by an SRET. |
| UserMode.UserRun | src/rv32/hart.cpp:446-627 | The same over untrapped user runs, with sstatus the effect of exactly the SRETs executed. |
| InterruptMasking.StepMasked | src/rv32/hart.cpp:629-692 | A step that traps or starts masked ends masked if and only if its instruction does not open interrupts: SRET into user mode or with spie set, or a supervisor's CSR instruction whose result for sstatus has sie set. |
| InterruptMasking.MaskedRun | src/rv32/hart.cpp:653-668 | A masked hart takes no interrupt in any continuation in which no instruction opens interrupts; reads of sstatus and user attempts on it do not. |
| InterruptMasking.NoInterruptUntilReopened | src/rv32/hart.cpp:629-692 | After any trap no interrupt is taken until an SRET or a CSR instruction that writes sstatus opens interrupts. |
| InterruptMasking.InterruptOrder | src/rv32/hart.cpp:653-691 | An interrupt is taken exactly when open and one is pending and enabled; the code in scause is the first of software, timer, external. |
| TrapDelivery.TakesIffDue | src/rv32/hart.cpp:653-668 | An interrupt is taken if and only if the hart is in user mode or has sie set, and sip & sie & 0x222 is not zero. |
| TrapDelivery.InterruptStep | src/rv32/hart.cpp:27-32 | With an aligned pc a step begins with the entry of the first interrupt due (sepc, scause, stval, sstatus, mode, vectored or base pc, by the numbers of the CSRs), and with nothing if none is due or they are masked. |
| TrapDelivery.MisalignedStep | src/rv32/hart.cpp:28-32 | With a misaligned pc it begins with exception 0 for that pc. |
| TrapDelivery.FetchStep | src/rv32/hart.cpp:34-43 | Every outcome of the fetch: the little-endian word at the translated pc, the stop on unmapped memory or an exception, and one more attempt after a page fault has been delivered. |
| TrapDelivery.FetchFaultStep | src/rv32/hart.cpp:34-41 | A page fault of the fetch is delivered as exception 12 for the pc. |
| TrapDelivery.TrapStep | src/rv32/hart.cpp:629-651 | After a step whose instruction traps, the CSRs read by number give its pc, cause and value, and the pc is the stvec base. |
| TrapDelivery.StateTranslates | src/rv32/hart.cpp:694-732 | satp below 2^31 turns paging off; otherwise SUM and MXR are bits 18 and 19 of the CSR read as 0x100. |
| TrapDelivery.SretOp | src/rv32/hart.cpp:449-458 | SRET goes to sepc, in the mode of spp, with sie from spie, by the numbers of the CSRs. |
| RegisterInstructions.RegisterOp | src/rv32/hart.cpp:325-444 | Every register instruction, the M extension included, puts in rd a result that meets its condition for rs1 and rs2 in that order, and changes nothing else but the pc. |
| RegisterInstructions.ComputesUnique | src/rv32/hart.cpp:325-444 | The condition of each instruction leaves one result. |
| RegisterInstructions.ImmediateOp | src/rv32/hart.cpp:277-324 | Every immediate instruction meets the condition of its register form with the immediate, or the shift amount, in place of rs2. |
| RegisterInstructions.UpperOp | src/rv32/hart.cpp:576-586 | LUI puts its immediate in rd, AUIPC the pc plus the immediate. |
| ControlInstructions.BranchOp | src/rv32/hart.cpp:115-157 | A branch goes to pc plus offset exactly if its condition holds of rs1 and rs2, on by 4 otherwise, and changes nothing else. |
| ControlInstructions.JumpOp | src/rv32/hart.cpp:158-174 | JAL and JALR go to their (even) targets, rs1 read before rd is written, with the next address in rd and nothing else changed. |
| ControlInstructions.NothingOp | src/rv32/hart.cpp:487-588 | FENCE, FENCE.I, WFI and the supervisor's fences only go on. |
| MemoryInstructions.LoadOp | src/rv32/hart.cpp:47-85 | Every outcome of a load: rd holds the little-endian number at the translated address, zero- or sign-extended; or the page fault, the misaligned address, or the stop on unmapped memory. |
| MemoryInstructions.StoreOp | src/rv32/hart.cpp:86-114 | Every outcome of a store: the low bytes of rs2 stand at the translated address and nothing else changes; or the traps; or the stop with the bytes before the first gap in place. |
| MemoryInstructions.StoreThenLoad | src/rv32/hart.cpp:47-114 | A store and then a load of the same width at one virtual address, outside the page tables that map it: rd holds the part of rs2 stored, extended. |
| AtomicInstructions.AtomicOp | src/rv32/hart.cpp:175-275 | Every outcome of LR, SC and the AMOs: the word in rd, the reservation, the answer of SC, the combination left in memory, and the traps. |
| CsrInstructions.CsrOp | src/rv32/hart.cpp:500-573 | Every outcome of a CSR instruction: the old value in rd, rs1 or the immediate written whole, set or cleared by bits, every other CSR and register kept; or the traps, or the stop on an unknown number. |
| CsrInstructions.SwapTwice | src/rv32/hart.cpp:528-537 | CSRRW of a register with itself, twice, restores the CSR and the register. |
| CsrInstructions.AccessByNumber | src/rv32/csr.hpp:147-170 | The access type of a known CSR is the one its number encodes. |
| CsrInstructions.ClosedByNumber | src/rv32/hart.cpp:508-521 | A counter is closed to the user by the bit of scounteren that its number names. |
| Calls.CallOp | src/rv32/hart.cpp:459-486 | A user's ECALL traps with cause 8; a supervisor's sets the timer and clears stip, writes or reads a character, shuts down, or throws, as a7 says. |
| Departures.OrderStandard | src/rv32/hart.cpp:655-668 | The interrupt served is the standard's if and only if external is not pending together with another. |
| Fetching.FetchAligned | src/rv32/hart.cpp:27-43 | Every fetch is at a 4-aligned pc and physical address, after at most two trap entries. |
| Fetching.TwoTrapsBeforeFetch | src/rv32/hart.cpp:27-43 | Two trap entries before a successful fetch: an interrupt vectored to another page than the stvec base, then the page fault. |
| Fetching.RetryStops | src/rv32/hart.cpp:34-41 | A fault at the stvec base in supervisor mode repeats on the retry and throws. |
| Fetching.SamePageRetryStops | src/rv32/hart.cpp:34-41 | So does a fault at a vectored address in the page of the base. |
| Fetching.PhysKeepsOffset | src/rv32/hart.cpp:742-767 | Translation keeps the page offset. |
| Precision.ExecPrecise | src/rv32/hart.cpp:46-591 | Every trap of an instruction leaves the state it started from, except the refused CSR write, which has put the CSR in rd. |
| Precision.PreciseStep | src/rv32/hart.cpp:43-651 | A trapping step: memory, registers and reservation as before, sepc the faulting pc, mode and sie in sstatus, next pc the stvec base, masked. |
| TrapNesting.EnterThenSret | src/rv32/hart.cpp:449-458 | SRET after exception or interrupt entry restores pc, mode and sie and every sstatus bit but 1, 5, 8. |
| TrapNesting.RunLinked | src/rv32/hart.cpp:27-692 | The trap entries and retired instructions of any run form one chain of control; every entry, in the front of a step or by its instruction, leaves the interrupted pc in sepc and mode and sie in sstatus, up to and after the counters. |
| TrapNesting.ClosesIffResumes | src/rv32/hart.cpp:449-458 | An SRET resumes the pc, mode, sie and other sstatus bits that a trap interrupted if and only if sepc and every sstatus bit but sie are as the entry left them. |
| TrapNesting.RunUnbroken | src/rv32/hart.cpp:449-692 | In any stretch of any run that forms a tree of closed traps, at every depth each instruction begins at the pc, in the mode and with the sie that the one before it on its level left, whatever traps lie between. |
| TrapNesting.RunOfTraps | src/rv32/hart.cpp:449-692 | A run that is nothing but a sequence of closed trap trees ends at the pc, mode and sie it began with. |
| TrapNesting.QuietHandlerReturns | src/rv32/hart.cpp:446-692 | A handler that takes no trap and leaves sepc, and sstatus but for sie, as it found them returns with its SRET, with nothing assumed of the saved values. |
| TrapNesting.QuietKeeps | src/rv32/hart.cpp:446-575 | In a run every instruction on another CSR, and every read of sepc and sstatus, leaves the two CSRs so. |
| TrapNesting.SretResumes | src/rv32/hart.cpp:449-458 | A step that executes SRET with sepc and sstatus as entry left them resumes the interrupted code. |
| Reservations.ExecFlag | src/rv32/hart.cpp:204-218 | LR sets the flag, SC clears it, no other instruction or trap touches it; SC without it only puts 1 in rd. |
| Reservations.FailingSc | src/rv32/hart.cpp:209-218 | A failing SC changes rd, pc and counters, and no memory. |
| Reservations.ScsBounded | src/rv32/hart.cpp:204-218 | In any run storing SCs are at most the LRs, plus one for a flag held at the start. |
| Reservations.FlagIsLrSinceSc | src/rv32/hart.cpp:204-218 | The flag after a run says exactly whether an LR completed since the last storing SC. |
| Reservations.ScNeedsLr | src/rv32/hart.hpp:121 | From reset, a storing SC follows an LR with no storing SC between, and storing SCs never outnumber LRs. |
| Timer.RunClock | src/rv32/hart.cpp:600-617 | With a monotone clock, T ticks over E nanoseconds of lastTime: T*p <= E, and E < 2*T*p once T > 0. |
| Timer.LessThanPeriodBehind | src/rv32/hart.cpp:604-617 | After every step the clock is less than one period ahead of lastTime. |
| Timer.RunTime | src/rv32/hart.cpp:605-614 | As long as no instruction changes it (reads and refused writes do not), timeh:time is its start plus the ticks of the run modulo 2^64. |
| Timer.TimerRaises | src/rv32/hart.cpp:604-617 | An update that reaches timeCompare sets stip; nothing else of sip changes and stip is never cleared. |
| Counters.RunCounts | src/rv32/hart.cpp:619-626 | Each of cycle and instret, as long as no instruction changes it, is its start plus the number of steps modulo 2^64, trapped steps included. |
| Counters.InstretStandard | src/rv32/hart.cpp:619-626 | Instret counts the instructions retired if and only if the number of instructions that trapped is a multiple of 2^64: in fewer than 2^64 steps, if and only if none trapped. |
| CounterAccess.ChangesIff | src/rv32/hart.cpp:500-573 | An instruction changes a read-only CSR if and only if it is CSRRSI or CSRRCI on it, accessible, with a register that holds zero and an effective immediate; no trap changes one. |
| Counters.ReachableZero | src/rv32/hart.cpp:22-25 | Register 0 is zero after every run. |
| Isolation.ExecIsolated | src/rv32/hart.cpp:86-276 | With paging on, a user instruction changes bytes only in the one frame its leaf PTE names, with V, R, W, U, A, D set; exceptions included. |
| Isolation.StepIsolated | src/rv32/hart.cpp:27-598 | The same for a whole uninterrupted step. |
| IsolationRuns.RunIsolated | src/rv32/hart.cpp:27-598 | Over any untrapped user run every byte that differs lies in a frame granted to the program at some step. |
| IsolationRuns.RunKeepsTranslation | src/rv32/hart.cpp:694-768 | If no such frame holds a PTE consulted for an address, the address translates after the run as before. |
| Idling.IdleRun | src/rv32/hart.cpp:587-597 | With paging off, interrupts disabled and FENCE in every word, a run of any length completes in its mode, pc advancing by 4 modulo 2^32. |
| Idling.IdleExists | src/rv32/hart.hpp:108-121 | Such harts exist in both modes, so the theorems about runs and steps speak of existing runs. |
| Departures.ReadOnlyStandard | src/rv32/hart.cpp:500-573 | A CSR instruction on a read-only counter does what section 9.1 says if and only if it is a set or clear form with rs1 field zero, or both refuse it and rd already held the counter's value or is x0. |
| Departures.RefusalStandard | src/rv32/hart.cpp:504-571 | The refusal agrees with section 9.1 if and only if no set or clear form names a register other than x0 that holds zero. |
| Departures.ReadOnlyChanged | src/rv32/hart.cpp:500-573 | The counter changes if and only if CSRRSI or CSRRCI names a register that holds zero and its immediate sets a clear bit, or clears a set one. |
| Departures.ReadOnlyKept | src/rv32/hart.cpp:500-573 | What such an instruction leaves in the counter when it retires, and that its refusals change no CSR. |
| Departures.LoadReports | src/rv32/hart.cpp:50-79 | A misaligned load reports the translated address: the virtual one of section 4.1.9 if and only if the translation maps it to itself. |
| Departures.StoreReports | src/rv32/hart.cpp:89-109 | The same for a misaligned store. |
| Departures.AmoReports | src/rv32/hart.cpp:180-200 | A trapped atomic reports the virtual address in rs1. |
| Departures.PrivilegedStandard | src/rv32/hart.cpp:449-491 | SRET, SFENCE.VMA, SFENCE.W.INVAL and SFENCE.INVAL.IR do what the standard says if and only if the hart is in supervisor mode. |
| Departures.UnhandledThrow | src/rv32/hart.cpp:492-503 | EBREAK and SINVAL_VMA throw with the state unchanged. |
| Departures.SystemFallthrough | src/rv32/decoder.cpp:200-228 | A SYSTEM word with funct3 = 0 decodes as CSRRW if and only if the switches list none of its fields, and then it has a row for none of the decoder's opcodes. |
| Witnesses.UserChangesCycle | src/rv32/hart.cpp:559-565 | A user's csrrsi x5, cycle, 1 sets bit 0 of cycle in a concrete state, where section 9.1 traps. |
| Witnesses.ZeroRegisterRetires | src/rv32/hart.cpp:538-544 | A user's csrrs x5, cycle, x1 with x1 zero retires in the same state, where section 9.1 traps. |
| Witnesses.UserReturns | src/rv32/hart.cpp:449-458 | A user's SRET retires in a concrete state, where section 3.3.2 traps. |
| Witnesses.MretFallsThrough | src/rv32/decoder.cpp:202-228 | MRET decodes as CSRRW. |
| Witnesses.ServedCounts | src/rv32/hart.cpp:619-626 | A run of two steps in which one instruction traps and one retires. |
| Witnesses.SwapOverwrites | src/rv32/hart.cpp:219-225 | amoswap.w x5, x6, (x0) puts the old word in x6 as well. |
| Witnesses.SwapExists | src/rv32/hart.cpp:219-225 | A concrete state and word for it. |
| Witnesses.SoftwareFirst | src/rv32/hart.cpp:656-664 | CSRs with a software and an external interrupt pending: the software one is served. |
| Witnesses.ReportsPhysical | src/rv32/hart.cpp:50-109 | A concrete state in which a load and a store at virtual 0x1002 report 0x3002. |
| Witnesses.ServedRun | src/rv32/hart.cpp:449-485 | A run from a concrete state that takes an ECALL trap and closes it, whatever its inputs. |
| Departures.AmoStandard | src/rv32/hart.cpp:219-273 | A completed AMO is the standard's if and only if it is not an AMOSWAP with an rs2 that is not x0, not rd and holds another value. |
| Effects.ExecFrame | src/rv32/hart.cpp:46-591 | What each instruction class may change when it retires, traps or throws. |
| Fronts.PreambleFrame | src/rv32/hart.cpp:27-32 | After the preamble the pc is aligned; the state is untouched or a trap was entered and interrupts are masked. |
| Fronts.FrontFrame | src/rv32/hart.cpp:27-43 | Up to the fetch only pc, mode, sstatus, sepc, scause and stval change, by at most two trap entries. |
| Csrs.ReadWriteCsr | src/rv32/csr.hpp:108-145 | A CSR gives back what was assigned and no other CSR changes. |
| Csrs.EnterStatusBits | src/rv32/hart.cpp:630-634 | Trap entry saves mode and sie, clears sie, and keeps every other bit of sstatus. |
| Csrs.SretStatusBits | src/rv32/hart.cpp:453-457 | SRET restores sie, sets spie, clears spp, and keeps every other bit. |
| Csrs.CauseIs | src/rv32/hart.cpp:640-643 | The two field assignments determine all of scause. |
| Encoding.DecodeEncode | src/rv32/decoder.cpp:33-264 | Every opcode with its operands, aq and rl included, encoded by the ISA's formats, decodes to the same opcode, class, registers and immediate. |
| Encoding.Recognised | src/rv32/decoder.cpp:33-264 | A word with the constants of an instruction's listing decodes to that instruction, whatever its other bits. |
| Encoding.DecodesIff | src/rv32/decoder.cpp:33-264 | For every word and instruction: it decodes to that instruction if and only if it is one of the words named for it, those of its row and the looser families. |
| Encoding.Accepted | src/rv32/decoder.cpp:33-264 | A word that decodes to an instruction is that instruction by the listing if and only if it is in none of the families of fields the decoder does not look at. |
| Encoding.DecodedClass | src/rv32/decoder.cpp:4-31 | Every decoded opcode belongs to the class chosen for the word. |
| MulDiv.MulhPair | src/rv32/hart.cpp:374-383 | MULH above MUL is the exact 64-bit signed product. |
| MulDiv.MulhuPair | src/rv32/hart.cpp:384-388 | MULHU above MUL is the exact unsigned product. |
| MulDiv.MulhsuPair | src/rv32/hart.cpp:389-393 | MULHSU above MUL is the exact signed-by-unsigned product. |
| MulDiv.DivRem | src/rv32/hart.cpp:394-431 | DIV and REM recompose the dividend modulo 2^32 for every non-zero divisor, and are the quotient and remainder rounded toward zero exactly outside overflow. |
| MulDiv.DividesUnique | src/rv32/hart.cpp:394-431 | There is only one quotient and remainder rounded toward zero. |
| MulDiv.DivuRemu | src/rv32/hart.cpp:408-442 | DIVU and REMU recompose the dividend exactly, with remainder below the divisor. |
| MulDiv.DivideByZero | src/rv32/hart.cpp:401-440 | The four results of a division by zero. |
| Datapath.LoadStored | src/rv32/hart.cpp:55-112 | What SW, SH and SB store, LW, LHU, LH, LBU and LB load back, the signed forms as the two's-complement number of the part stored. |
| Datapath.BranchOrder | src/rv32/hart.cpp:118-155 | The branches are complementary pairs, both orders are total, and signed and unsigned order differ exactly across the sign bit. |
| Datapath.MinMax | src/rv32/hart.cpp:250-261 | AMOMIN and AMOMAX return the two words in signed order. |
| Datapath.MinMaxUnsigned | src/rv32/hart.cpp:262-273 | AMOMINU and AMOMAXU return the two words in unsigned order. |
| Datapath.AndBits | src/rv32/hart.cpp:303-305 | Each bit of a conjunction. |
| Datapath.OrXorBits | src/rv32/hart.cpp:295-302 | Each bit of a disjunction and of an exclusive or. |
| Datapath.CsrBits | src/rv32/hart.cpp:538-572 | CSRRS and CSRRSI set exactly the bits of their operand, CSRRC and CSRRCI clear exactly those. |
| Datapath.SubUndoesAdd | src/rv32/hart.cpp:279-334 | SUB undoes ADD; the sum is the signed and the unsigned one modulo 2^32. |
| Datapath.ShiftsDivide | src/rv32/hart.cpp:356-365 | SRA divides the signed number rounding down, SRL the unsigned one, by the low five bits of rs2. |
| Datapath.ShiftBack | src/rv32/hart.cpp:307-316 | SLLI and SRLI by the same amount drop exactly the bits shifted out. |
| FlatMemory.WordRoundTrip | src/mem_map_manager.cpp:5-29 | A word write is completed exactly when its four bytes are mapped, reads back, and changes no other byte, across handlers too. |
| FlatMemory.HalfwordRoundTrip | src/mem_map_manager.cpp:12-37 | The same for a halfword. |
| MemoryMap.BasicMemory.constructor | src/basic_memory.cpp:5-6 | A zeroed array of the given size behind the base address. |
| MemoryMap.BasicMemory.ReadByte | src/basic_memory.cpp:8-11 | The byte at the offset from the base. |
| MemoryMap.BasicMemory.WriteByte | src/basic_memory.cpp:13-16 | Only the byte at the offset changes. |
| MemoryMap.CoversRange | src/mem_map_manager.cpp:45-46 | A non-empty region is matched on exactly its own addresses if and only if it ends below 2^32. |
| MemoryMap.NoCoverAtTop | src/mem_map_manager.cpp:45-46 | A region that reaches or passes 2^32 covers no address. |
| MemoryMap.DispatchAppend | src/mem_map_manager.cpp:43-55 | A handler registered last answers exactly where no earlier one does. |
| MemoryMap.MemoryMapManager.GetHandler | src/mem_map_manager.cpp:43-51 | The search loop finds the first handler that covers the address, or throws. |
| MemoryMap.MemoryMapManager.RegisterHandler | src/mem_map_manager.cpp:53-55 | Registration changes no mapped address and adds exactly the rest of the new region. |
| MemoryMap.MemoryMapManager.ReadByte | src/mem_map_manager.cpp:19-21 | A read of the flat byte map. |
| MemoryMap.MemoryMapManager.ReadHalfword | src/mem_map_manager.cpp:12-17 | A little-endian halfword of the flat map, or an exception. |
| MemoryMap.MemoryMapManager.ReadWord | src/mem_map_manager.cpp:5-10 | A little-endian word of the flat map, or an exception. |
| MemoryMap.MemoryMapManager.WriteByte | src/mem_map_manager.cpp:39-41 | A write of the flat map. |
| MemoryMap.MemoryMapManager.WriteHalfword | src/mem_map_manager.cpp:31-37 | A halfword write of the flat map; an exception leaves the bytes written so far. |
| MemoryMap.MemoryMapManager.WriteWord | src/mem_map_manager.cpp:23-29 | A word write of the flat map; an exception leaves the bytes written so far. |
| MemoryMap.AlignedDispatch | src/mem_map_manager.cpp:43-51 | With word-aligned regions the bytes of one word have one handler. |
| MemoryMap.AlignedAllOrNothing | src/mem_map_manager.cpp:23-51 | An aligned word write then stores four bytes in one handler or throws with memory unchanged. |
| Bits.ReadIsDivMod | src/bit_field.hpp:11-13 | Reading a field is shifting down and masking. |
| Bits.ReadWritten | src/bit_field.hpp:15-19 | A field gives back what was written, truncated to its width. |
| Bits.ReadOther | src/bit_field.hpp:15-19 | A field write is invisible in every disjoint field. |
| Bits.WriteAgain | src/bit_field.hpp:15-19 | The last of two writes to a field counts. |
| Datapath.WriteIsMasked | src/bit_field.hpp:15-19 | A field write clears the bits under the mask and or-s in the value shifted to the field and masked, in a word of any width. |
| Bits.WriteBound | src/bit_field.hpp:15-19 | A field write stays in its word. |
| HartObject.Hart.constructor | src/rv32/hart.cpp:13-16 | Registers zero, supervisor mode, no reservation, timeCompare 0, CSRs arbitrary. |
| HartObject.Hart.Reset | src/rv32/hart.hpp:49-53 | The loop clears every register. |
| HartObject.Hart.ReadRegister | src/rv32/hart.cpp:18-20 | The register's value in the abstract state. |
| HartObject.Hart.WriteRegister | src/rv32/hart.cpp:22-25 | Only the register changes, and register 0 is zero. |
| HartObject.Hart.HandleException | src/rv32/hart.cpp:629-651 | The object goes to the exception-entry state. |
| HartObject.Hart.ServiceInterrupts | src/rv32/hart.cpp:653-692 | The object goes to the state after interrupt entry, or stays. |
| HartObject.Hart.CountUp | src/rv32/hart.cpp:600-627 | The object goes to the state after the counter update. |
| HartObject.Hart.TranslateAddress | src/rv32/hart.cpp:694-768 | The loop returns the result of the walk, whenever the walk ends. |
| HartObject.Hart.ExecuteLoad | src/rv32/hart.cpp:47-85 | Loads land where the state machine says, trap and exception included. |
| HartObject.Hart.ExecuteStore | src/rv32/hart.cpp:86-114 | Stores, likewise. |
| HartObject.Hart.ExecuteBranch | src/rv32/hart.cpp:115-157 | Branches, likewise. |
| HartObject.Hart.ExecuteJump | src/rv32/hart.cpp:158-174 | Jumps, likewise. |
| HartObject.Hart.ExecuteAmo | src/rv32/hart.cpp:175-202 | Atomics up to the read of the old word, likewise. |
| HartObject.Hart.ExecuteAtomic | src/rv32/hart.cpp:204-275 | The switch over the atomics, likewise. |
| HartObject.Hart.ExecuteSc | src/rv32/hart.cpp:209-218 | SC stores, answers 0 and clears the flag, or answers 1. |
| HartObject.Hart.ExecuteRmw | src/rv32/hart.cpp:219-273 | The read-modify-write operations, with AMOSWAP's write to rs2. |
| HartObject.Hart.ExecuteOpImm | src/rv32/hart.cpp:277-324 | Register-immediate arithmetic. |
| HartObject.Hart.ExecuteOp | src/rv32/hart.cpp:325-445 | Register arithmetic and the M extension. |
| HartObject.Hart.ExecuteUpper | src/rv32/hart.cpp:576-586 | LUI and AUIPC. |
| HartObject.Hart.CallSbi | src/rv32/hart.cpp:462-481 | The supervisor calls: timer, console and shutdown; others throw. |
| HartObject.Hart.ReturnFromTrap | src/rv32/hart.cpp:449-458 | SRET in place. |
| HartObject.Hart.ExecuteCsr | src/rv32/hart.cpp:500-574 | The CSR instructions, in the source's order of checks and writes. |
| HartObject.Hart.ExecuteSystem | src/rv32/hart.cpp:446-575 | The whole SYSTEM class. |
| HartObject.Hart.FetchInstruction | src/rv32/hart.cpp:27-44 | Alignment, interrupts, translation of the pc with one retry, and the fetch. |
| HartObject.Hart.Execute | src/rv32/hart.cpp:46-591 | The switch on the instruction class. |
| HartObject.Hart.StepInstruction | src/rv32/hart.cpp:27-598 | One call does one step of the state machine, or throws in the state the machine stops in. |
| HartObject.Hart.RunInstructions | src/main.cpp:106-113 | The loop of calls does the loop of the state machine, ended by an exception, a shutdown call or the end of the inputs. |
| Steps.LoopIsRun | src/main.cpp:28-30 | That loop is a run on some of its inputs, and leaves inputs over only after a shutdown. |

## Left out

- src/main.cpp apart from its loop: file loading, ncurses, the terminal and the device tree. `isRunning` is modelled as the absence of a shutdown call from the output log.
- The clock and the computation of `timebasePeriod` in floating point: the period is a positive 64-bit constant and every step is given a clock reading.
- The SBI callbacks: putchar and shutdown are recorded in an output log, getchar's answer is an input already converted to 32 bits.
- `setPC`, `getRegisters` and `getCSRs`: a caller that changes the hart between steps is outside every run.
- HartObject.Hart.TranslateAddress: requires a walk that ends; a walk that does not is the outcome `Endless`, on which the source's loop never returns. The same holds for the methods that call it, which require their step to have an end.
- Timer.RunClock: assumes a clock that does not go back and spans less than 2^64 nanoseconds, which is when the source's unsigned duration is the elapsed time.
- The ASID field, the G and RSW bits, and the ordering effects of fences: the source does not use them.
- Exception message texts and `std::to_string`.
- `|` of disjoint bit ranges is written as a sum, and a jump target with its low bit cleared as a difference.
- C++ leaves the first read of an uninitialised CSR undefined; runs start from arbitrary CSR values instead.
