# A verified model of a VLIW back end

This project models the back half of a compiler for a VLIW machine, from machine intermediate code over virtual
registers down to verified bundles and their text, and proves that the passes keep what programs mean.

One semantics judges every pass.  `Machine` executes operations over general registers, predicate registers and a
byte-addressed memory; arithmetic and the byte layout of words are parameters, so every theorem holds for all
instruction sets.  Intermediate syllables and assembler syllables are decoded to the same operations.

* **Scheduling** (`SchedDag`, `DagBuilder`, `Scheduler`, `ScheduleFreedom`, `Ready`, `ScheduleTiming`, `Reorder`,
  `ScheduleMeaning`, `Accesses`, `ScheduleLimits`): the dependence graph built from running tables covers every conflict and
  nothing else, heights are longest paths, the table holds last writers and latencies, the order is the one the code's
  preferences determine, and it leaves the state of program order.
* **Register allocation** (`Regs`, `RegAlloc`, `Allocator`, `AllocationRuns`, `DeadRegisters`, `SpillMeaning`,
  `RegAllocMeaning`, `Redefinition`, `BlockAllocation`, `SpillFree`, `AllocationLimits`, `AllocationExamples`, `PredicateExamples`): a state
  machine over assignments, free registers and spill slots, the victim of an eviction being any unprotected register; its
  invariants, a simulation of one block, exactly when nothing is spilled, when an operand or a predicate is lost, and
  four blocks in which one is.
* **Emission** (`Lowering`, `Emitter`, `Timing`, `ScalarTiming`, `EmittedStream`, `EmittedProgram`, `ModuleEmission`,
  `EmissionExact`): exactly which modules are emitted; the scalar stream is issued in the earliest feasible cycles and
  always passes the verifier.
* **Control** (`MirRuns`, `AsmRuns`, `EmittedRuns`, `ModuleRuns`): runs of modules and of assembler programs, calls and
  returns included, and that emission and packing keep them.
* **Packing** (`Packer`, `PackGreedy`, `PackerMeaning`, `PackedProgram`, `PackTiming`, `PackLength`, `PackLanding`,
  `EmittedTiming`, `MergeLimits`, `BundleOrder`, `PackerLimits`, `StandardIsa`): exactly when neighbouring bundles are
  merged, that merging keeps meaning, order and latencies and never lengthens a function, and exactly when a merge is
  wrong.
* **The whole path** (`Pipeline`, `Compilation`): a block from virtual registers to packed bundles.
* **Bundle verification** (`Asm`, `AsmMeaning`, `BundleVerifier`, `VerifierExact`): exactly which bundles are accepted, and
  what that means for execution.
* **Parallel copies** (`Phi`, `PhiSerialize`), **liveness** (`LiveSets`, `Liveness`, `LivenessFixpoint`, `LivenessMeaning`,
  `LivenessRuns`: exactly the registers still to be used, and a register that is not live never matters to a run) and
  **block layout** (`Layout`, `LayoutMeaning`).
* **Text** (`Text`, `Numerals`, `OperandText`, `SyllableText`, `LinesText`, `BundleText`, `ProcessorText`, `HeaderText`,
  `HeaderRoundTrip`, `ProcessorRoundTrip`, `ProgramText`, `ProgramRoundTrip`, `TextEmitter`, `TextParser`): the `.vliw`
  printer and parser are inverse; `NumeralGrammar`, `OperandGrammar`, `SyllableGrammar`, `BlockGrammar`, `ProgramGrammar`,
  `HeaderGrammar` and `TextGrammar` say exactly which texts are accepted, and `GoldenText` has a stored one.

Passes that update state step by step are methods and classes with loops, proved against functions; the theorems are
about those functions.  Some promises do not hold of the code as written.  Each of these has an input that shows it and
an if-and-only-if:

* Packing is wrong when a bundle joins a writer of a predicate and a later reader of it, or two writers of it whose slots
  reverse their order; and, with two memory slots, a store and a later load of the same bytes, or two stores whose slots
  reverse their order (`MergeRightExactlyWhen`, for bundles of any size `BundleRight`).  A comparison for inequality compiles to the first pair.
* Allocation loses an operand when a syllable that is its last use redefines a register that, with the operands in place,
  has to be reloaded: one that was spilled before, or one that bringing an operand back has evicted
  (`RedefinitionRightExactlyWhen`).  It loses a predicate when its register is spilled and it comes back into another
  one, or into one in which another predicate has been computed meanwhile (`PredicateBackExactlyWhen`).  Neither happens
  in a block that needs at most 29 registers at once, which is exactly when nothing is spilled (`SpillFreeExactlyWhen`).
* Scheduling can be wrong when a store to a stack slot or an absolute address meets an access of the other kind; that
  none does is enough for blocks of any length (`BucketsDisjoint`).  For a block of two accesses the code is wrong exactly
  when a store is followed by a load of the same bytes (`ListScheduleRightExactlyWhen`), and the dependence graph allows a
  wrong order exactly when they are not both loads, not apart and not equal stores (`ScheduleRightExactlyWhen`).
* Block names are unique within a function only, and are printed as they are: when blocks of two functions share a name, or
  a function and a block, the emitted labels do not determine where a jump goes (`LabelsDistinctExactlyWhen`,
  `SharedNameLeadsAstray`, `TwoExits`).
* The smallest offset is printed in a form the parser refuses (`OperandReadsBackExactlyWhen`).

`dafny verify dfyconfig.toml` checks everything.

## Model

| member | source | states |
|---|---|---|
| Opcodes.FromMnemonic | crates/vliw-asm/src/opcode.rs:85-131 | A mnemonic is recognised only as the opcode that prints that way. |
| Opcodes.MnemonicRoundTrip | crates/vliw-asm/src/opcode.rs:85-179 | Every opcode is read back from its own mnemonic, so the two tables are inverse. |
| Machine.EffectFrame | crates/vliw-backend/src/lib.rs:551-610 | What an operation does depends only on the registers and bytes it is said to read. |
| Machine.IndependentCommute | crates/vliw-backend/src/lib.rs:434-503 | Operations with no register conflict and no overlapping store may be exchanged. |
| Machine.DecodeKeys | crates/vliw-backend/src/lib.rs:561-595 | The registers the scheduler reads off a syllable are just those its meaning reads and writes, r0 apart. |
| DagBuilder.BuildGraph | crates/vliw-backend/src/lib.rs:434-503 | The incremental tables (last writer, readers since, barrier, memory log) give exactly the edges of the declarative dependence relation. |
| SchedDag.ConflictsAreJoined | crates/vliw-backend/src/lib.rs:434-503 | Any two syllables in conflict over a register, or that may alias in memory, are joined by a path, though only the last writer, its readers, bucket neighbours and barriers get edges. |
| ScheduleFreedom.ConflictExactlyWhen | crates/vliw-backend/src/lib.rs:434-535 | Two syllables are kept in order if and only if they conflict on a register, one is a memory operation at an unknown address, or both access stack slots, or both absolute addresses. |
| ScheduleFreedom.ScheduleExactlyWhen | crates/vliw-backend/src/lib.rs:434-503 | The dependence graph admits exactly the orders of a block that keep every such pair in order: no edge is missing and none is superfluous. |
| Scheduler.CountPreds | crates/vliw-backend/src/lib.rs:370-382 | The pending counts start as the exact numbers of predecessors. |
| Scheduler.ComputeHeights | crates/vliw-backend/src/lib.rs:537-547 | The single reverse sweep gives every node the largest summed latency over all paths from it. |
| Scheduler.PickReadyNode | crates/vliw-backend/src/lib.rs:419-432 | The chosen node can issue in this cycle and is the preferred one among all that can; none is chosen only if none can issue. |
| Scheduler.PickEarliestNode | crates/vliw-backend/src/lib.rs:383-400 | When nothing can issue, the chosen node issues earliest, ties broken by the preference order. |
| Scheduler.SomeNodeReady | crates/vliw-backend/src/lib.rs:383-416 | As long as syllables are left, some node is ready. |
| Scheduler.Retire | crates/vliw-backend/src/lib.rs:401-416 | Retiring a node never underflows a pending count and keeps the ready list exactly the unscheduled nodes without pending predecessors. |
| Scheduler.ListSchedule | crates/vliw-backend/src/lib.rs:365-417 | The result is a permutation of the block in topological order of its dependence graph: the order in which each node is the one the code prefers among all that are ready, by cycle, height and index. |
| Scheduler.GreedyUnique | crates/vliw-backend/src/lib.rs:383-432 | These preferences leave nothing open: a block has one such order. |
| ScheduleTiming.SchedulerTableRight | crates/vliw-backend/src/lib.rs:612-630 | For every order, the scheduler's table holds for each physical register the issue cycle of its last writer plus the latency of that opcode, and 0 if it has no writer. |
| ScheduleTiming.SchedulerIssuesEarliest | crates/vliw-backend/src/lib.rs:383-416 | Its clock runs through the earliest cycles, one syllable each, that are feasible for the order. |
| ScheduleTiming.CanIssueExactlyWhen | crates/vliw-backend/src/lib.rs:419-432 | A node can issue in the next cycle if and only if the results of the last writers of its sources have arrived, latencies counted. |
| ScheduleTiming.ChoiceExactlyWhen | crates/vliw-backend/src/lib.rs:383-432 | The node chosen after an order is the available one before every other, said by last writers, latencies and longest paths only. |
| Reorder.ReorderPreservesRun | crates/vliw-backend/src/lib.rs:365-417 | A permutation that only exchanges commuting operations leaves the same state. |
| ScheduleMeaning.SchedulePreservesMeaning | crates/vliw-backend/src/lib.rs:365-503 | From every state and under every instruction set the scheduled block leaves the registers, predicates and memory of program order, given that no store to a stack slot or an absolute address meets an access of the other kind. |
| Accesses.ExchangeRightExactlyWhen | crates/vliw-backend/src/lib.rs:505-535 | Two accesses without a register conflict may be exchanged in a state if and only if both load, they share no byte, or both store the same. |
| ScheduleLimits.ScheduleRightExactlyWhen | crates/vliw-backend/src/lib.rs:505-535 | For an access to a stack slot and one to an absolute address, every order the dependence graph allows is right if and only if both load, they are apart, or both store the same. |
| ScheduleLimits.ListScheduleRightExactlyWhen | crates/vliw-backend/src/lib.rs:383-432 | What the code chooses for such a pair is right if and only if it is not a store followed by a load of the same bytes. |
| ScheduleLimits.OverlapBreaksMeaning | crates/vliw-backend/src/lib.rs:383-432 | A store to stack address 0x100 and a load of absolute address 0x100: the scheduler puts the load first, and it misses the stored value. |
| RegAlloc.SpillSlotsFit | crates/vliw-backend/src/regs.rs:28-46 | Slots that are apart and counted are pairwise disjoint words above the saved link register, inside memory from 8192 bytes and up to 64 virtual registers on. |
| Regs.TopSixteenth | crates/vliw-backend/src/regs.rs:25-38 | Spills begin at fifteen sixteenths of memory, rounded down, with the link save word below. |
| RegAlloc.AllocPregPartition | crates/vliw-backend/src/regalloc.rs:245-271 | Granting a register keeps the free list and the assigned registers apart. |
| RegAlloc.PregForVregValid | crates/vliw-backend/src/regalloc.rs:223-243 | Asking for a register keeps the partition of r2 to r30, and the register is then on record. |
| RegAlloc.RunValid | crates/vliw-backend/src/regalloc.rs:99-309 | After every step of every run, free registers and assigned ones partition r2 to r30, the assignment is injective and the slots are apart. |
| RegAlloc.RunCounts | crates/vliw-backend/src/regalloc.rs:273-279 | Slots are handed out one per spilled register, over every run. |
| RegAlloc.RunPhysical | crates/vliw-backend/src/regalloc.rs:111-166 | No virtual register is left in the code of a run. |
| Allocator.Allocator.constructor | crates/vliw-backend/src/regalloc.rs:99-109 | A new allocator has every allocatable register free and nothing spilled. |
| Allocator.Allocator.SpillSlot | crates/vliw-backend/src/regalloc.rs:273-279 | A register keeps its slot; a new slot lies behind all others. |
| Allocator.Allocator.AllocPreg | crates/vliw-backend/src/regalloc.rs:245-271 | Computes the specified grant for some unprotected victim; fails only if 29 other registers are protected. |
| Allocator.Allocator.PregForVreg | crates/vliw-backend/src/regalloc.rs:223-243 | Computes the specified grant, with spill and reload code. |
| Allocator.Allocator.FreeVreg | crates/vliw-backend/src/regalloc.rs:304-309 | Gives the register back to the front of the free list. |
| Allocator.Allocator.RewriteSyllable | crates/vliw-backend/src/regalloc.rs:111-166 | Is one step of the specification for some choice of victims. |
| Allocator.Allocator.RewriteTerminator | crates/vliw-backend/src/regalloc.rs:168-204 | Is the specified rewriting of a branch condition, which cannot fail. |
| Allocator.Allocator.RewriteBlock | crates/vliw-backend/src/regalloc.rs:29-40 | Is a run of the specification over the block; fails only on a syllable with 29 virtual sources. |
| Allocator.VictimExists | crates/vliw-backend/src/regalloc.rs:245-271 | With fewer than 29 other registers protected there is a free register or a victim. |
| Allocator.ComputeBlockLastUses | crates/vliw-backend/src/regalloc.rs:58-86 | Maps exactly the registers a block uses to the position of their last use, terminators included. |
| Allocator.AllocateRegisters | crates/vliw-backend/src/regalloc.rs:22-56 | Allocates all blocks in layout order, each from the state the one before leaves, with exact last uses and live-out sets; cannot run out of registers when each syllable has fewer than 29 distinct virtual sources. |
| DeadRegisters.StepHoldsNeeded | crates/vliw-backend/src/regalloc.rs:111-166 | After a syllable no register is held for a value that is not needed from there on, unless it was held idle before the block. |
| DeadRegisters.BlockHoldsNeeded | crates/vliw-backend/src/regalloc.rs:29-40 | At the end of a block a virtual register has a physical one only if it is live there, or had it before and the block has nothing to do with it. |
| AllocationRuns.AllocationFits | crates/vliw-backend/src/regalloc.rs:22-56 | In every allocation of a function with virtual registers below 64 and at least 8192 bytes of memory, the registers are a partition and the slots fit after every block. |
| AllocationRuns.AllocationFitsWithin | crates/vliw-backend/src/regalloc.rs:111-309 | So they are after every syllable, whatever victims are chosen. |
| SpillMeaning.GrantKeepsRelated | crates/vliw-backend/src/regalloc.rs:223-271 | Eviction and reload code leaves every live value at the place on record. |
| RegAllocMeaning.DefiningStepKeepsRelated | crates/vliw-backend/src/regalloc.rs:111-166 | A syllable that defines a virtual register and its code do the same to everything that still matters. |
| BlockAllocation.BlockSimulation | crates/vliw-backend/src/regalloc.rs:111-309 | If the virtual and the physical machine agree when a block is entered, they agree when it is left, whatever victims are chosen. |
| BlockAllocation.AllocationPreservesMeaning | crates/vliw-backend/src/regalloc.rs:111-309 | For a block in scope, redefinitions included, entered by two machines that agree on what is live, the allocated block with its terminator leaves the same return register, fixed registers and program memory, live-out values at their places, and the branch goes the same way. |
| BlockAllocation.BranchConditionPreserved | crates/vliw-backend/src/regalloc.rs:168-204 | The branch that ends the block tests the same condition. |
| SpillFree.SpillFreeExactlyWhen | crates/vliw-backend/src/regalloc.rs:111-309 | Whatever victims may be chosen, a block is allocated without spilling if and only if no syllable needs more than 29 registers at once. |
| SpillFree.FittingBlockPreserved | crates/vliw-backend/src/regalloc.rs:111-309 | The meaning of such a block is preserved, redefinitions, predicates and all memory included. |
| Redefinition.RedefinitionRightExactlyWhen | crates/vliw-backend/src/regalloc.rs:119-166 | A syllable with any virtual destination reads its operands right, from every state and for every victim, if and only if they are predicates, it is the last use of none of them, or once they are in place the destination need not be reloaded. |
| AllocationExamples.RedefinitionBreaksBlock | crates/vliw-backend/src/regalloc.rs:139-166 | A block with its own last uses, compiled from a fresh allocator: a spilled v0 is redefined by the last use of v29; it is 29 and its register holds 0. |
| AllocationExamples.EvictedDestinationBreaksBlock | crates/vliw-backend/src/regalloc.rs:119-166 | Another: v1 is in a register when it is redefined by the last use of a spilled v0, whose reload evicts it; it is 0 and its register holds 1. |
| AllocationLimits.PredicateBackExactlyWhen | crates/vliw-backend/src/regalloc.rs:223-271 | Over any stretch of a run that ends with bringing a register back, its predicate is back, from every state and under every instruction set, if and only if the register is the one it had at the start and no syllable in between has computed that predicate. |
| PredicateExamples.SpilledPredicateBreaksBlock | crates/vliw-backend/src/regalloc.rs:255-271 | A block with its own last uses, compiled from a fresh allocator: the predicate v0 comes back into another register, and the branch tests the negation of whatever p3 was. |
| PredicateExamples.DeadComparisonBreaksBlock | crates/vliw-backend/src/regalloc.rs:255-271 | Another: v0 comes back into its register, which a comparison nobody reads has overwritten, and the branch goes the wrong way from every state. |
| BundleVerifier.VerifyBundle | crates/vliw-asm/src/verify.rs:33-139 | Accepts exactly the legal bundles; an error names a hazard that is really there. |
| BundleVerifier.VerifyProgram | crates/vliw-asm/src/verify.rs:142-149 | Accepts exactly the programs whose bundles are all legal. |
| BundleVerifier.VerifierSeesGprs | crates/vliw-asm/src/verify.rs:81-109 | The general registers a syllable reads and writes in its meaning are among those the verifier collects. |
| VerifierExact.CollectedExactlyWhen | crates/vliw-asm/src/verify.rs:81-109 | The converse as well: for every well-formed syllable the general registers collected are those its meaning names, r0 included, no more and no fewer. |
| VerifierExact.LegalExactlyWhen | crates/vliw-asm/src/verify.rs:33-139 | A bundle of well-formed syllables is accepted if and only if each stands in a slot that executes it and no operation writes a general register that another one reads or writes, r0 counted. |
| VerifierExact.ApartIsAccepted | crates/vliw-asm/src/verify.rs:33-139 | So known syllables in supporting slots, pairwise apart on the general registers and on r0, are accepted whatever they do to predicates and memory. |
| VerifierExact.SourceKeysExactlyWhen | crates/vliw-backend/src/lib.rs:1098-1124 | A syllable waits for exactly the registers its meaning reads. |
| VerifierExact.UnitExactlyWhen | crates/vliw-asm/src/verify.rs:35-40 | A unit has the kind of its last declaration with a known kind. |
| BundleVerifier.AcceptedBundleAnyOrder | crates/vliw-asm/src/verify.rs:81-139 | An accepted bundle with no predicate or memory conflict means the same issued at once and executed in any order: the RAW check rules out WAR too. |
| AsmMeaning.IssueIsRun | crates/vliw-asm/src/verify.rs:81-139 | Operations none of which writes what a later one reads or writes do together what they do in sequence. |
| AsmMeaning.WriteBackAnyOrder | crates/vliw-asm/src/verify.rs:111-122 | Operations that write apart may be written back in any order of their slots. |
| Lowering.LoweringRightExactlyWhen | crates/vliw-backend/src/lib.rs:700-744 | Lowering keeps the effect of a syllable in every state if and only if no source register is printed where the opcode has its destination. |
| Lowering.LoweredIsWellFormed | crates/vliw-backend/src/lib.rs:700-744 | Proper syllables lower to operands in the shape the verifier and the packer rely on. |
| Lowering.ScalarSlot | crates/vliw-backend/src/lib.rs:1154-1198 | The slot supports the opcode; none is found only if no slot does. |
| EmissionExact.LowersExactlyWhen | crates/vliw-backend/src/lib.rs:700-744 | A syllable lowers if and only if its registers are physical, no operand but an address is a stack slot, and a load or predicate writer has its destination. |
| EmissionExact.ScalarSlotExactlyWhen | crates/vliw-backend/src/lib.rs:1178-1198 | The slot is that of the opcode's alias, if it executes the opcode, and else the first that does. |
| EmissionExact.XSlotExactlyWhen | crates/vliw-backend/src/lib.rs:1208-1217 | Terminators go in the slot of the first alias X. |
| EmissionExact.CanonicalSlots | crates/vliw-backend/src/lib.rs:1178-1198 | On the canonical processor: integer operations in slot 0, memory in slot 2, control and multiplication in slot 3, others nowhere. |
| EmissionExact.ModuleEmittedExactlyWhen | crates/vliw-backend/src/lib.rs:287-307 | A module is emitted if and only if every syllable and terminator of it lowers and has a slot of the processor. |
| Emitter.CodegenCtx.WaitUntil | crates/vliw-backend/src/lib.rs:829-834 | Pads with nops up to the target cycle and changes nothing else. |
| Emitter.CodegenCtx.EmitAsmSyllableInSlot | crates/vliw-backend/src/lib.rs:766-803 | Waits for the sources, issues the syllable alone in its slot, and enters its result in the ready table; refuses an unsupported slot before changing anything. |
| Emitter.CodegenCtx.EmitOne | crates/vliw-backend/src/lib.rs:648-656 | Emits as specified, or fails the way the specification fails. |
| Emitter.CodegenCtx.EmitEnd | crates/vliw-backend/src/lib.rs:658-698 | Emits the terminator in the X slot, or fails as specified. |
| ScalarTiming.ScheduleTableRight | crates/vliw-backend/src/lib.rs:788-802 | The ready table holds, for each register, when the result of its last writer arrives. |
| ScalarTiming.ScheduleFeasible | crates/vliw-backend/src/lib.rs:805-827 | No syllable issues before the results of its sources' last writers arrive. |
| ScalarTiming.ScheduleEarliest | crates/vliw-backend/src/lib.rs:766-834 | No order-preserving, one-per-cycle schedule that respects the latencies issues any syllable sooner. |
| EmittedProgram.EmittedFunctionForm | crates/vliw-backend/src/lib.rs:294-307 | A function's stream holds its syllables in source order on that schedule, padded for latency, every bundle legal. |
| EmittedProgram.EmissionIsEarliest | crates/vliw-backend/src/lib.rs:766-834 | The bundles of an emitted function are issued in the earliest feasible cycles. |
| EmittedProgram.EmittedIsLegal | crates/vliw-backend/src/lib.rs:287-312 | If emission succeeds the verifier cannot fail, for every processor and every list of functions. |
| EmittedRuns.LoweredTransfer | crates/vliw-backend/src/lib.rs:658-698 | Read off mnemonic and operands, the lowered terminator sends control where the original does, in every state: a branch tests the same predicate and goes to the same target, a jump too, a call goes to the callee, a return back. |
| EmittedRuns.EmittedModuleLaid | crates/vliw-backend/src/lib.rs:294-307 | Each function's own label stands in front of its first block, each block's label in front of code that does what the block does, and its lowered terminator behind that. |
| ModuleRuns.EmittedModuleRuns | crates/vliw-backend/src/lib.rs:287-312 | Every run of a module, through blocks, branches, jumps, calls and returns, is a run of the emitted program that stands at the same blocks in the same states with the same callers to return to. |
| ModuleRuns.EmittedRunUnique | crates/vliw-backend/src/lib.rs:287-312 | With distinct names the emitted program has no other run. |
| ModuleRuns.LabelsDistinctExactlyWhen | crates/vliw-backend/src/lib.rs:294-303 | The labels of the emitted program are distinct if and only if no two functions and blocks of the module share a name; block names are only unique within a function. |
| ModuleRuns.SharedNameLeadsAstray | crates/vliw-backend/src/lib.rs:294-303 | If blocks of two functions share a name, the label a jump names stands in front of both, and the emitted jump can as well lead into the other function. |
| ModuleEmission.EmitScalarModule | crates/vliw-backend/src/lib.rs:287-312 | Fails only when emission fails; the final verification never does. |
| ModuleEmission.EmitPackedModule | crates/vliw-backend/src/lib.rs:314-357 | Schedules every block, emits and packs; the final verification never fails. |
| ModuleRuns.TwoExits | crates/vliw-backend/src/lib.rs:294-303 | Two functions whose blocks have the same names: from the entry of the one the emitted module can go on in either. |
| Packer.FirstOpenSlot | crates/vliw-backend/src/lib.rs:1056-1065 | The first empty slot that supports the opcode. |
| Packer.TryMerge | crates/vliw-backend/src/lib.rs:997-1032 | Merges when the specification does: nothing pending, sources ready a cycle earlier, slots available, result legal. |
| Packer.PadAndPush | crates/vliw-backend/src/lib.rs:984-991 | The padding loop ends with exactly the nops the bundle's sources need. |
| Packer.PackBundleSegment | crates/vliw-backend/src/lib.rs:966-995 | Computes the specified packing of a segment. |
| Packer.PackScalarProgram | crates/vliw-backend/src/lib.rs:923-964 | Computes the specified packing of the stream, table and clock running on across functions. |
| PackGreedy.MergedExactlyWhen | crates/vliw-backend/src/lib.rs:997-1065 | A bundle joins the last one, as the given bundle, if and only if that one holds something but no terminator, all results arrive by the next cycle, the sources arrived a cycle earlier, its syllables one after another find first fitting empty slots, and the result is legal; for bundles of any occupancy, any start cycle and table. |
| PackGreedy.PackStepExactlyWhen | crates/vliw-backend/src/lib.rs:966-995 | A step joins whenever that is possible; if not, the bundle follows after the fewest nops after which its sources have arrived. |
| PackGreedy.PackSegmentExactlyWhen | crates/vliw-backend/src/lib.rs:966-995 | A segment is packed by such steps and in no other way. |
| PackGreedy.PackItemsOnClock | crates/vliw-backend/src/lib.rs:923-964 | Each segment is packed in the cycle, and with the ready table, that all bundles packed before it leave. |
| PackerMeaning.PackSegmentGroups | crates/vliw-backend/src/lib.rs:966-1054 | Packing a segment keeps every syllable exactly once, and from bundle to bundle the text order. |
| PackerMeaning.BundleInTextOrder | crates/vliw-backend/src/lib.rs:1042-1065 | An accepted bundle does what its syllables do one after the other in text order, wherever its slots put them, unless an earlier one writes a predicate or a byte a later one is concerned with. |
| PackerMeaning.PackSegmentPreservesMeaning | crates/vliw-backend/src/lib.rs:966-1054 | Packing a segment leaves the state the scalar bundles leave, with simultaneous reads before writes, if this holds of each packed bundle. |
| PackerMeaning.ScalarSegmentOrderly | crates/vliw-backend/src/lib.rs:966-1054 | With one memory slot it holds if in the segment no predicate is read or overwritten behind its writer. |
| PackedProgram.PackProgramStructure | crates/vliw-backend/src/lib.rs:923-964 | Labels and terminators keep their order, terminators stay alone, and what lies between is packed segment by segment. |
| PackedProgram.PackProgramPreservesMeaning | crates/vliw-backend/src/lib.rs:923-1054 | Every run of the packed program, wherever control goes, reaches the states of the scalar program, if no packed bundle joins such a pair. |
| AsmRuns.PackedRunsExactlyWhen | crates/vliw-backend/src/lib.rs:923-1054 | Under the same condition the packed program has exactly the runs of the scalar one, calls and returns included. |
| Pipeline.EmittedInScope | crates/vliw-backend/src/lib.rs:314-341 | Emitted programs meet the conditions of the packing theorem, but for predicates read or overwritten behind their writer within a block. |
| Pipeline.PackProgramLegal | crates/vliw-backend/src/lib.rs:1023-1031 | Packing legal bundles gives legal bundles. |
| Pipeline.PackedModulePreserved | crates/vliw-backend/src/lib.rs:314-341 | Packing an emitted module preserves its runs and its legality. |
| ModuleRuns.PackedModuleRuns | crates/vliw-backend/src/lib.rs:314-341 | Every run of a module is a run of its packed program. |
| Pipeline.BlockPreserved | crates/vliw-backend/src/lib.rs:314-357 | Scheduling, lowering, emission and packing of a block together leave the state of the block in program order. |
| Compilation.AllocatedIsPlain | crates/vliw-backend/src/regalloc.rs:111-166 | The allocator turns proper syllables into proper syllables, spill code included. |
| Compilation.CompiledBlockPreserved | crates/vliw-backend/src/lib.rs:314-357 | Allocation, scheduling, emission and packing of a block together leave the return register, fixed registers, program memory and live-out values of the block over virtual registers, if no predicate is spilled, stack and absolute addresses are apart, and no packed bundle joins syllables that must not share one. |
| PackTiming.PackedProgramInTime | crates/vliw-backend/src/lib.rs:943-1032 | In packed output every bundle's sources are ready in its cycle, branch predicates included although terminators are pushed unchecked. |
| PackTiming.PredLatency | crates/vliw-asm/src/opcode.rs:241-336 | All predicate writers have latency 1. |
| PackTiming.InTimeLatency | crates/vliw-backend/src/lib.rs:1086-1146 | Being in time means: the result of the last writer of a register has arrived when a reader issues. |
| PackLength.StepStaysAhead | crates/vliw-backend/src/lib.rs:966-1040 | The pending-result test keeps the packed stream ahead of the scalar one, so a step never pads. |
| PackLanding.PackingNeverLengthens | crates/vliw-backend/src/lib.rs:966-1040 | A latency-padded stream is packed without one extra nop into no more bundles. |
| PackLanding.LandsInTime | crates/vliw-backend/src/lib.rs:966-1040 | Every bundle lands at or before its scalar cycle, all its syllables in the packed bundle of its landing cycle. |
| PackLanding.LandingInOrder | crates/vliw-backend/src/lib.rs:966-1040 | Landing cycles follow the text order. |
| EmittedTiming.EmittedFunctionPacks | crates/vliw-backend/src/lib.rs:966-1040 | Every single emitted function is packed without one extra nop into no more bundles. |
| EmittedTiming.EmittedFunctionLands | crates/vliw-backend/src/lib.rs:966-1040 | And each of its bundles lands at or before its scalar cycle. |
| EmittedTiming.PackedModuleInTime | crates/vliw-backend/src/lib.rs:926-964 | However many functions are packed together, no bundle reads a register early. |
| MergeLimits.IssueRightExactlyWhen | crates/vliw-asm/src/verify.rs:81-139 | Two operations apart on the general registers may be issued together, in a state and in given slots, if and only if the second reads nothing the first computes, loads nothing it stores, and standing in front of it overwrites nothing with something else. |
| MergeLimits.MergeRightExactlyWhen | crates/vliw-backend/src/lib.rs:1023-1054 | The same for any two scalar bundles the packer merges, in the slots it finds for them. |
| BundleOrder.BundleRight | crates/vliw-asm/src/verify.rs:81-139 | An accepted bundle of any size, its slots in any order, is right from a state if every two of its syllables are right as a pair. |
| BundleOrder.PackSegmentRight | crates/vliw-backend/src/lib.rs:966-1054 | Packing a segment leaves the state the scalar bundles leave if in every packed bundle, where it is issued, every two syllables are right as a pair. |
| PackerLimits.AllocatorYieldsNegation | crates/vliw-backend/src/regalloc.rs:138-161 | A negation that is the last use of a predicate gets its register: the pair below is what the allocator makes of a comparison for inequality. |
| PackerLimits.PredicatePairBreaksPacking | crates/vliw-backend/src/lib.rs:997-1032 | On the canonical processor the packer merges `cmpeq p2, r3, r4` and `pnot p2, p2`; with the usual comparison and negation that is wrong from exactly the states in which the old p2 is not the outcome of the comparison. |
| PackerLimits.PredicateWritersBreakPacking | crates/vliw-backend/src/lib.rs:1056-1065 | It also merges `pnot p2, p3` and `cmpeq p2, r3, r4`, the later one in the lower slot: wrong from exactly the states in which p3 is the outcome of the comparison. |
| PackerLimits.StoreThenLoadBreaksPacking | crates/vliw-backend/tests/layout_test.rs:12-43 | On the layout with two memory slots the packer merges `std [r1], r3` and `ldd r2, [r1]`: wrong from exactly the states in which another word was there before. |
| Phi.StuckIsPermutation | crates/vliw-backend/src/phi.rs:80-92 | When no copy is ready the pending copies form cycles: every source is a pending destination. |
| Phi.RunHolds | crates/vliw-backend/src/phi.rs:104-117 | A list of copies leaves in each register what its symbolic reading says, and nothing else changes. |
| PhiSerialize.SerializeStep | crates/vliw-backend/src/phi.rs:65-99 | Each iteration is a round of the loop, keeps the invariant and makes progress; the search for a register source cannot fail. |
| PhiSerialize.SerializeParallelCopies | crates/vliw-backend/src/phi.rs:55-102 | For all copy groups with distinct destinations the serialised code equals the simultaneous assignment, changes only fresh temporaries besides, uses at most one temporary for two copies, and is what the rounds of the loop emit; the loop ends. |
| PhiSerialize.TraceUnique | crates/vliw-backend/src/phi.rs:65-99 | The rounds, first ready copy first, determine the code. |
| PhiSerialize.DuplicateDestinationsLoop | crates/vliw-backend/src/phi.rs:65-99 | With two different sources for one register, one of them in a cycle, every run of rounds has a further round: the loop never ends. |
| LiveSets.Insert | crates/vliw-backend/src/liveness.rs:24-27 | Setting a bit adds one member. |
| LiveSets.Union | crates/vliw-backend/src/liveness.rs:33-35 | Bitwise or is union. |
| LiveSets.Difference | crates/vliw-backend/src/liveness.rs:37-39 | Bitwise and-not is difference. |
| LiveSets.DifferentMember | crates/vliw-backend/src/liveness.rs:148 | Different masks are different sets, so comparing masks compares sets. |
| Liveness.LiveEquation | crates/vliw-backend/src/liveness.rs:133-146 | The registers with a path to an exposed use and no redefinition before it solve the dataflow equations. |
| Liveness.LiveIsLeast | crates/vliw-backend/src/liveness.rs:133-146 | They are contained in every solution. |
| LivenessFixpoint.ScanBlock | crates/vliw-backend/src/liveness.rs:68-89 | Computes exactly the upward-exposed uses and the definitions of a block. |
| LivenessFixpoint.Sweep | crates/vliw-backend/src/liveness.rs:138-153 | A sweep keeps soundness and growth, and either changes nothing and is stable or lowers the number of missing members. |
| LivenessFixpoint.StableIsExact | crates/vliw-backend/src/liveness.rs:133-157 | A stable result is exact: live-in and live-out hold just the live registers. |
| LivenessFixpoint.Compute | crates/vliw-backend/src/liveness.rs:64-160 | The analysis ends, with exactly the registers live at the start and end of every block. |
| MirRuns.GoesExactlyWhen | crates/vliw-backend/src/liveness.rs:100-131 | The ways control can go from a block, said by its terminator and label names, are those it goes in some state. |
| LivenessMeaning.SuccessorsExactlyWhen | crates/vliw-backend/src/liveness.rs:91-131 | The successor lists have exactly these: the block a branch or jump names or the next one, a call's continuation, nothing after a return. |
| LivenessMeaning.LiveExactlyWhen | crates/vliw-backend/src/liveness.rs:64-157 | A register is live at a block if and only if a walk over single syllables from there leads to a use of it with no definition before. |
| LivenessMeaning.LiveAfterExactlyWhen | crates/vliw-backend/src/liveness.rs:134-140 | It is live after a block if and only if there is such a walk from a place control can go to. |
| LivenessRuns.DeadNeverMatters | crates/vliw-backend/src/liveness.rs:64-157 | Change a register that is not needed where a run starts: the new run takes the same way, agrees on everything else throughout, and on that register wherever it is needed. |
| LivenessRuns.NotLiveNeverMatters | crates/vliw-backend/src/liveness.rs:64-157 | In particular a register that is not live at a block. |
| Layout.PlacePieces | crates/vliw-backend/src/isel.rs:312-327 | A block is split at each of its calls, the pieces in order. |
| Layout.PlaceKeepsInvariant | crates/vliw-backend/src/isel.rs:565-590 | Placing a block keeps the worklist invariant: reachability, known successors, pending fall-through in front. |
| Layout.LayOut | crates/vliw-backend/src/isel.rs:142-163 | The worklist ends, places every reachable block exactly once, the entry first and then always the false successor or else the block announced first, and records exactly the edges that got a latch. |
| Layout.LayoutOrderUnique | crates/vliw-backend/src/isel.rs:142-163 | This determines the order. |
| LayoutMeaning.NamesDistinct | crates/vliw-backend/src/isel.rs:312-326 | No two placed blocks share a label. |
| LayoutMeaning.AfterBranch | crates/vliw-backend/src/isel.rs:572-584 | After a conditional branch comes its false target, or a latch that jumps to it. |
| LayoutMeaning.AfterCall | crates/vliw-backend/src/isel.rs:312-326 | After a call comes its continuation. |
| LayoutMeaning.StepFollowsCfg | crates/vliw-backend/src/isel.rs:565-590 | Every step of the placed code is one the control-flow graph allows. |
| LayoutMeaning.RunFollowsCfg | crates/vliw-backend/src/isel.rs:565-590 | Every run from the entry enters the blocks of a path of the graph. |
| LayoutMeaning.StepsDeterministic | crates/vliw-backend/src/isel.rs:565-590 | What a branch decides determines where control goes. |
| LayoutMeaning.CfgRunIsRun | crates/vliw-backend/src/isel.rs:565-590 | Every path of the graph is run, with the same decisions. |
| Numerals.ParseShownInt | crates/vliw-asm/src/parse.rs:308-309 | Decimal immediates are read back over all of i64 and refused outside. |
| Numerals.ParseShownHex | crates/vliw-asm/src/parse.rs:323-329 | Hexadecimal numbers are read back up to the largest i64 and refused beyond. |
| OperandText.OperandReadsBackExactlyWhen | crates/vliw-asm/src/parse.rs:289-313 | An operand is read back as what was printed if and only if its numbers are in range, it is not the smallest offset, and a label reads as nothing else. |
| OperandText.OperandRoundTrip | crates/vliw-asm/src/parse.rs:289-313 | Every printable operand is read back. |
| OperandText.SmallestOffsetIsRefused | crates/vliw-asm/src/parse.rs:296-299 | The smallest i64 offset is printed but not read back. |
| SyllableText.ParseOperands | crates/vliw-asm/src/parse.rs:269-287 | Cuts at the commas outside brackets and parses each piece; fails if one is no operand. |
| SyllableText.SyllableRoundTrip | crates/vliw-asm/src/parse.rs:257-267 | A printed syllable is read back. |
| BundleText.NameFindsSlot | crates/vliw-asm/src/parse.rs:205-212 | A displayed slot name finds its slot again when alias names are distinct. |
| BundleText.BundleRoundTrip | crates/vliw-asm/src/parse.rs:191-228 | A printed bundle is read back at full width, bare nops as empty slots. |
| LinesText.LinesRoundTrip | crates/vliw-asm/src/parse.rs:22-24 | Lines written out are read back. |
| HeaderRoundTrip.HardwareReads | crates/vliw-asm/src/parse.rs:121-140 | A printed unit list is read back. |
| HeaderRoundTrip.SlotUnitsBack | crates/vliw-asm/src/parse.rs:176-186 | The per-slot unit lists are put back in place by index. |
| ProcessorRoundTrip.ProcessorReads | crates/vliw-asm/src/parse.rs:74-119 | A printed processor header is read back. |
| ProgramRoundTrip.ParseEmit | crates/vliw-asm/src/parse.rs:52-72 | Parsing a printed program gives it back up to empty slots. |
| ProgramRoundTrip.RoundTripExactlyWhen | crates/vliw-asm/src/parse.rs:332-334 | Parsing a printed program gives exactly that program if and only if its bundles have full width and hold no bare nop. |
| TextEmitter.EmitProgram | crates/vliw-asm/src/lib.rs:174-185 | The printer's loops write exactly the specified lines. |
| TextEmitter.EmitBundle | crates/vliw-asm/src/lib.rs:235-253 | Every slot gets a line, in slot order. |
| TextParser.Parser.ParseProgram | crates/vliw-asm/src/parse.rs:52-72 | The line parser answers what the specification answers, errors and line numbers included. |
| TextParser.Parser.ParseProcessorBlock | crates/vliw-asm/src/parse.rs:74-119 | So does its processor block, entry by entry. |
| TextParser.ParseText | crates/vliw-asm/src/parse.rs:332-334 | Parsing a text is the specified parsing. |
| Text.TrimExactlyWhen | crates/vliw-asm/src/parse.rs:52-72 | A trimmed line is what stands between the white space at its ends. |
| NumeralGrammar.IntExactlyWhen | crates/vliw-asm/src/parse.rs:308-329 | A text is read as a number if and only if, a sign where one is allowed, leading zeros and case apart, it is the printed form of that number and in range. |
| OperandGrammar.OperandExactlyWhen | crates/vliw-asm/src/parse.rs:289-321 | Exactly the texts of its grammar are read as an operand. |
| SyllableGrammar.CutsExactlyWhen | crates/vliw-asm/src/parse.rs:269-287 | Operands are cut at every comma outside brackets and nowhere else. |
| SyllableGrammar.SyllableExactlyWhen | crates/vliw-asm/src/parse.rs:257-267 | Exactly the texts of its grammar are read as a syllable. |
| BlockGrammar.BlockSaysExactlyWhen | crates/vliw-asm/src/parse.rs:121-174 | A block is read if and only if its lines up to the first closing brace each say something, and the result is what they say together. |
| ProgramGrammar.BundleExactlyWhen | crates/vliw-asm/src/parse.rs:191-228 | Exactly these lines are read as a bundle: each slot holds what the last line for it says, by first alias or else by place. |
| ProgramGrammar.ItemsExactlyWhen | crates/vliw-asm/src/parse.rs:57-72 | Exactly these lines are read as a list of labels and bundles. |
| HeaderGrammar.HardwareExactlyWhen | crates/vliw-asm/src/parse.rs:121-140 | Exactly these lines are read as unit declarations. |
| HeaderGrammar.LayoutExactlyWhen | crates/vliw-asm/src/parse.rs:142-174 | Exactly these lines are read as aliases and slot lists. |
| HeaderGrammar.SlotTableRight | crates/vliw-asm/src/parse.rs:176-186 | The table reaches to the greatest slot with a line, and each slot has its last list. |
| TextGrammar.HeaderExactlyWhen | crates/vliw-asm/src/parse.rs:74-119 | Exactly these lines are read as a processor header, later entries replacing earlier ones. |
| TextGrammar.LinesExactlyWhen | crates/vliw-asm/src/parse.rs:22-24 | A text has these lines and no others. |
| TextGrammar.TextExactlyWhen | crates/vliw-asm/src/parse.rs:332-334 | Exactly the texts of the grammar are accepted, each as one program. |
| GoldenText.HeaderWritten | crates/vliw-asm/src/lib.rs:187-217 | The header of the canonical processor, line by line. |
| GoldenText.AddressesWritten | crates/vliw-asm/src/lib.rs:41-59 | An address is printed with a hexadecimal offset behind its sign, and with none if that is 0. |
| GoldenText.StoreWritten | crates/vliw-backend/tests/fixtures/golden/simple_store.vliw:38 | A store as it stands in a stored text. |
| GoldenText.Return7Compiled | crates/vliw-backend/tests/fixtures/golden/return_7.vliw:1-40 | A function that returns 7 is emitted and printed as the stored text. |

## Left out

- BlockAllocation.AllocationPreservesMeaning: is about one block whose virtual registers are defined before their uses, in which no operand is lost in the way above, no predicate is spilled, and the program does not access the spill slots; the allocator carries its state through blocks in layout order without reconciling it at joins, so nothing of the kind holds across blocks.  `SpillFreeExactlyWhen` gives the condition on the block under which nothing is spilled, and then nothing is lost.
- ScheduleMeaning.SchedulePreservesMeaning: assumes that no store to a stack slot or an absolute address meets an access of the other kind, as the code does; that this is exact is shown for pairs.
- PackerMeaning.PackSegmentPreservesMeaning: assumes that no packed bundle joins a writer of a predicate with a later reader or writer, nor a store with a later access of the same bytes, because the verifier the packer asks looks at general registers only; that this is exact is shown for pairs, slots included.
- ModuleRuns.EmittedModuleRuns: keeps the places calls return to on a stack of their own; that they travel in r31, and how r31 is saved around calls, is not part of the meaning of control.  It asks that each call continues at the next block, as the layout provides.
- LivenessRuns.NotLiveNeverMatters: is about registers used in one class only, since the analysis does not tell the classes apart, and takes callees to leave the caller's virtual registers alone.
- PackTiming.PackedProgramInTime: follows the text order of the stream; latencies along back edges are not tracked by the code either.
- PhiSerialize.SerializeParallelCopies: serialises one copy group with distinct destinations and sources older than the first temporary; where groups are placed (critical edges, predecessors split by calls) is not modelled.
- PhiSerialize.DuplicateDestinationsLoop: no phi group gives one register two different sources, so this only shows that the serialiser relies on it; that the loop ends with equal duplicates is not stated.
- LivenessFixpoint.Compute: virtual registers are numbered below 64, as the masks require.
- Lowering.LoweringRightExactlyWhen: addresses are unbounded integers, so the i64 overflow of an address plus an offset is not modelled.
- RegAlloc.SpillSlotsFit: memory sizes and addresses are unbounded integers.
- Allocator.AllocateRegisters: positions and slot numbers are unbounded; a hash map's order appears only as the arbitrary victim.
- TextParser.ParseText: error messages are reduced to the kind of error and its line.
- TextGrammar.TextExactlyWhen: which error a rejected text gets is left to the specification the parser is proved against.
- TextEmitter.EmitProgram: pads slot names by characters where the code pads by bytes of UTF-8; parsing trims either.
- AllocationExamples.RedefinitionBreaksBlock: like the other example blocks it chooses the victims, as a hash map's order may.
- Layout.LayOut: works on a control-flow graph of numbered blocks with a number of calls each; labels are values, so that two different labels printing alike is excluded.
- The acquire, release, address and prefetch opcodes have a register-only meaning, and floating-point and AES opcodes are table entries; no pass produces any of them.
- Cycle counters are unbounded where the code has u64, heights where it has u32.
- The call convention: parameters are never tied to argument registers by the allocator, so there is nothing to prove across calls.
- Selection of instructions from LLVM values, subset checks and the optimisation pipeline depend on LLVM objects and are not part of this model.
- The command-line driver and the printer of intermediate code, which has no parser to pair it with.
