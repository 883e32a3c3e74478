# Arancini: a Dafny model

Arancini translates x86-64 guest code into host code, block by block, through an intermediate representation of
packets and nodes. This project models the parts of it in which a mistake would silently change what a guest program
does, and proves what they are for.

- **Dispatch and chaining** (`GuestProgram`, `Dispatch`, `Chaining`, `ExecutionContext`). Any number of threads call
  `invoke`; under one lock a block is looked up or translated and the exit the thread came through is patched; native
  code runs outside the lock. `Dispatch` is the protocol as a state machine whose steps are what one thread does between
  two points where another can interfere, `GuestProgram` is the guest without a translator, `Chaining` says which exits
  get patched and what that saves, and `ExecutionContext` is the same protocol as objects updated in place.
  Micro-operations and the kernel are arbitrary functions.
- **Dead flag elimination** (`Ir`, `DeadFlags`, `DeadFlagsExact`, `DeadFlagsVisitor`, `DeadFlagsVisible`,
  `DeadFlagsFree`, `DeadFlagsDropped`, `DeadFlagsRight`, `DeadFlagsLimits`). The backward pass, its traversal marks and
  its port unlinking; what operations mean is a parameter. `DeadFlagsVisible` and `DeadFlagsDropped` say exactly which
  flag writes can be dropped from a chunk at all, `DeadFlagsRight` applies that to the pass.
- **Register allocation** (`X86Code`, `X86RegAlloc`, `X86FirstFit`, `X86AllocMeaning`, `X86AllocLimits`, `X86Builder`;
  `Arm64Code`, `Arm64RegAlloc`, `Arm64AllocCount`, `Arm64AllocMeaning`, `Arm64FirstFit`, `Arm64Blocks`, `Arm64AllocLimits`,
  `Arm64Bitcast`, `Arm64Builder`). Both reverse linear scans, with the instruction semantics as a parameter; operands
  have widths, so that a 32-bit write clears the upper half of its register. The arm64 register masks are parameters
  too.
- **RISC-V back end** (`CpuState`, `RegCache`, `RegCacheContext`, `ConstFold`, `DirectTargets`, `Bitwise`). The lazy
  register cache over the bytes of the CPU state, the translation-time evaluator, the exits it makes direct, and the
  bit-field sequences.
- **Code memory** (`CodeLog`, `CodeArena`, `ChainWindow`, `CodePatching`). Arena, allocator, writer and the window used
  for patching.
- **Lifting and loading** (`X87Stack`, `X87Extended`, `RepMovs`, `CondCodes`, `MovImm`, `Relr`). `Bits` holds the
  arithmetic they share.

`dafny verify dfyconfig.toml` checks everything.

## What the code does that it should not

Each is a concrete input, or an exact condition; the theorems carry the condition that excludes it.

- The arm64 allocator gives up a register before it reads it when one instruction defines and reads it as separate
  operands. In a bitcast of a 128-bit register to 64-bit elements the value to be shifted and the shift amount then get
  one register, and what is written back is 0 and 64, whatever the register held (`Arm64Bitcast.BitcastIsMiscompiled`;
  when exactly two registers are merged, `Arm64AllocLimits.SharesExactly`).
- The comment above the arm64 register mask lists x18, x29, x30 and x31 among the reserved registers, while the only bit
  the mask clears is 22. First fit hands out the memory base x18 exactly when some instruction needs more than eighteen
  integer registers at once, and the context pointer x29 exactly when one needs more than twenty-eight
  (`Arm64FirstFit.BasesHandedOutExactly`).
- After an unused floating-point kept definition the arm64 allocator flips the integer bank, so that two live values can
  share a register (`Arm64AllocLimits.FloatKeepBreaksTheBank`, `Arm64AllocLimits.FloatKeepExactly`). The kept arithmetic
  instructions take operands of any type; which of them the assembler accepts is not part of this model.
- It compares only register numbers when it removes moves, so a move between the banks can be lost
  (`Arm64AllocLimits.CrossBankMoveIsRemoved`, `Arm64AllocMeaning.LeftOutExactly`).
- A packet that rereads a flag it wrote, as REPE CMPSB does in a loop, loses that write if reads are made in order; the
  chunk given is a straight-line one (`DeadFlagsLimits.RereadBreaksThePass`).
- A flag read below an atomic node is not visited when the atomic node was first reached through a port, so a needed flag
  write is deleted (`DeadFlagsLimits.HiddenReadBreaksThePass`). This is a limit of the pass on the IR: no translator
  makes an atomic node over a flag read.
- Right shifts of trees narrower than 64 bits can fold to a wrong value (`ConstFold.NarrowShiftFoldsWrong`).
- When translation throws, `invoke` leaves the lock taken. Nothing in the runtime catches the exception, so that the
  process ends; `Dispatch.FailureIsForever` is about the lock protocol alone, in which no thread enters the lock again.
- The mask for inserting a field at bit 64 or above is shifted by that much before the position is reduced, which C++
  leaves undefined; the field is inserted exactly when the host makes the mask that a shift modulo 64 gives
  (`Bitwise.InsertsExactly`).

## Model

| member | source | states |
|---|---|---|
| `Dispatch.ChainingIsTransparent` | src/runtime/exec/execution-context.cpp:140-182 | for every interleaving of any number of threads, the guest-visible trace (blocks, registers, call depth, memory) of a chained run is the trace of some run of the plain dispatcher loop, and conversely |
| `Dispatch.PatchedExits` | src/output/dynamic/riscv64/riscv64-translation-context.cpp:1155-1241 | in every reachable state a patched exit belongs to a plain branch and jumps to the cached translation of exactly the constant PC that exit would have stored; calls, returns, system calls and computed branches are never patched |
| `Dispatch.MutualExclusion` | src/runtime/exec/execution-context.cpp:160-176 | two threads are never both between taking and releasing big_fat_lock |
| `Dispatch.FailureIsForever` | src/runtime/exec/execution-context.cpp:160-166 | once a translation has thrown, on every schedule its thread stays failed and holds the lock, and no other thread is ever inside the locked region |
| `Dispatch.StepKeepsInv` | src/runtime/exec/execution-context.cpp:140-182 | each step of any thread keeps the cache, the patches, the lock and every thread consistent |
| `Dispatch.RunKeepsInv` | src/runtime/exec/execution-context.cpp:140-182 | the same over every run |
| `Dispatch.StepRefinesGuest` | src/runtime/exec/execution-context.cpp:140-182 | an observable step of a thread is exactly one step of the guest, any other step is invisible |
| `Dispatch.RunRefinesGuest` | src/runtime/exec/execution-context.cpp:140-182 | over every schedule the trace is the guest run of the observable steps |
| `Dispatch.RealiseAll` | src/runtime/exec/execution-context.cpp:140-182 | every guest run can be scheduled through either dispatcher: the lock and the cache never block the guest |
| `Dispatch.ExitIsTermination` | src/output/dynamic/riscv64/riscv64-translation-context.cpp:1155-1241 | taking the selected exit of a block, patched or not, has the architectural effect of the end of the guest block |
| `Dispatch.ResolveOk` | src/runtime/dbt/translation-engine.cpp:25-37 | lookup or translate-and-insert keeps the tables consistent and ends with the translation of the PC; it fails exactly when the PC is neither cached nor code, with nothing shared changed |
| `Dispatch.LinkOk` | src/runtime/exec/execution-context.cpp:168-174 | with chaining, patching redirects the exit the thread left through to the translation of the constant stored there, and no other; without chaining, or without such an exit, nothing changes |
| `Chaining.EnteringPatches` | src/runtime/exec/execution-context.cpp:159-176 | from the dispatcher loop a thread is in the translation of its PC after four steps, the lock free again; with chaining the exit it came through now leads there, no other exit has changed, and without chaining or without a recorded exit none has |
| `Chaining.EnteringFails` | src/runtime/exec/execution-context.cpp:159-166 | when the PC is neither cached nor code two steps leave the thread failed, holding the lock, and nothing else changed |
| `Chaining.PatchedExitJumps` | src/output/dynamic/riscv64/riscv64-translation-context.cpp:1155-1241 | at the end of a block with a constant branch, or a select between two constants, a patched exit takes the thread in one step to the start of the cached translation of the constant the guest branches to; lock, tables and other threads are untouched |
| `Chaining.UnpatchedExitReturns` | src/output/dynamic/riscv64/riscv64-translation-context.cpp:1155-1241 | an exit that is not patched takes it back to the dispatcher loop with that constant as its PC and the exit recorded |
| `Chaining.RunKeepsPatches` | src/runtime/exec/execution-context.cpp:168-174 | on every schedule patches stay as they are once made, translations are only added, and without chaining no patch is ever made |
| `Chaining.OnceIsEnough` | src/runtime/exec/execution-context.cpp:140-182 | once one thread has left by an exit and come through the dispatcher, every thread that takes this exit later, on every schedule, is in the target block after one step without the lock |
| `Dispatch.InitOk` | src/runtime/exec/execution-context.cpp:132-138 | the invariant holds of a fresh context with any threads |
| `ExecutionContext.TranslationCache.Lookup` | inc/arancini/runtime/dbt/translation-cache.h:10-18 | found exactly when the address is a key, and then the stored translation |
| `ExecutionContext.TranslationCache.Insert` | inc/arancini/runtime/dbt/translation-cache.h:20-22 | the map afterwards |
| `ExecutionContext.Context.CreateExecutionThread` | src/runtime/exec/execution-context.cpp:132-138 | adds one thread in the dispatcher loop and changes nothing else |
| `ExecutionContext.Context.GetTranslation` | src/runtime/dbt/translation-engine.cpp:25-37 | a cached PC changes nothing; an undecodable one fails with nothing changed; otherwise exactly one translation is added and cached |
| `ExecutionContext.Context.Chain` | src/runtime/dbt/translation-engine.cpp:160-162 | redirects one exit, or nothing in a backend that cannot chain |
| `ExecutionContext.Context.EnterInvoke` | src/runtime/exec/execution-context.cpp:140-177 | the locked part of invoke is four steps of the protocol, and with chaining patches the recorded exit to the translation of the PC, and nothing else; when translation throws, two steps, nothing is patched and the lock stays taken |
| `ExecutionContext.Context.Advance` | src/runtime/exec/execution-context.cpp:140-182 | one protocol step in place, for every phase; an exit is patched only by a thread that has its translation and a recorded exit, with chaining, and then to that translation |
| `DeadFlags.DeadFlagEliminationIsSound` | inc/arancini/ir/opt.h:32-146 | for every straight-line chunk, operation semantics and initial state the optimised chunk ends with the same registers, memory and flags, provided no flag is read below an atomic or internal-call node and reads see packet-entry state (or no packet rereads a flag it wrote) |
| `DeadFlags.PacketAgrees` | inc/arancini/ir/opt.h:48-113 | one packet and its optimised form, started in states agreeing on live flags, end in states agreeing on the flags live before |
| `DeadFlags.DeletedExactly` | inc/arancini/ir/opt.h:125-146 | a write is deleted exactly when, at its visit, the flag has a later write and is not live |
| `DeadFlags.VisitPortFinds` | inc/arancini/ir/default-visitor.h:145-152 | the marking traversal adds exactly the flag reads below unmarked nodes |
| `DeadFlags.EveryReadFound` | inc/arancini/ir/opt.h:115-123 | every flag read an action depends on is found in its packet |
| `Ir.SameOrder` | inc/arancini/ir/opt.h:119-122 | when no packet rereads a flag it has written, reading at packet entry and reading in order agree |
| `DeadFlagsRight.DeletedIffUnread` | inc/arancini/ir/opt.h:125-146 | when no flag read hides below a guarded node, a write whose flag is written again is deleted exactly when no packet after its own, up to the next write, reads the flag at or below one of its actions |
| `DeadFlagsRight.FoundInIsReads` | inc/arancini/ir/opt.h:115-123 | the traversal finds exactly the flags the packet's actions read, when none hides below a guarded node |
| `DeadFlagsRight.PassIsRightExactly` | inc/arancini/ir/opt.h:32-146 | for reads at packet entry and for reads in order: the pass keeps the meaning of a chunk for all operations and initial states if and only if it deletes no write whose flag the chunk it is given wants afterwards, for memory, a register, an effect or the final flags |
| `DeadFlagsRight.PassIsSoundWhenUnread` | inc/arancini/ir/opt.h:32-146 | the pass keeps the meaning of every chunk in which each deleted write's flag is not read, at or below any node, before it is written again |
| `DeadFlagsDropped.DroppingIsRightExactly` | inc/arancini/ir/opt.h:55-110 | any set of flag writes can be dropped from a chunk if and only if none of them is visible in it |
| `DeadFlagsDropped.DroppingVisibleShows` | inc/arancini/ir/opt.h:125-144 | dropping a write visible in the original chunk changes the final state under operations that tell all computations and all histories of effects apart, unless an earlier write that is left may have written the same value |
| `DeadFlagsVisible.SameVisible` | inc/arancini/ir/opt.h:55-110 | a dropped write is visible in the original chunk exactly when it is in the thinned one, if no later dropped write is visible |
| `DeadFlagsVisible.DroppingIsSound` | inc/arancini/ir/opt.h:55-110 | dropping flag writes that are not visible keeps registers, memory and flags, whatever the operations mean |
| `DeadFlagsExact.LastWriteSurvives` | inc/arancini/ir/opt.h:129-134 | the last write of each flag in a chunk is never deleted |
| `DeadFlagsExact.SurvivorsKeepOrder` | inc/arancini/ir/opt.h:102-108 | surviving actions keep their order |
| `DeadFlagsExact.OnlyFlagWritesGo` | inc/arancini/ir/opt.h:55-110 | only flag writes are removed, and the packet stays well-formed |
| `DeadFlagsExact.ThrowsExactly` | inc/arancini/ir/opt.h:63-100 | the pass throws exactly when a deleted write is of PF and is fed by an arithmetic or atomic node |
| `DeadFlagsExact.LinksExact` | inc/arancini/ir/opt.h:59-100 | after the pass the zero, carry, overflow and negative ports of arithmetic and atomic nodes have lost exactly the deleted writes of ZF, CF, OF and SF fed by their node; other ports have lost nothing |
| `DeadFlagsExact.TargetsMatchSurvivors` | src/output/dynamic/riscv64/riscv64-translation-context.cpp:338-345 | a write of ZF, CF, OF or SF fed by the zero, carry, overflow or negative port of such a node is a target of that port exactly when it survives, which is what flags_needed reads |
| `DeadFlagsVisitor.Visitor.VisitPort` | inc/arancini/ir/default-visitor.h:145-152 | the seen set and the new live flags after visiting a port |
| `DeadFlagsVisitor.Visitor.VisitFlagWrite` | inc/arancini/ir/opt.h:125-144 | live flags, last-write map and deletion list after one flag write |
| `DeadFlagsVisitor.Visitor.Accept` | inc/arancini/ir/node.h:162-167 | accept returns early on a marked node and otherwise visits it |
| `DeadFlagsVisitor.Visitor.VisitActions` | inc/arancini/ir/opt.h:48-53 | the reverse loop over a packet is the backward pass |
| `DeadFlagsVisitor.Visitor.EraseMarked` | inc/arancini/ir/opt.h:55-110 | erasing and unlinking the marked writes, or throwing |
| `DeadFlagsVisitor.Visitor.VisitPacket` | inc/arancini/ir/opt.h:48-113 | one packet: actions erased, ports unlinked, deferred reads made live |
| `DeadFlagsVisitor.Visitor.VisitChunk` | inc/arancini/ir/opt.h:32-46 | the whole chunk becomes the optimised chunk, or the pass throws exactly when unlinking does |
| `DeadFlagsLimits.HiddenReadBreaksThePass` | inc/arancini/ir/node.h:1126-1133 | a concrete chunk of IR, of a kind no translator builds, with a flag read below an atomic node on which the pass changes what is stored |
| `DeadFlagsLimits.RereadBreaksThePass` | inc/arancini/ir/opt.h:119-122 | a concrete straight-line packet that rereads a flag it wrote, on which the pass is wrong when reads are in order |
| `X86RegAlloc.AllocateSucceedsExactly` | src/output/dynamic/x86/x86-instruction-builder.cpp:17-135 | allocation succeeds exactly when at most six virtual registers are live everywhere; the live ones are then in distinct registers, and all six are free at the start exactly when nothing is live on entry |
| `X86RegAlloc.AllocateInv` | src/output/dynamic/x86/x86-instruction-builder.cpp:19-155 | over the whole backward pass live virtual registers hold distinct registers that are not free |
| `X86RegAlloc.AllocateCount` | src/output/dynamic/x86/x86-instruction-builder.cpp:88-91 | the number of free registers is always six less the live ones |
| `X86FirstFit.HandedOutExactly` | inc/arancini/output/dynamic/x86/x86-instruction.h:135-153 | registers are handed out in the order AX, CX, DX, BX, DI, SI, and each exactly when as many virtual registers are live at once somewhere as it takes to come to it |
| `X86AllocMeaning.AllocationPreservesMeaning` | src/output/dynamic/x86/x86-instruction-builder.cpp:10-155 | the allocated code, with dead instructions and self-moves removed, ends with the same memory, flags and reserved registers as the virtual code, for every meaning in which register moves give what they read and every list that names each register at its own width |
| `X86AllocMeaning.BlockAllocation` | src/output/dynamic/x86/x86-instruction-builder.cpp:10-155 | the three results together for blocks that define what they read |
| `X86AllocMeaning.NoVirtualOperands` | src/output/dynamic/x86/x86-instruction-builder.cpp:73-135 | after success no live instruction has a virtual operand |
| `X86AllocMeaning.LiveMeaning` | src/output/dynamic/x86/x86-instruction-builder.cpp:28-67 | a register is live exactly when a surviving instruction reads it before anything defines it |
| `X86AllocLimits.ExtensionIsRemoved` | src/output/dynamic/x86/x86-instruction-builder.cpp:140-149 | a 32-bit move used as a zero extension is removed as a self-move |
| `X86AllocLimits.ExtensionIsHarmless` | src/output/dynamic/x86/x86-translation-context.cpp:252-256 | after a 32-bit load that is harmless, whatever the opcodes mean |
| `X86AllocLimits.IllWidthExtension` | src/output/dynamic/x86/x86-translation-context.cpp:133-147 | a register loaded at 64 bits and extended from 32 would store its upper half too; no assignment of widths admits such a block |
| `X86AllocMeaning.SelfMoveIsNothingExactly` | src/output/dynamic/x86/x86-instruction-builder.cpp:140-149 | a move of a register to itself changes nothing exactly when it is not the 32-bit one or the upper half is already clear |
| `X86Builder.InstructionBuilder.Allocate` | src/output/dynamic/x86/x86-instruction-builder.cpp:10-155 | the in-place loop leaves exactly the list the functional allocator gives, or throws when it fails |
| `X86Builder.AllocateOne` | src/output/dynamic/x86/x86-instruction-builder.cpp:21-153 | one turn of the loop |
| `X86Builder.KillDefs` | src/output/dynamic/x86/x86-instruction-builder.cpp:28-67 | the loop over definitions |
| `X86Builder.AllocateUses` | src/output/dynamic/x86/x86-instruction-builder.cpp:73-135 | the loop over uses |
| `Arm64AllocCount.AllocateInv` | src/output/dynamic/arm64/arm64-instruction-builder.cpp:73-231 | over the whole backward pass, within each bank, live virtual registers hold distinct registers that are not free |
| `Arm64AllocCount.AllocateSucceedsExactly` | src/output/dynamic/arm64/arm64-instruction-builder.cpp:57-232 | allocation succeeds exactly when, at each instruction not eliminated, what is live before it and the scratch register of an unused kept definition fit each bank |
| `Arm64AllocMeaning.AllocationPreservesMeaning` | src/output/dynamic/arm64/arm64-instruction-builder.cpp:57-232 | for every list, registers defined any number of times and any explicit registers included: if nothing needed is written over, the allocated code ends with the same memory, CPU state and watched explicit registers as the virtual code |
| `Arm64Blocks.BlockAllocation` | src/output/dynamic/arm64/arm64-translation-context.cpp:213-219 | for blocks that define each register once, address guest state and memory through any registers first fit does not reach and end in the move of the return code into x0: memory, CPU state and watched registers are those of the virtual code, and x0 ends with the return code |
| `Arm64Blocks.ClosedAllocation` | src/output/dynamic/arm64/arm64-instruction-builder.cpp:57-232 | allocation of a list that defines what it reads succeeds exactly when what is needed fits, and leaves every register free at the start |
| `Arm64Blocks.BodyUndisturbed` | src/output/dynamic/arm64/arm64-instruction-builder.cpp:73-231 | a list that defines each register once writes over nothing needed, if its explicit registers are never handed out |
| `Arm64Blocks.ClosingUndisturbed` | src/output/dynamic/arm64/arm64-translation-context.cpp:213-215 | the closing move into x0 writes over nothing needed, even when its source is given x0 |
| `Arm64FirstFit.EverUsedIsLowest` | src/output/dynamic/arm64/arm64-instruction-builder.cpp:97-104 | the registers of a bank ever in use are exactly its lowest, as many as are ever needed at once |
| `Arm64FirstFit.HandedOutExactly` | src/output/dynamic/arm64/arm64-instruction-builder.cpp:97-104 | a register is handed out exactly when the mask has it and some instruction needs more registers at once than come before it |
| `Arm64FirstFit.BasesHandedOutExactly` | src/output/dynamic/arm64/arm64-instruction-builder.cpp:64-71 | with the backend's mask, x18 is handed out exactly from nineteen integer registers needed at once on, x29 from twenty-nine |
| `Arm64AllocMeaning.WriteIsSafeExactly` | src/output/dynamic/arm64/arm64-instruction-builder.cpp:120-145 | writing a register at its own width keeps every needed value, whatever is written, exactly when no other needed value is in it |
| `Arm64AllocMeaning.LeftOutExactly` | src/output/dynamic/arm64/arm64-instruction-builder.cpp:210-230 | leaving out a register move is invisible exactly when the destination already holds what the move gives at its widths, in one bank or across the two |
| `Arm64AllocMeaning.NoVirtualOperands` | src/output/dynamic/arm64/arm64-instruction-builder.cpp:22-39 | after a successful allocation no live instruction has an operand that the check made on emission refuses |
| `Arm64RegAlloc.KeptSurvives` | src/output/dynamic/arm64/arm64-instruction-builder.cpp:146-155 | a kept instruction is never killed for an unused definition |
| `Arm64RegAlloc.ScratchIsFresh` | src/output/dynamic/arm64/arm64-instruction-builder.cpp:146-208 | an unused integer kept definition gets a register that no value live across the instruction and none of its own operands is in, and that is free again before it |
| `Arm64RegAlloc.AllocateInsnInv` | src/output/dynamic/arm64/arm64-instruction-builder.cpp:73-231 | one instruction keeps the two banks separately disjoint |
| `Arm64RegAlloc.DefPassInv` | src/output/dynamic/arm64/arm64-instruction-builder.cpp:120-157 | the definition pass kills exactly the useless instructions and spots exactly the unused kept ones |
| `Arm64RegAlloc.CleanupIs` | src/output/dynamic/arm64/arm64-instruction-builder.cpp:201-208 | with one defining operand the cleanup forgets exactly that definition and gives back its register |
| `Arm64AllocLimits.FloatKeepBreaksTheBank` | src/output/dynamic/arm64/arm64-instruction-builder.cpp:201-208 | with any masks that have number 0: a list in which a floating-point unused kept definition puts two live values in x0, and the allocated code stores the wrong one |
| `Arm64AllocLimits.FloatKeepExactly` | src/output/dynamic/arm64/arm64-instruction-builder.cpp:201-208 | the cleanup after an unused kept floating-point definition keeps the banks in order exactly when its number is free in the integer bank, or may be handed out there and holds no live integer |
| `Arm64AllocLimits.CrossBankMoveIsRemoved` | src/output/dynamic/arm64/arm64-instruction-builder.cpp:210-230 | with any masks that have number 0: a list whose move between the banks is removed, and the allocated code stores what d0 held |
| `Arm64Bitcast.BitcastIsMiscompiled` | src/output/dynamic/arm64/arm64-translation-context.cpp:1345-1366 | with any masks that have numbers 0 and 1: in a block that does nothing else, reading a 128-bit register, casting it to two 64-bit elements and writing it back leaves it as it is, and the allocated code writes 0 and 64 |
| `Arm64Bitcast.ElementMerges` | src/output/dynamic/arm64/arm64-translation-context.cpp:1350-1359 | wherever one element of such a cast stands, if no lower register is free than its result's, value, copy and shift amount all get that register and both copies are removed |
| `Arm64AllocLimits.SharesExactly` | src/output/dynamic/arm64/arm64-instruction-builder.cpp:120-199 | when an instruction reads the register it defines and reads another value for the last time, the two share a register exactly when no lower one was free |
| `Arm64Builder.InstructionBuilder.Allocate` | src/output/dynamic/arm64/arm64-instruction-builder.cpp:57-232 | the in-place loop leaves exactly the list the functional allocator gives, or throws when it fails |
| `Arm64Builder.AllocateOne` | src/output/dynamic/arm64/arm64-instruction-builder.cpp:73-231 | one turn of the loop |
| `Arm64Builder.KillDefs` | src/output/dynamic/arm64/arm64-instruction-builder.cpp:120-157 | the loop over definitions, with its table of allocations |
| `Arm64Builder.AllocateUses` | src/output/dynamic/arm64/arm64-instruction-builder.cpp:163-199 | the loop over uses |
| `Arm64Builder.ForgetUnused` | src/output/dynamic/arm64/arm64-instruction-builder.cpp:201-208 | the cleanup loop |
| `CpuState.PlacesDisjoint` | inc/arancini/runtime/exec/x86/x86-cpu-state.h:19-23 | in the packed structure no byte belongs to two registers |
| `CpuState.Layout` | inc/arancini/input/x86/reg.def:5-83 | the declared sizes put RAX at 8, R15 at 128, ZF at 136, the last flag at 143, FS at 144, the x87 control word at 168 and ZMM0 at 176, and make 2232 bytes |
| `CpuState.PutKeeps` | inc/arancini/runtime/exec/x86/x86-cpu-state.h:19-23 | storing one register leaves every other register as it was |
| `RegCache.EveryAccessInPlace` | src/output/dynamic/riscv64/riscv64-translation-context.cpp:166-217 | every load and store a translated block makes of the CPU state is of all the bytes of one general-purpose register or flag, at the place its declaration gives it, with the host register that belongs to it |
| `RegCache.CacheRefinesDirectAccess` | src/output/dynamic/riscv64/riscv64-translation-context.cpp:140-217 | for any straight-line block with one-bit flag writes, entered with registers 0-7 in host registers and the rest in memory, the emitted code computes the values direct access would and leaves registers 0-7 in host registers, 8-15 and all flags in the bytes of the CPU state where they are declared |
| `RegCache.NativeCallInMemory` | src/runtime/dbt/trampoline.riscv64.S:24-52 | seen through the trampoline, a native call takes a guest state in memory to the guest state after the block, in memory, and leaves PC, segment bases, x87, vector and control registers as they were |
| `RegCache.ChainRefinesDirectAccess` | src/output/dynamic/riscv64/riscv64-translation-context.cpp:140-217 | the same over any sequence of blocks, each entered by the patched jump of the one before; all other registers in the CPU state stay as they were |
| `RegCache.NativeRunInMemory` | src/runtime/dbt/trampoline.riscv64.S:24-52 | a native call that runs through any sequence of chained blocks takes the guest state in memory to the one after all of them, and leaves all other registers in the CPU state as they were |
| `RegCache.MaterialiseAgrees` | src/output/dynamic/riscv64/riscv64-translation-context.cpp:1059-1080 | one translated register access keeps host and guest state in agreement |
| `RegCache.GetOrLoadAgrees` | src/output/dynamic/riscv64/riscv64-translation-context.cpp:166-198 | after a load the host register holds the guest register, and nothing else changes for the guest |
| `RegCache.PreloadAgrees` | src/output/dynamic/riscv64/riscv64-translation-context.cpp:266-282 | loading every register an instruction reads keeps the agreement |
| `RegCache.PreloadExactly` | src/output/dynamic/riscv64/riscv64-translation-context.cpp:266-282 | the preload loads exactly the registers the instruction reads and takes none to be written |
| `RegCache.LoadsComeFirst` | src/output/dynamic/riscv64/riscv64-translation-context.cpp:266-282 | after the preload every access of the instruction is a single move or computation: nothing is loaded twice |
| `RegCache.WriteBackRegsAgrees` | src/output/dynamic/riscv64/riscv64-translation-context.cpp:200-208 | storing the written registers brings registers 8-15 up to date in the CPU state and keeps the agreement |
| `RegCache.WriteBackFlagsAgrees` | src/output/dynamic/riscv64/riscv64-translation-context.cpp:210-216 | the same for the flags |
| `RegCache.StoresExactly` | src/output/dynamic/riscv64/riscv64-translation-context.cpp:200-217 | the write-back stores exactly the general-purpose registers from R8 on and the flags that have been written |
| `RegCacheContext.TranslationContext.Begin` | src/output/dynamic/riscv64/riscv64-translation-context.cpp:232-237 | the bitsets at the start of a block |
| `RegCacheContext.TranslationContext.GetOrLoadMappedRegister` | src/output/dynamic/riscv64/riscv64-translation-context.cpp:166-198 | bitsets and code after a load, and the register returned |
| `RegCacheContext.TranslationContext.GetOrAssignMappedRegister` | src/output/dynamic/riscv64/riscv64-translation-context.cpp:140-164 | bitsets after an assignment, and the register returned |
| `RegCacheContext.TranslationContext.End` | src/output/dynamic/riscv64/riscv64-translation-context.cpp:266-292 | preloads in register order, then every node in order |
| `RegCacheContext.TranslationContext.RegistersUsed` | src/output/dynamic/riscv64/riscv64-translation-context.cpp:266-271 | exactly the registers the instruction reads |
| `RegCacheContext.TranslationContext.WriteBackRegisters` | src/output/dynamic/riscv64/riscv64-translation-context.cpp:200-217 | stores exactly the written registers from 8 on and the written flags |
| `ConstFold.FoldSound` | src/output/dynamic/riscv64/riscv64-translation-context.cpp:329-421 | a folded value is congruent to the tree's value modulo 2 to its width (at most 64), whatever the run-time values, provided each folded right shift brings in the right bits, each shift amount is untruncated and each operand of a division is exact |
| `ConstFold.FoldRightShiftExact` | src/output/dynamic/riscv64/riscv64-translation-context.cpp:404-419 | a folded lsr or asr is right exactly when the bits of the folded operand that are shifted in are zeros, or copies of the sign bit |
| `ConstFold.FullWidthOk` | src/output/dynamic/riscv64/riscv64-translation-context.cpp:404-419 | 64-bit right shifts always fold exactly |
| `ConstFold.NarrowShiftFoldsWrong` | src/output/dynamic/riscv64/riscv64-translation-context.cpp:411-412 | an eight-bit tree whose right shift folds to the wrong value |
| `ConstFold.DirectTargetIsExact` | src/output/dynamic/riscv64/riscv64-translation-context.cpp:1167-1186 | under the same conditions the constant of a direct jump is exactly the address the jump would store at run time |
| `DirectTargets.ExitIsRight` | src/output/dynamic/riscv64/riscv64-translation-context.cpp:1155-1241 | under the conditions on folding, taking folded constants for the target of a block's end, or for the arms of its select, changes nothing it does; a plain branch is chainable exactly when they fold |
| `DirectTargets.TakenIsRight` | src/output/dynamic/riscv64/riscv64-translation-context.cpp:1167-1186 | a tree that folds may be taken as a known PC, and exactly such trees are |
| `ConstFold.RelativeTarget` | src/output/dynamic/riscv64/riscv64-translation-context.cpp:338-391 | the target of a relative direct jump folds to the address plus the displacement, modulo 2^64 |
| `ConstFold.FoldsExactly` | src/output/dynamic/riscv64/riscv64-translation-context.cpp:338-345 | a defined tree folds exactly when it has no run-time leaf and no arithmetic node any of whose flags is used |
| `ConstFold.StaticOutcome` | src/output/dynamic/riscv64/riscv64-translation-context.cpp:329-421 | a tree without run-time leaves or used flags folds exactly when its constants have supported widths and its divisions and shifts are defined; otherwise folding throws or is undefined, and never gives up |
| `ConstFold.FoldCastOk` | src/output/dynamic/riscv64/riscv64-translation-context.cpp:373-389 | casts: bitcast, truncation, zero and sign extension of a congruent value |
| `ConstFold.FoldExtractOk` | src/output/dynamic/riscv64/riscv64-translation-context.cpp:392-403 | bit extraction of a congruent value is exact |
| `ConstFold.FoldArithOk` | src/output/dynamic/riscv64/riscv64-translation-context.cpp:346-371 | add, sub, mul, and, or, xor of congruent values are congruent |
| `ConstFold.FoldDivideOk` | src/output/dynamic/riscv64/riscv64-translation-context.cpp:358-361 | division and remainder of exact operands, signed or unsigned, give the result of that width |
| `ConstFold.BitOpBits` | src/output/dynamic/riscv64/riscv64-translation-context.cpp:346-371 | in a conjunction, disjunction or exclusive or each bit is that of the two bits of the operands, negative ones in two's complement |
| `ConstFold.QuotientDivides` | src/output/dynamic/riscv64/riscv64-translation-context.cpp:358-361 | quotient times divisor plus remainder is the dividend, and the remainder is smaller than the divisor and has the dividend's sign |
| `ConstFold.AsOperandRange` | src/output/dynamic/riscv64/riscv64-translation-context.cpp:358-361 | the operand of a division is congruent to its w-bit pattern and in the signed or the unsigned w-bit range |
| `CodeLog.RunKeepsInv` | inc/arancini/output/dynamic/machine-code-writer.h:39-85 | over every run that interleaves emits, finalises, resets and patches and fits the arena, finalised translations lie in it 16-byte aligned, in address order and disjoint |
| `CodeLog.OneTranslation` | src/runtime/dbt/translation-engine.cpp:128-136 | making a translation appends exactly one block holding exactly the bytes emitted |
| `CodeLog.LogOnlyGrows` | inc/arancini/output/dynamic/machine-code-writer.h:58-72 | after a reset a finalised translation never moves, and holds its bytes with exactly the later patches made |
| `CodeLog.PatchesApply` | inc/arancini/output/dynamic/chain.h:11-41 | every run with patches leaves the translations where the run without them does, holding the bytes emitted with exactly the patches made |
| `CodeLog.InitialInv` | inc/arancini/output/dynamic/machine-code-writer.h:11-13 | a new writer over an aligned arena satisfies the invariant |
| `CodeLog.StepKeepsInv` | inc/arancini/output/dynamic/machine-code-allocator.h:54-84 | one operation keeps the log, the bump pointer and the current allocation consistent, thrown errors included |
| `CodeLog.EmitCapacity` | inc/arancini/output/dynamic/machine-code-writer.h:75-85 | emits of at most 64 bytes never outrun the size asked of the allocator; a longer one does exactly when the doubled size is still too small |
| `CodeArena.ArenaAllocator.Allocate` | inc/arancini/output/dynamic/machine-code-allocator.h:54-84 | bump, resize of the last allocation, and the two errors |
| `CodeArena.MachineCodeWriter.EnsureCapacity` | inc/arancini/output/dynamic/machine-code-writer.h:75-85 | first 64 bytes, then doubling, through the allocator |
| `CodeArena.MachineCodeWriter.CopyIn` | inc/arancini/output/dynamic/machine-code-writer.h:39-44 | the bytes go to the end of the current allocation; every finalised translation keeps its bytes |
| `CodeArena.MachineCodeWriter.Finalise` | inc/arancini/output/dynamic/machine-code-writer.h:58-67 | records the translation at its address with the bytes in memory |
| `CodeArena.MachineCodeWriter.Reset` | inc/arancini/output/dynamic/machine-code-writer.h:69-72 | forgets the current code and leaves finalised translations in place |
| `ChainWindow.ChainWriter.CopyIn` | inc/arancini/output/dynamic/chain.h:11-41 | succeeds exactly when the bytes fit the window, and then the arena differs from before only by the bytes written at the target |
| `ChainWindow.ChainWriter.Finalise` | inc/arancini/output/dynamic/chain.h:37-37 | never leaves the window |
| `ChainWindow.PatchInside` | inc/arancini/output/dynamic/chain.h:29-41 | a patch inside a finalised translation changes that translation at the window only |
| `ChainWindow.PatchKeepsOthers` | inc/arancini/output/dynamic/chain.h:29-41 | and leaves every other translation as it was |
| `CodePatching.PatchCode` | src/runtime/dbt/translation-engine.cpp:160-162 | patching a finalised translation through a window writer changes the arena and the writer's record together, so that translations can be made before and after; it fails, changing nothing, exactly when the code does not fit |
| `CodePatching.PatchKeepsBytes` | inc/arancini/output/dynamic/chain.h:29-41 | after a patch every translation, and the one being written, is in memory as recorded |
| `Relr.DecodeEncode` | src/core/elf/elf-reader.cpp:205-231 | decoding undoes the standard encoding for every strictly increasing list of even addresses |
| `Relr.LeadingIsMost` | src/core/elf/elf-reader.cpp:205-231 | the encoding it inverts puts into each bitmap all the addresses the bitmap has bits for |
| `Relr.DecodeExact` | src/core/elf/elf-reader.cpp:211-227 | an address is in the result exactly when it is an address word or one of the set bits of a bitmap word stands for it |
| `Relr.ParseRelr` | src/core/elf/elf-reader.cpp:205-231 | the nested loops compute the decoding |
| `Relr.PushSetBits` | src/core/elf/elf-reader.cpp:220-225 | the inner loop over one bitmap |
| `Relr.StartsWithAddress` | src/core/elf/elf-reader.cpp:209-219 | a table that starts with an address word does not depend on the uninitialised position |
| `Relr.StartsWithBitmap` | src/core/elf/elf-reader.cpp:209-226 | one that starts with a bitmap does |
| `X87Stack.RunRefines` | src/input/x86/translators/translator.cpp:580-748 | over every run of pushes and pops the registers in use are exactly the values of a stack of at most eight, in order; an overflowing push loses the deepest and leaves the indefinite NaN |
| `X87Stack.InitialDepth` | src/runtime/entry.cpp:310-310 | with the tag word it starts with, the stack is empty |
| `X87Stack.PushThenPop` | src/input/x86/translators/translator.cpp:687-748 | a push with room and then a pop restore TOP, the registers in use and their values |
| `X87Stack.SetTagExact` | src/input/x86/translators/translator.cpp:643-662 | setting one tag leaves the other seven unchanged |
| `X87Stack.MoveTopSlots` | src/input/x86/translators/translator.cpp:664-685 | TOP moves modulo 8: a push renumbers ST(i) to ST(i+1), a pop the reverse |
| `X87Stack.PushTop` | src/input/x86/translators/translator.cpp:687-728 | with room, the new top holds the value, tagged 01 exactly when it is plus or minus zero and 00 otherwise; on overflow it is 0xFFF8000000000000, tagged 10 |
| `X87Stack.PushStatus` | src/input/x86/translators/translator.cpp:730-739 | C1 is set exactly on overflow; TOP moves by one; other status bits are unchanged |
| `X87Stack.PopAt` | src/input/x86/translators/translator.cpp:741-748 | a pop shifts every register up and leaves the old top tagged 11, empty |
| `X87Stack.Unit.TagSet` | src/input/x86/translators/translator.cpp:643-662 | the tag word after clearing and setting one tag |
| `X87Stack.Unit.StackIndexMove` | src/input/x86/translators/translator.cpp:664-685 | moves TOP by one either way, throws otherwise |
| `X87Stack.Unit.FpuPush` | src/input/x86/translators/translator.cpp:687-739 | the actions in order |
| `X87Stack.Unit.FpuPop` | src/input/x86/translators/translator.cpp:741-748 | the actions in order |
| `RepMovs.Terminates` | src/input/x86/translators/rep.cpp:126-222 | the loop ends with RCX as its measure, after seven actions a turn |
| `RepMovs.FinalRegisters` | src/input/x86/translators/rep.cpp:126-222 | RCX is 0 and RDI, RSI have moved by one (MOVSB), two (MOVSW), four (MOVSD) or eight (MOVSQ) times RCX modulo 2^64, up or down as DF says |
| `RepMovs.ForwardCopy` | src/input/x86/translators/rep.cpp:126-222 | with DF clear and disjoint ranges of one, two, four or eight times RCX bytes the destination equals the original source and all other memory is unchanged |
| `RepMovs.TurnsCopy` | src/input/x86/translators/rep.cpp:166-212 | in either direction, if no element is written over a later one, every element ends up copied |
| `RepMovs.Translate` | src/input/x86/translators/rep.cpp:126-222 | the emitted action list, with the exit branch patched to the end label and moves of one, two, four or eight bytes |
| `CondCodes.CondDecides` | src/input/x86/translators/translator.cpp:908-1015 | for every width and all operands each condition decides the comparison it names |
| `CondCodes.NegationIsExact` | src/input/x86/translators/translator.cpp:908-1015 | each n-form is the exact negation |
| `Bitwise.Builder.BitInsert` | inc/arancini/output/dynamic/riscv64/bitwise.h:86-132 | the code emitted, and that with the right mask it replaces exactly the field, of a destination in one register or either half of two, on both paths and touches no other register; throws exactly when the field crosses the two |
| `Bitwise.InsertsExactly` | inc/arancini/output/dynamic/riscv64/bitwise.h:94-122 | the code emitted inserts the field for all register contents exactly when the mask is right |
| `Bitwise.Builder.BitExtract` | inc/arancini/output/dynamic/riscv64/bitwise.h:37-84 | the code emitted, and that with it the field comes out in the low bits on every path, alone for a flag and sign-extended through the register otherwise; throws exactly for other types and register-crossing fields |
| `Bitwise.InsertThenExtract` | inc/arancini/output/dynamic/riscv64/bitwise.h:37-132 | running the code emitted for an insertion and then that for the extraction of the same field gives the inserted bits, sign-extended, and changes no other register in use |
| `Bitwise.PartHolds` | inc/arancini/output/dynamic/riscv64/bitwise.h:62-67 | of a 128-bit value held in two registers, the register and start position used hold the field |
| `Bitwise.MaskInserts` | inc/arancini/output/dynamic/riscv64/bitwise.h:108-112 | the single-mask path is right and its immediates are encodable exactly for fields of at most 11 bits |
| `Bitwise.ShiftsInsert` | inc/arancini/output/dynamic/riscv64/bitwise.h:113-121 | the shift path is right |
| `MovImm.MovImmediate` | src/output/dynamic/arm64/arm64-translation-context.cpp:81-132 | at most four moves leave a value congruent to the immediate modulo 2^width, and equal to it when it fits; there are no more moves than the width and the pattern have 16-bit chunks |
| `MovImm.MovChunks` | src/output/dynamic/arm64/arm64-translation-context.cpp:114-127 | movz and movk build the low chunks whatever the register held |
| `X87Extended.LoadOfStore` | src/input/x86/translators/fpu.cpp:47-60 | storing through the 80-bit path and loading back returns the same 64 bits |
| `X87Extended.StoreOfLoad` | src/input/x86/translators/fpu.cpp:125-158 | the other way exactly sixteen bits are cleared |
| `X87Extended.OneIsNotExtended` | src/input/x86/translators/fpu.cpp:125-158 | the stored form of 1.0 is not the extended-precision one |

## Left out

- Byte-level patching in the RISC-V `chain`: a patch redirects one exit; moving instructions to make room is not modelled.
- The PC field of the CPU state during a chained run: it is stale there, so the guest state compared is the block a thread is in, not that field.
- System calls, signals, TLS, dso setup, mmap and file access: the kernel is an arbitrary function of registers and memory.
- Sharing of operand nodes and lazy materialisation: node values are computed where they are created, and so a memory or register read below a later write of the same place is read early, as the IR says, not when the back end happens to materialise it.
- Partial register accesses: reads and writes in the register cache are of whole registers.
- X86AllocMeaning.AllocationPreservesMeaning: assumes register moves give what they read, that instructions with a pure definition do nothing else, at most one written register an instruction, one definition before every other mention, and each register named at its own width, all of which the x86 translator keeps.
- Arm64AllocMeaning.AllocationPreservesMeaning: assumes register moves give what they read, that instructions with a pure definition that need not be kept do nothing else and at most one pure definition an instruction; whether anything needed is written over is part of the hypothesis. It goes one way for whole lists, because a register may be written over by an equal value; WriteIsSafeExactly is the exact condition for one write.
- Arm64Blocks.BlockAllocation: blocks that define a register more than once or read what they define in one instruction are covered by AllocationPreservesMeaning only; such blocks can be miscompiled. Spilling and branches inside a block are not handled by the code.
- DeadFlagsRight.PassIsRightExactly: the only-if half supposes of the deleted writes that are wanted that no flag write left before them takes the same port of the same operation with no effect in between, because it may have written the same value; a write of a value the flag already holds can be dropped in any case.
- ConstFold.FoldSound: vector nodes are not folded in the model; signed overflow, shifts of negative numbers and left shifts into the sign bit, undefined in C++17, are taken to wrap.
- CodeArena.MachineCodeWriter.CopyIn: requires that the bytes end inside the arena, because the allocator checks only where an allocation starts; after an out-of-memory error the writer must be reset before the next emit.
- Machine-code `shift`, arm64 multi-register bit fields, arm64 ternary atomics and BSF: unfinished in the source.
- Bitwise.Builder.BitInsert: what the host computes for the mask of a field that starts at bit 64 or above is a parameter.
- X87Stack.RunRefines: pushes and pops only; other x87 instructions, underflow and exceptions are not modelled.
- RepMovs.ForwardCopy: the REP STOS and REPE CMPS loops are not modelled.
- CondCodes.CondDecides: what the parity flag holds is left open.
- Instruction decoding and encoding, the LLVM back end, and tools that print.
