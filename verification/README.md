# Verification of the compiler's middle and back end

A Dafny 4.11 model of the parts of the compiler that transform programs, with proofs that they keep
what the programs mean. It follows the program's structure:

- **IR and its use lists** (`Ir`, `UseLists`, `ModuleCores`, `EraseBlocks`): instructions with operand
  slots, and a class whose methods edit a function in place and keep use lists exact.
- **What programs mean** (`Semantics`, `Ssa`, `Typing`, `Rewrites`, `Clearing`, `Trim`, `Divergence`): block-by-block
  runs with values, memory and a trace of what chosen instructions did, for every choice of arguments,
  addresses, callees and undefined results; SSA form and what it guarantees along every run; the two
  rewrites all scalar passes are made of.
- **Graphs** (`Cfg`, `DomTrees`, `DomQueries`): depth-first numbering, the dominator tree construction,
  its queries and frontiers.
- **Passes** (`CfgSimplify`, `BlockMerges`, `MergePass`, `CfgPass`, `Dce`, `Gvn`, `GvnWalk`, `GvnLeaders`,
  `GvnPass`, `GvnTree`, `GvnTwins`, `Simplify`, `Identities`, `Algebraic`).
- **Machine code** (`Sequences`, `Bits`, `CoreInts`, `Machine`, `RegisterUse`, `ParallelCopy`, `EdgeLowering`,
  `Liveness`, `MachineCleanup`, `LowerArith`, `LowerConsts`, `LowerBinary`, `LowerICmp`, `LowerCasts`): RV32 and RV64
  instructions with the meanings of the RISC-V Unprivileged ISA (20191213, sections 2.4, 5.2, 7.1 and 7.2), and the lowerings
  that emit them.
- **Layout** (`Layouts`, `LayoutPaths`, `ConstBytes`, `Gep`, `GepLowering`): sizes and offsets of nested
  types, byte images of constants, address arithmetic.
- **Expression parser** (`ParserSpec`, `ParserSound`, `ParserLevels`, `ParserIds`, `Parser`): precedence climbing
  with backtracking.

Classes and loops stand where the program has them; each method is proved equal to a function or a
relation, and the theorems are about that. Hash maps and sets are iterated in an arbitrary order, so
results hold for every order. `dafny verify dfyconfig.toml` checks the whole project.

## Where the code falls short of what it is for

Each of these is a property the code does not have on all inputs, with the exact condition under which
it has it.

- A block's parent in the dominator tree need not dominate it: the climb returns the root of a set and
  never the best label on the way (src/ir/cfg.rs:123-142). `DomQueries.ParentNeedNotDominate` gives a
  function, `DomQueries.ParentDominatesExactly` the condition block by block and
  `DomQueries.TreeExactly` the one for the whole tree; `GvnTree.WalkableExactly` says it is the one
  under which value numbering may trust the tree, and `GvnTwins.TwinsDiffer` gives a function on which
  it then takes two different values for one.
- A zero divided, or shifted, by an unknown amount is simplified to zero although the operation may be
  undefined (src/ir/opt/algebraic.rs:120-183). It is right exactly when the divisor is not zero or the
  amount is below the width: `Simplify.ZeroNumeratorExactly`, at one input `Simplify.ZeroByZero`, for
  whole runs `Algebraic.FuncAlgebraicSimplification`.
- A constant that does not fit 32 bits is cut to 32 bits when loaded on RV64
  (src/mir/lower.rs:1429): `LowerBinary.ConstantLoadedExactly`, `LowerBinary.ConstantLosesBits`.
- Unsigned division and remainder by a constant with its top bit set load the constant sign-extended and
  do not mask it, which is wrong at every width but 32 and the register's own
  (src/mir/lower.rs:1475-1541): `LowerBinary.LowerByConst` has the exact condition,
  `LowerBinary.NarrowDivisionFails` an input.
- A shift of a 32-bit value by a constant from 32 to 63 passes the limit for immediates on RV64, and the W
  form picked for it has no encoding for that amount (src/mir/lower.rs:1430, 1548); folding it is undefined.
  `LowerBinary.LowerByConst` and `LowerBinary.LowerBinaryInst` have the exact condition,
  `LowerBinary.FarShiftNotEncodable` an input.
- On RV64 the results of 32-bit arithmetic are taken to be sign-extended (src/mir/lower.rs:343-393), but
  negating the least 32-bit number in 64 bits, as multiplication and division by negative constants do,
  leaves one that is not: `LowerICmp.ArithmeticTrustedExactly` has the exact condition,
  `LowerICmp.NegationMiscompared` a comparison that goes wrong.

## Model

| member | source | states |
|---|---|---|
| `ParallelCopy.ResolveParallelCopy` | src/mir/lower.rs:184-257 | Whatever order the sources are taken in, the emitted moves give every destination its source's initial value, leave every other register but the fresh ones and all memory alone, and use exactly one temporary for each cycle of moves: none when there is no cycle. |
| `ParallelCopy.ScheduleIsSimultaneous` | src/mir/lower.rs:184-204 | Running first, middle and last in that order is the simultaneous assignment, for every schedule the search can produce. |
| `ParallelCopy.CycleNeedsTemporary` | src/mir/lower.rs:205-250 | Direct moves cannot complete a cycle: every cycle has a member that is written from a temporary. |
| `ParallelCopy.SearchComplete` | src/mir/lower.rs:184-257 | When every source has been visited the invariant of the search gives a complete schedule that cuts each cycle once. |
| `Machine.UseDefSound` | src/mir/rv64i.rs:197-400 | An instruction writes only the registers its def list names, and what it does is decided by the registers its use list names and by memory. |
| `RegisterUse.UsesExactly` | src/mir/rv64i.rs:197-400 | The registers an instruction depends on are exactly those in its use list, on both targets: for each of them two states that differ in it alone show it in memory, in a register written or in the branch taken. The exceptions are listed by instruction: results thrown away, equal sources that cancel, operands a zero decides, and the convention registers of a return. |
| `RegisterUse.SuccessorsExactly` | src/mir/rv64i.rs:197-400 | An instruction's successors are exactly the blocks control jumps to from some state, but for branches that compare a register with itself or with zero and never succeed. |
| `MachineCleanup.PeepholeOptimize` | src/mir/opt/peephole.rs:4-15 | Filters every block in place to its instructions that are not self-moves; no move of a register to itself is left. |
| `MachineCleanup.PeepholePreservesRuns` | src/mir/opt/peephole.rs:4-15 | Without the self-moves the function runs from every block and every state to the same place and state, in any number of steps. |
| `MachineCleanup.OptimizeFallthroughs` | src/mir/opt/fallthrough.rs:4-21 | Pops the last instruction of exactly the blocks that end in a jump to the next block in layout order, the plain jump to the next block's id among them. |
| `MachineCleanup.CleanupPreservesRuns` | src/mir/opt/fallthrough.rs:4-21 | Both clean-ups, in the order they are applied, preserve every run when block ids are distinct, although ends of blocks have become fall-throughs. |
| `EdgeLowering.LowerBranch` | src/mir/lower.rs:1808-1932 | Fails exactly when a phi operand on an edge has no register. Otherwise each edge is a simultaneous assignment of the phis followed by the jump: before the jump for an unconditional branch, in a transit block appended for it otherwise; ids stay equal to indices. Every instruction emitted, in the block and in those appended, can be encoded: immediates in 12 bits, shift amounts below the register width or below 32 in W forms, W forms on RV64 only. |
| `EdgeLowering.LaterBlocks` | src/mir/lower.rs:1808-1932 | What lowering a branch promised of its code and its transit blocks stays true of every later function: blocks may be appended, and those from before the branch's transit blocks may change. |
| `EdgeLowering.BranchRuns` | src/mir/lower.rs:1808-1932 | In the finished function, with whatever straight-line code in front of the branch and whatever blocks lowered after it, one or two block steps bring control to the successor the condition selects, with each of its phis that has an entry for the block holding the value that entry's operand had when the branch was reached, and nothing else changed. |
| `EdgeLowering.LowerParallelCopy` | src/mir/lower.rs:259-277 | Materialising the operands of the copies first and resolving the moves then assigns all destinations at once from the state before. Every instruction emitted can be encoded. |
| `EdgeLowering.FusedConditionIsFolded` | src/mir/lower.rs:890-928 | A comparison fused into a branch decides as constant folding would, at every width the register holds. |
| `Liveness.LivenessAnalysis` | src/mir/lower.rs:2360-2402 | The loop ends, solves the equations, and r is live into b exactly when some path from b uses r before defining it. |
| `Liveness.Sweep` | src/mir/lower.rs:2360-2381 | One sweep that changes something records a fact that was missing; one that changes nothing has found a solution. |
| `Liveness.BlockUsesExact` | src/mir.rs:621-649 | r is in a block's use set exactly when some instruction uses it and no earlier one defines it. |
| `Liveness.BackwardFoldIsTransfer` | src/mir.rs:650-666 | Folding the instructions backwards from live-out lands exactly on the block's transfer function. |
| `Liveness.LivenessInfo.ComputeLiveAfter` | src/mir.rs:650-666 | Records after every instruction of every block exactly what the rest of the block and its live-out make live. |
| `Liveness.DeadRegistersDoNotMatter` | src/mir/lower.rs:2360-2402 | Two runs from states that agree on what is live into a block visit the same blocks, and agree on memory and on everything live into the block they have come to, in any number of steps. |
| `CoreInts.FoldWraps` | src/ir/core_int.rs:104-200 | Wrapping through 64 bits and masking then is exact arithmetic modulo 2^width, for every width up to 64. |
| `CoreInts.SignExtendKeepsValue` | src/ir/core_int.rs:79-96 | Sign extension keeps the two's complement value, and truncating gives the pattern back. |
| `CoreInts.ZeroExtendKeepsValue` | src/ir/core_int.rs:71-78 | Zero extension keeps the unsigned value, and truncating gives the pattern back. |
| `CoreInts.FoldCommutes` | src/ir/core_int.rs:104-200 | The operators treated as commutative fold alike in both orders, defined or not. |
| `CoreInts.FoldDefined` | src/ir/opt/algebraic.rs:422-448 | Folding gives a result exactly when a divisor is not zero and the quotient does not overflow 64 bits, and when a shift amount is below the width. |
| `LowerArith.MachineFormExact` | src/mir/rv64i.rs:197-400 | Every register-register form, at either of its widths, computes its operator in that many low bits, whatever the bits above hold, on both targets. |
| `LowerArith.FoldIsValue` | src/ir/opt/algebraic.rs:422-448 | Where folding is defined at any width, it gives the low bits of what the operator of a machine form gives on registers that hold the integers the way the form needs. |
| `LowerConsts.EmitMulConst` | src/mir/lower.rs:432-474 | Zeroing, copying, shifting and negating stand for multiplication by 0, by 1 and by positive and negative powers of two, at the width of the form and for no other constant; on RV64 a 32-bit result is, in 64 bits, the named number before wrapping. Every instruction emitted can be encoded. |
| `LowerConsts.EmitUdivConst` | src/mir/lower.rs:475-500 | Exactly for powers of two a shift replaces unsigned division, at both widths; on RV64 a sign-extended register stays one. Every instruction emitted can be encoded. |
| `LowerConsts.EmitUremConst` | src/mir/lower.rs:501-522 | Exactly for powers of two a mask replaces unsigned remainder, at both widths; on RV64 a sign-extended register stays one. Every instruction emitted can be encoded. |
| `LowerConsts.EmitSdivConst` | src/mir/lower.rs:523-574 | The bias-and-shift sequence gives the quotient rounded toward zero for every operand of every width in a sign-extended register, and every constant it accepts; on RV64 a 32-bit quotient is the mathematical one in 64 bits. Every instruction emitted can be encoded. |
| `LowerConsts.EmitSremConst` | src/mir/lower.rs:575-619 | Quotient, product and difference give the remainder with the dividend's sign, for the same operands and constants; on RV64 the 32-bit result is the dividend less the product wrapped to 32 bits. Every instruction emitted can be encoded. |
| `LowerConsts.BiasedShift` | src/mir/lower.rs:541-570 | Adding 2^s - 1 to negative dividends only turns the flooring shift into division rounding toward zero. |
| `LowerArith.EmitMaskedValue` | src/mir/lower.rs:279-305 | The fresh register holds the zero-extended low bits of the source; at register width nothing is emitted. |
| `LowerArith.EmitSignExtendedValue` | src/mir/lower.rs:307-323 | The fresh register holds the sign-extended low bits of the source; at register width nothing is emitted. |
| `LowerBinary.LowerBinaryInst` | src/mir/lower.rs:1376-1694 | Fails exactly on an operand without a register. Otherwise, at every width from 1 to the register's, and for every state in which folding the operands is defined, the code leaves the folded pattern in the low bits of rd and no other allocated register or memory changed, whichever of the register, immediate or constant forms was picked, unless a constant unsigned divisor is one of those `LowerByConst` excludes. On RV64 a 32-bit operator other than and, or and exclusive or, on a sign-extended left operand, leaves rd sign-extended exactly when a constant on the right does not overflow on it. Every instruction emitted can be encoded if and only if this is not a shift of 32 bits by a constant 32 to 63 on RV64. |
| `LowerBinary.LowerByConst` | src/mir/lower.rs:1402-1590 | A specialised form for a constant operand agrees with folding if and only if the operator is no unsigned division or remainder, or the constant reads as non-negative, or the width is 32 or the register's own (there but for the least 32-bit number); otherwise nothing is emitted. What is emitted can be encoded if and only if it is not a W shift by 32 to 63. |
| `LowerBinary.NarrowDivisionFails` | src/mir/lower.rs:1475-1508 | Eight bits, 200 divided by the constant 200: the divisor is loaded as -56 and never masked, and the quotient comes out 0 instead of 1. |
| `LowerBinary.FarShiftNotEncodable` | src/mir/lower.rs:1548-1553 | A 32-bit value shifted left by the constant 40 becomes slliw by 40, which has no encoding. |
| `LowerBinary.ConstantDenotes` | src/mir/lower.rs:1420-1432 | A constant of up to 32 bits is what the low bits of its register read as. |
| `LowerBinary.ConstantLoadedExactly` | src/mir/lower.rs:1420-1432 | A constant reaches its register unchanged if and only if the target is 32 bits wide or the constant fits the 32-bit immediate it is cut down to. |
| `LowerBinary.ConstantLosesBits` | src/mir/lower.rs:1420-1432 | The 64-bit constant 2^31 is loaded as 2^64 - 2^31. |
| `LowerICmp.LowerIcmpValue` | src/mir/lower.rs:2151-2169 | A comparison lowered to a value leaves exactly the bit folding gives, on operands that deserve the trust put in them. Every instruction emitted can be encoded. |
| `LowerICmp.NormalisedComparison` | src/mir/lower.rs:830-965 | Comparing normalised registers is comparing the compile-time integers, for all ten codes and every width but signed comparisons of one bit. |
| `LowerICmp.ConstantsAreTrusted` | src/mir/lower.rs:343-393 | Constants of 2 to 32 bits are loaded sign-extended, so skipping their extension is right. |
| `LowerICmp.ArithmeticTrustedExactly` | src/mir/lower.rs:343-393 | A 32-bit arithmetic result of a trusted left operand deserves the trust put in it on RV64 if and only if it is not one of the negations of the least 32-bit number: a product with a negative power of two, a quotient by -1, a remainder by a negative power of two. |
| `LowerICmp.NegationMiscompared` | src/mir/lower.rs:343-393 | The least 32-bit number times -1, compared with zero on RV64: folding says it is smaller, the code says it is not. |
| `LowerCasts.LowerCast` | src/mir/lower.rs:2249-2306 | Truncating, zero-extending and sign-extending leave what folding the cast gives in the low bits of rd, for every operand and every pair of widths a register holds; sign extensions from up to 32 bits leave it sign-extended on RV64. Every instruction emitted can be encoded. |
| `LowerCasts.ExtensionFolds` | src/mir/lower.rs:2249-2306 | Extending in a register is extending at compile time. |
| `LowerCasts.PhisKeepTrust` | src/mir/lower.rs:343-393 | After an edge a phi deserves the trust exactly when the operand it took there did before. |
| `Ir.ReplaceOperandExact` | src/ir/core_inst.rs:248-283 | Replacing an operand slot changes that slot's value and no other slot, block operand or part of the instruction. |
| `Ir.SubstExact` | src/ir/core.rs:913-921 | Substituting a value changes exactly the slots that held it. |
| `ModuleCores.ModuleCore.NewInst` | src/ir/core.rs:561-580 | Adds an unattached instruction under a fresh number; use lists stay exact. |
| `ModuleCores.ModuleCore.AppendBlock` | src/ir/core.rs:581-597 | Adds an empty block at the end of the order; use lists stay exact. |
| `ModuleCores.ModuleCore.AppendInst` | src/ir/core.rs:609-616 | Attaches at the end of the block's instructions and registers every operand: the whole new body is the old one with the instruction in it. |
| `ModuleCores.ModuleCore.PushFrontInst` | src/ir/core.rs:617-625 | The same at the front of the block's instructions. |
| `ModuleCores.ModuleCore.AppendPhi` | src/ir/core.rs:675-682 | The same at the end of the block's phis. |
| `ModuleCores.ModuleCore.SetTerminator` | src/ir/core.rs:683-694 | The same as the terminator of a block that has none. |
| `ModuleCores.ModuleCore.AppendToBlock` | src/ir/core.rs:695-731 | Puts the instruction where its kind belongs. |
| `ModuleCores.ModuleCore.InsertBefore` | src/ir/core.rs:626-651 | The instruction lands directly in front of the anchor, in the anchor's list, or last of the instructions in front of a terminator. |
| `ModuleCores.ModuleCore.InsertAfter` | src/ir/core.rs:652-674 | The instruction lands directly behind the anchor, in the anchor's list. |
| `ModuleCores.ModuleCore.LocateInst` | src/ir/core.rs:303-318 | The position found is one at which the block lists the instruction, looking through instructions, phis and terminator in that order. |
| `ModuleCores.ModuleCore.DetachInst` | src/ir/core.rs:732-751 | Takes the instruction out of its block and every one of its uses off the lists. |
| `UseLists.DetachUndoesAttach` | src/ir/core.rs:609-751 | Detaching an instruction undoes attaching it, in whichever list and place it went: the body is the one before. |
| `ModuleCores.ModuleCore.EraseInstFromParent` | src/ir/core.rs:763-774 | Removes an unused instruction altogether. |
| `ModuleCores.ModuleCore.EraseInstFromParentForcely` | src/ir/core.rs:752-762 | Every operand that named the instruction becomes a fresh undefined constant of the instruction's type, nothing else changes, and the instruction is removed. |
| `ModuleCores.ModuleCore.ReplaceInstOperand` | src/ir/core.rs:899-912 | Replaces one operand and moves exactly that use from the old value's list to the new one's. |
| `ModuleCores.ModuleCore.ReplaceBlockOperandOf` | src/ir/core.rs:931-951 | The same for a block operand. |
| `ModuleCores.ModuleCore.ReplaceAllUsesWith` | src/ir/core.rs:913-921 | Substitutes the new value for the old in every operand of the function, leaves the old one's list empty and changes nothing else. |
| `ModuleCores.ModuleCore.ReplaceAllBlockUsesWith` | src/ir/core.rs:922-930 | The same for blocks. |
| `ModuleCores.ModuleCore.PhiAddIncoming` | src/ir/core.rs:952-975 | Adds one entry under the phi's next index and registers its value and its block. |
| `ModuleCores.ModuleCore.PhiRemoveIncomingFrom` | src/ir/core.rs:976-996 | Removes one entry, and one use of its value and of its block. |
| `EraseBlocks.EraseBlocksFromParent` | src/ir/core.rs:775-809 | Erases the instructions of the blocks forcibly, drops their phi entries and removes them; when no remaining branch leads into them it never meets a block that is still used. |
| `Cfg.BuildCfg` | src/ir/cfg.rs:256-293 | The graph has the function's blocks and exactly its edges, both ways round. |
| `Cfg.BuildDfn` | src/ir/cfg.rs:60-101 | A complete depth-first numbering: subtrees are intervals, parents come first, and no edge leaves a subtree to the right. |
| `Cfg.NumberedExactlyReachable` | src/ir/cfg.rs:60-101 | The search numbers exactly the blocks reachable from the entry. |
| `DomTrees.BuildDomTree` | src/ir/cfg.rs:103-201 | The path-compressing construction ends and gives each block the lowest number its predecessors climb to; the last pass finds nothing to do; the children map inverts the parents. |
| `DomTrees.Find` | src/ir/cfg.rs:123-142 | Finds the set's root and compresses the path; the forest keeps standing for the same climbs. |
| `DomQueries.BodyDomTree` | src/ir/cfg.rs:103-201 | The tree spans exactly the reachable blocks with numbers falling to the root; every true dominator is above its block; a block's parent dominates it if and only if no side entry into the parent's subtree reaches it; the tree is the dominator tree if and only if every edge leaves from at or below its target's parent. |
| `DomQueries.AncestorDominatesExactly` | src/ir/cfg.rs:103-201 | In any depth-first tree an ancestor dominates a block if and only if nothing strictly inside its subtree from which the block is reached inside can be entered from outside the subtree. |
| `DomQueries.ParentDominatesExactly` | src/ir/cfg.rs:103-201 | The same for the parent the construction picks: a condition on the search tree that can be looked at beforehand. |
| `DomQueries.TreeExactly` | src/ir/cfg.rs:103-201 | For the whole tree: it answers every dominance question rightly if and only if every edge leaves from at or below its target's parent, if and only if every parent dominates its children. |
| `DomQueries.ParentNeedNotDominate` | src/ir/cfg.rs:123-142 | A well-formed body with four blocks in which block 2 gets the parent 1, which does not dominate it. |
| `DomQueries.QueryDominates` | src/ir/cfg.rs:234-253 | Answers yes exactly when the first block is above the second in the tree, and ends. |
| `DomQueries.BuildDomFrontier` | src/ir/cfg.rs:203-233 | A join block is in exactly the frontiers of what is above one of its predecessors past its own parent. |
| `DomQueries.FrontierIsDominanceFrontier` | src/ir/cfg.rs:203-233 | Where the tree is the dominator tree that is the dominance frontier: a block dominates a predecessor of y and does not strictly dominate y. |
| `Ssa.EquationsInside` | src/ir/opt/global_gvn.rs:65-183 | In every run of an SSA body, loops included, and in front of every instruction of every block the run enters, each pure instruction that dominates the place still equals its operator on the current values of its operands. |
| `Rewrites.SubstLockstep` | src/ir/core.rs:913-921 | Exchanging an instruction for a value it always equals changes no run. |
| `Clearing.ClearedLockstep` | src/ir/core.rs:763-774 | Dropping effect-free instructions nobody reads changes nothing the others do in any run. |
| `Trim.TrimmedLockstep` | src/ir/opt/cfg_simpilfy.rs:26-98 | Removing unreachable blocks and phi entries for edges control cannot take changes no run. |
| `CfgSimplify.UselessPhiElimination` | src/ir/opt/cfg_simpilfy.rs:26-71 | Afterwards phis have entries for real predecessors only and never exactly one; only phis are erased, and no run of anything else changes. |
| `CfgSimplify.DeadBlockElimination` | src/ir/opt/cfg_simpilfy.rs:73-98 | Keeps exactly the blocks reachable from the entry, with no operand or block reference dangling, phis within their real predecessors, terminators and the edges out of the kept blocks as they were, and every run preserved. |
| `BlockMerges.MergeBehaves` | src/ir/opt/cfg_simpilfy.rs:100-163 | One merge cannot be observed: whatever either body has done at some point of a run, the other does too, phi choices included. |
| `BlockMerges.MergedSSA` | src/ir/opt/cfg_simpilfy.rs:100-163 | The merged body is in SSA form again. |
| `MergePass.MergeInto` | src/ir/opt/cfg_simpilfy.rs:138-157 | Moving instruction by instruction, erasing the jump, moving the terminator and redirecting the block's uses gives exactly the merged body. |
| `MergePass.Mergeable` | src/ir/opt/cfg_simpilfy.rs:121-137 | A jump to a block with one predecessor can be merged, and the check that the block has no phis passes, at every turn of the worklist, as long as no such block is the entry or lacks a terminator; each merge keeps that. |
| `MergePass.BlockMerge` | src/ir/opt/cfg_simpilfy.rs:100-163 | The revisiting worklist ends; afterwards no block jumps to one that has no other predecessor, only jumps and one-entry phis are gone, and the function can be seen to do exactly what it did. |
| `CfgPass.FuncCfgSimplify` | src/ir/opt/cfg_simpilfy.rs:16-24 | Both passes in order: only reachable blocks remain, nothing is left to merge, only phis, plain jumps and unreachable code are erased, and every run can be seen to do what it did. |
| `Dce.FuncDeadCodeElimination` | src/ir/opt/dce.rs:28-61 | Keeps exactly the instructions in the least set that holds every store, call and terminator and is closed under operands, and those do the same things with the same values in every run; SSA form survives. |
| `Dce.MarkLive` | src/ir/opt/dce.rs:28-61 | The marked set is the least one that holds the always-live instructions and is closed under operands. |
| `Dce.RemoveDeadInstructions` | src/ir/opt/dce.rs:63-113 | Erasing the rest one by one, forcibly, never gives a surviving instruction an undefined operand. |
| `Gvn.KeyDenotes` | src/ir/opt/global_gvn.rs:65-221 | A key stands for the value its instruction computes, reordered commutative operands included. |
| `Gvn.KeyedExactly` | src/ir/opt/global_gvn.rs:65-183 | Exactly the pure instructions other than allocations take part in value numbering. |
| `Gvn.SameKeyExactly` | src/ir/opt/global_gvn.rs:185-221 | Under distinct debug texts, two pure instructions get the same key if and only if they compute the same: the same operator and type on the same operands (one value, or constants equal in width and number, both null, or undefined of one type), in either order for add, mul, and, or, xor and the comparisons eq and ne. |
| `GvnPass.GvnDomWalk` | src/ir/opt/global_gvn.rs:65-183 | The list to be removed is the list of replaced instructions, all of blocks under the node; the body becomes the old one with the pairs substituted in order; each replacement comes before what it replaces on every way and always has the same value; and, where no block under one child dominates one under another, each replaced instruction has the key of one that stays and no instruction that stays has the key of one that stays before it, so that none of them computes the same as an earlier one when debug texts are distinct. |
| `GvnPass.FuncGlobalGvn` | src/ir/opt/global_gvn.rs:38-63 | On a tree in which parents dominate children the final body is the one with the reported pairs substituted in order, less replaced instructions; each of those held its replacement's value at every instruction of every block any run enters after it; what remains behaves as before on every run. Where no block under one child dominates one under another, exactly the replaced instructions are gone, each has the key of one that stays, and two instructions of one key, one before the other, never both stay; with distinct debug texts no two remaining pure instructions compute the same, one before the other. |
| `GvnTree.WalkableExactly` | src/ir/opt/global_gvn.rs:38-63 | The constructed tree is one the walk may use if and only if every edge of the graph leaves from at or below its target's parent. |
| `GvnTree.OptGlobalGvn` | src/ir/opt/global_gvn.rs:38-63 | All of this, without a further condition, for the pass with its own graph and tree over all reachable blocks, on functions whose trees meet that condition: no reachable pure instruction that remains computes the same as one before it. |
| `GvnTwins.TwinsDiffer` | src/ir/opt/global_gvn.rs:38-63 | Without the condition: a body in SSA form on whose constructed tree the walk meets an instruction below another with the same key that does not always have its value. |
| `Simplify.BinaryExactly` | src/ir/opt/algebraic.rs:79-183 | What a binary instruction is replaced by, at any width from 1 to 64 and in any environment, has its value whatever undefined operations yield, if and only if it is not a division of zero by zero or a shift of zero by its width or more. |
| `Simplify.ZeroNumeratorExactly` | src/ir/opt/algebraic.rs:120-183 | Zero divided by or shifted by an unknown value is always replaced by zero, and that is right whatever undefined operations yield if and only if the divisor is not zero, or the amount is below the width. |
| `Simplify.ZeroByZero` | src/ir/opt/algebraic.rs:120-183 | An unsigned zero divided by an argument that is zero: replaced by zero, while the RISC-V divider gives all ones. |
| `Simplify.ICmpDenotes` | src/ir/opt/algebraic.rs:210-247 | Whatever a comparison is replaced by has its value. |
| `Simplify.SelectDenotes` | src/ir/opt/algebraic.rs:249-268 | Whatever a selection is replaced by has its value. |
| `Simplify.CastDenotes` | src/ir/opt/algebraic.rs:281-327 | Whatever a cast is replaced by has its value. |
| `Identities.ConstantsFold` | src/ir/opt/algebraic.rs:79-91 | A binary operation on two constants is never left alone when its fold is defined. |
| `Identities.RightIdentities` | src/ir/opt/algebraic.rs:79-183 | What may not be missed with a constant on the right: x + 0, x - 0, x | 0, x ^ 0, x << 0, x >> 0, x * 1, x / 1 and x & ones become x; x * 0, x & 0 and x % 1 become 0; x | ones becomes ones. |
| `Identities.LeftIdentities` | src/ir/opt/algebraic.rs:79-183 | The same with the constant on the left, and zero divided or shifted. |
| `Identities.SelfIdentities` | src/ir/opt/algebraic.rs:79-247 | x & x and x | x become x, x - x and x ^ x become 0, and a comparison of x with itself becomes its answer. |
| `Identities.OthersFold` | src/ir/opt/algebraic.rs:210-327 | Comparisons and casts of constants, selections by a constant and between equal values are never left alone. |
| `Identities.UniformPhis` | src/ir/opt/algebraic.rs:270-279 | A phi all of whose entries name one value becomes that value, and null as an integer becomes zero. |
| `Algebraic.FuncAlgebraicSimplification` | src/ir/opt/algebraic.rs:18-46 | The worklist ends because each success erases one instruction; then nothing can be simplified any more; types and SSA form are kept; and in every well-typed world what remains does the same, block by block, in every run as far as it divides no zero by zero and shifts none by its width or more. |
| `Divergence.SafeRunAlike` | src/ir/opt/algebraic.rs:18-46 | A run that does none of these is the same run in any world that differs only in what they yield. |
| `Typing.SsaKnown` | src/ir/opt/algebraic.rs:18-77 | In every run of a well-typed SSA body each instruction that has its value has one of its type. |
| `Layouts.TypeLayoutEngine.ClearCache` | src/ir/layout.rs:176-178 | Forgets every answer, and the cache stays right. |
| `Layouts.TypeLayoutEngine.Query` | src/ir/layout.rs:184-192 | The cached answer is the uncached one for every type, and the cache stays right. Exactly the types without functions, labels and bodiless structs inside have one; an integer takes the fewest bytes that hold its bits and is aligned to the power of two at or above that, up to 8; a pointer takes what the target says, and void nothing. |
| `Layouts.TypeLayoutEngine.ComputeStructLayout` | src/ir/layout.rs:297-334 | The loop over the fields gives each the next offset of its alignment (or the next byte when packed), and the error of the first field that has none. |
| `Layouts.SizedExactly` | src/ir/layout.rs:257-296 | A type has a layout if and only if nothing in it is a function, a label or a struct without a body. |
| `LayoutPaths.FieldTight` | src/ir/layout.rs:297-334 | Each field starts at the first multiple of its alignment at or after the end of the field before it, or right there in a packed struct. |
| `LayoutPaths.StructTight` | src/ir/layout.rs:297-334 | A struct ends at the first multiple of its alignment at or after its last field, and its alignment is the greatest of its fields', or 1; a packed struct ends with its last field and is aligned to 1. |
| `LayoutPaths.PartInBounds` | src/ir/layout.rs:257-334 | Every part, at any depth, lies within its type. |
| `LayoutPaths.PartsInOrder` | src/ir/layout.rs:257-334 | Parts come in the order of their paths. |
| `LayoutPaths.PartsDisjoint` | src/ir/layout.rs:257-334 | Two parts neither of which contains the other share no byte. |
| `LayoutPaths.PartAligned` | src/ir/layout.rs:257-334 | From an aligned base every part not inside a packed struct is aligned. |
| `LayoutPaths.IntegersAligned` | src/ir/layout.rs:257-357 | From a base that is a multiple of 8, every 8-, 16-, 32- or 64-bit integer reached without passing a packed struct starts at a multiple of 1, 2, 4 or 8. |
| `ConstBytes.LowerConstData` | src/mir/lower.rs:2437-2488 | Gives the image of the constant, or the layout's error; the checks on overlong elements, early fields and overflowing structs never fire. |
| `ConstBytes.LowerConstant` | src/mir/lower.rs:2414-2436 | The bytes of a global are its initialiser's or zeros, exactly as many as its type has. |
| `ConstBytes.ImageSize` | src/mir/lower.rs:2437-2488 | The image of a well-formed constant is exactly as long as its type is big. |
| `ConstBytes.PartImage` | src/mir/lower.rs:2437-2488 | Cutting the image at the offset of any path gives the image of the constant there. |
| `ConstBytes.LeafRoundTrip` | src/mir/lower.rs:2437-2488 | Reading little-endian at the offset of any path to an integer gives that integer back; its bytes are its sign extension. |
| `ConstBytes.PaddingIsZero` | src/mir/lower.rs:2437-2488 | Every byte of an image that is not zero belongs to an integer at some path: padding, what follows a string and everything null is zero. |
| `Gep.EmitAddOffset` | src/mir/lower.rs:750-828 | Leaves base plus stride times index modulo the register width, for constant indices, register indices and the fused form that zero-extends and scales a 32-bit index with two shifts. Every instruction emitted can be encoded. |
| `Gep.FusedShift` | src/mir/lower.rs:786-815 | Shifting up by 32 and down by 32 - s is zero-extending the low half and multiplying by 2^s. |
| `GepLowering.LowerGep` | src/mir/lower.rs:1934-2030 | Refused only for a reason the caller could see. Otherwise the code leaves in rd, modulo 2^XLEN, the base plus the displacements of the indices; and whenever the index values name a part of the type that is base plus stride times the first index plus the layout's own offset of the part. Nothing else allocated changes. Every instruction emitted can be encoded. |
| `GepLowering.GepIsPathOffset` | src/mir/lower.rs:1950-2020 | The displacement added index by index is the layout's offset of the part the indices name. |
| `GepLowering.TypeAtExactly` | src/mir/lower.rs:1950-2020 | Which index lists are followed: any index into an array, and into a struct with a body a constant below the number of its fields. |
| `Parser.TokenIter.Next` | src/lexer.rs:187-199 | Gives the current token and steps past it, or nothing at the end. |
| `Parser.EatWithConfig` | src/ast/expr.rs:142-243 | Precedence climbing over the cloned and updated iterator reads exactly what the grammar's parsing function reads, and fails where that fails. |
| `Parser.Eat` | src/ast.rs:41-49 | Commit or restore: on success position and numbering are those after the expression, on failure those before; what is read is an expression grouped as the priorities demand and spelled by the tokens consumed, and the next token does not continue it. |
| `Parser.EatPrinted` | src/ast/expr.rs:142-243 | Reading the tokens of any well-grouped tree, followed by a token that does not continue it, gives the tree back, stops at that token, and numbers its nodes with each fresh number exactly once. |
| `ParserSpec.ReadsWhole` | src/ast/expr.rs:142-243 | The round trip at every priority and every place in the input. |
| `ParserSound.ExprSound` | src/ast/expr.rs:142-243 | The converse at every priority: whatever is accepted is well grouped, its tokens are the ones read, commas in front of a closing parenthesis apart, and reading stops at a token that cannot continue it. |
| `ParserLevels.InfixPairs` | src/ast/expr.rs:539-551 | For all atoms a, b, c and infix operators p, q, listed level by level from assignment over `||`, `&&`, comparisons, `|`, `^`, `&`, shifts and sums to products: `a p b q c` is read as `a p (b q c)` exactly when q stands on a tighter level than p, and as `(a p b) q c` otherwise. |
| `ParserLevels.CastsBindTighter` | src/ast/expr.rs:142-243 | A cast takes its operand before any infix operator on either side. |
| `ParserLevels.PrefixesBindTighter` | src/ast/expr.rs:142-243 | A prefix operator takes its operand before any infix operator on either side. |
| `ParserLevels.PrefixesAndCasts` | src/ast/expr.rs:142-243 | A prefix operator takes its operand before a cast does, prefix operators nest, casts chain. |
| `ParserLevels.ClosingComma` | src/ast/expr.rs:751-830 | A list of any length may be closed with a comma; it makes a tuple of one element and changes nothing otherwise. |
| `ParserIds.ExprNumbered` | src/lexer.rs:221-226 | The node numbers of a parsed expression are exactly those handed out for it, each once, although failed attempts were taken back. |

## Left out

- Dce.FuncDeadCodeElimination: every instruction must sit in a block. The operands of one that sits in none are on no use list, so erasing it after one of them fails in the program (src/ir/core.rs:825-842), depending on the order of the arena.
- CfgPass.FuncCfgSimplify: terminators have no users, and no block that is to be merged into its only predecessor is the entry or lacks a terminator; with such a block the program would erase the entry, or erase one jump twice (src/ir/opt/cfg_simpilfy.rs:134-157). What it does then is not modelled.
- MergePass.BlockMerge: the same.
- GvnTree.OptGlobalGvn: only for functions whose trees meet the condition of GvnTree.WalkableExactly, for every order the search may take.
- Gvn.SameKeyExactly: two values never have one debug text, and two undefined operands of one instruction have one type; otherwise unrelated keys could be compared as equal.
- GvnPass.FuncGlobalGvn: the same where computations rather than keys are spoken of.
- ParserSound.ExprSound: a comma in front of a closing parenthesis is not counted among the tokens; `ParserLevels.ClosingComma` says what it does.
- Algebraic.FuncAlgebraicSimplification: all code is reachable and attached, no operand is an undefined constant (the compiler's folds assert equal widths on them), and phis agreeing on themselves do not occur. Folding a load from a constant global is not modelled; nor are loads simplified.
- LowerICmp.LowerIcmpValue: widths up to the register width, and signed comparisons of one bit are excluded, since a one-bit pattern reads as 1 at compile time and as -1 in a register.
- LowerBinary.LowerBinaryInst: integers wider than a register are not modelled, and nothing is said of a constant unsigned divisor that `LowerBinary.LowerByConst` shows to be wrong.
- LowerCasts.LowerCast: casts to or from integers wider than a register, and between pointers and integers, are not modelled.
- LowerICmp.ArithmeticTrustedExactly: the left operand is sign-extended itself, which a truncated one, left zero-extended, need not be. The trust in loads, calls and arguments rests on the load instruction and the calling convention, which are not part of this model.
- Gep.EmitAddOffset: strides and constant offsets below 2^31, where the compiler's own checked multiplication does not panic.
- GepLowering.LowerGep: the same for every stride and field offset on the way.
- Layouts.TypeLayoutEngine.Query: sizes are unbounded numbers, so the overflow of the 32-bit size type is not modelled; recursive struct types have no values here.
- Parser.EatWithConfig: the same kinds of expression as Parser.EatPrinted.
- Parser.EatPrinted: no `<` (generic arguments share it), no address-of, indexing, field access, method calls, struct literals, ranges, blocks or block-like statements; a path is one identifier; spans and error texts are not modelled.
- EdgeLowering.BranchRuns: operands of a fused signed comparison that are trusted to be sign-extended must be; `LowerICmp.ArithmeticTrustedExactly` says when results of arithmetic are not.
- Liveness.LivenessAnalysis: the sets are of virtual and physical registers alike; register classes are not part of this model.
- Machine.UseDefSound: memory operations and calls are opaque effects on memory and result registers.
- MachineCleanup.CleanupPreservesRuns: block ids are distinct, as lowering makes them.
- `replace_inst` and `overwrite_inst` (src/ir/core.rs:844-897): they never register the new instruction's operands, so use lists are not exact after them.
- `split_block_at` (src/ir/cfg.rs:297-345), the artificial exit node and the reversed graph: only passes that are not modelled use them.
- Aggressive dead code elimination (src/ir/opt/dce.rs:115-276).
- Inlined memory copies, calls, loads, stores, stack slots and the expansion of pseudo instructions in lowering.
- Constant evaluation, type inference, the semantic analysis and IR generation.
- Register allocation, branch relaxation, frame layout, mem2reg, sccp, licm, sroa and inlining; the lexer's regular expressions, text output, input and output.
