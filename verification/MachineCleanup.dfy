/** The last two passes over machine code: dropping self-moves (src/mir/opt/peephole.rs) and
    dropping jumps to the next block in layout order (src/mir/opt/fallthrough.rs). */
module MachineCleanup {
  import opened Machine
  import opened Bits

  // ---------------------------------------------------------------- running a function

  /** How control leaves a block. */
  datatype Exit = Falls | Goes(dest: BlockId) | Returns

  /** Runs one block from its first instruction. */
  ghost function RunBlock(arch: Arch, X: Externals, insts: seq<Inst>, st: State): (Exit, State) {
    if insts == [] then (Falls, st)
    else
      var inst := insts[0];
      match inst
      case Ret => (Returns, st)
      case Jal(_, dest) => (Goes(dest), Step(arch, X, inst, st))
      case Branch(op, rs1, rs2, dest) =>
        if BranchTaken(arch, op, Pattern(arch, st.regs, rs1), Pattern(arch, st.regs, rs2)) then (Goes(dest), st)
        else RunBlock(arch, X, insts[1..], st)
      case _ => RunBlock(arch, X, insts[1..], Step(arch, X, inst, st))
  }

  /** What the first instruction of a block does. */
  lemma RunHead(arch: Arch, X: Externals, insts: seq<Inst>, st: State)
    requires insts != []
    ensures RunBlock(arch, X, insts, st) == match insts[0]
      case Ret => (Returns, st)
      case Jal(_, dest) => (Goes(dest), Step(arch, X, insts[0], st))
      case Branch(op, rs1, rs2, dest) =>
        if BranchTaken(arch, op, Pattern(arch, st.regs, rs1), Pattern(arch, st.regs, rs2)) then (Goes(dest), st)
        else RunBlock(arch, X, insts[1..], st)
      case _ => RunBlock(arch, X, insts[1..], Step(arch, X, insts[0], st))
  {
    hide Step, BranchTaken, Pattern;
  }

  lemma RunNothing(arch: Arch, X: Externals, st: State)
    ensures RunBlock(arch, X, [], st) == (Falls, st)
  {
  }

  /** A plain jump changes no register and no memory. */
  lemma JumpIsQuiet(arch: Arch, X: Externals, inst: Inst, st: State)
    requires inst.Jal? && inst.rd == ZERO
    ensures Step(arch, X, inst, st) == st
  {
  }

  /** Where control is: at the start of a block, finished, or off the end of the code. */
  datatype Place = At(index: nat) | Finished | Lost

  predicate DistinctIds(blocks: seq<MachineBlock>) {
    forall i, j :: 0 <= i < j < |blocks| ==> blocks[i].id != blocks[j].id
  }

  /** The block named by a label: the first one with that id. */
  ghost function Find(blocks: seq<MachineBlock>, id: BlockId): Place {
    if i :| 0 <= i < |blocks| && blocks[i].id == id && forall j :: 0 <= j < i ==> blocks[j].id != id then At(i)
      else Lost
  }

  ghost function Next(blocks: seq<MachineBlock>, i: nat, exit: Exit): Place {
    match exit
    case Falls => if i + 1 < |blocks| then At(i + 1) else Lost
    case Goes(dest) => Find(blocks, dest)
    case Returns => Finished
  }

  /** Running from the start of a block, following at most `steps` block transitions. */
  ghost function Run(arch: Arch, X: Externals, blocks: seq<MachineBlock>, place: Place, st: State, steps: nat): (Place,
                     State)
    decreases steps
  {
    if steps == 0 || !place.At? || place.index >= |blocks| then (place, st)
    else
      var (exit, st') := RunBlock(arch, X, blocks[place.index].insts, st);
      Run(arch, X, blocks, Next(blocks, place.index, exit), st', steps - 1)
  }

  lemma RunUnfold(arch: Arch, X: Externals, blocks: seq<MachineBlock>, i: nat, st: State, steps: nat)
    requires i < |blocks| && steps > 0
    ensures var (exit, st') := RunBlock(arch, X, blocks[i].insts, st);
      Run(arch, X, blocks, At(i), st, steps) == Run(arch, X, blocks, Next(blocks, i, exit), st', steps - 1)
  {
  }

  lemma RunStopped(arch: Arch, X: Externals, blocks: seq<MachineBlock>, place: Place, st: State, steps: nat)
    requires !place.At?
    ensures Run(arch, X, blocks, place, st, steps) == (place, st)
  {
  }

  lemma FindIsBlock(blocks: seq<MachineBlock>, id: BlockId)
    ensures var p := Find(blocks, id); p.At? ==> p.index < |blocks| && blocks[p.index].id == id
    ensures !Find(blocks, id).Finished?
  {
  }

  /** The two functions take every block, from every machine state, to the same place and state. */
  ghost predicate SameBlocks(arch: Arch, X: Externals, a: seq<MachineBlock>, b: seq<MachineBlock>) {
    && |a| == |b|
    && (forall id :: Find(a, id) == Find(b, id))
    && (forall i, st: State :: 0 <= i < |a| && InRange(arch, st.regs) ==> SameBlock(arch, X, a, b, i, st))
  }

  ghost predicate SameBlock(arch: Arch, X: Externals, a: seq<MachineBlock>, b: seq<MachineBlock>, i: nat, st: State)
    requires i < |a| && i < |b|
  {
    var (ea, sa) := RunBlock(arch, X, a[i].insts, st);
    var (eb, sb) := RunBlock(arch, X, b[i].insts, st);
    sa == sb && Next(a, i, ea) == Next(b, i, eb)
  }

  lemma {:induction false} RunBlockInRange(arch: Arch, X: Externals, insts: seq<Inst>, st: State)
    requires InRange(arch, st.regs)
    ensures InRange(arch, RunBlock(arch, X, insts, st).1.regs)
    decreases |insts|
  {
    if insts != [] {
      StepInRange(arch, X, insts[0], st);
      hide InRange, Step;
      RunBlockInRange(arch, X, insts[1..], st);
      RunBlockInRange(arch, X, insts[1..], Step(arch, X, insts[0], st));
    }
  }

  lemma {:induction false} SameRuns(arch: Arch, X: Externals, a: seq<MachineBlock>, b: seq<MachineBlock>, place: Place,
                                    st: State, steps: nat)
    requires SameBlocks(arch, X, a, b) && InRange(arch, st.regs)
    ensures Run(arch, X, a, place, st, steps) == Run(arch, X, b, place, st, steps)
    decreases steps
  {
    if steps > 0 && place.At? && place.index < |a| {
      hide InRange, RunBlock, Find;
      assert SameBlock(arch, X, a, b, place.index, st);
      RunBlockInRange(arch, X, a[place.index].insts, st);
      var (exit, st') := RunBlock(arch, X, a[place.index].insts, st);
      SameRuns(arch, X, a, b, Next(a, place.index, exit), st', steps - 1);
    }
  }

  lemma SameIdsSameFind(a: seq<MachineBlock>, b: seq<MachineBlock>, id: BlockId)
    requires |a| == |b| && forall i :: 0 <= i < |a| ==> a[i].id == b[i].id
    ensures Find(a, id) == Find(b, id)
  {
    if i :| 0 <= i < |a| && a[i].id == id && forall j :: 0 <= j < i ==> a[j].id != id {
      assert b[i].id == id && forall j :: 0 <= j < i ==> b[j].id != id;
      assert forall k :: 0 <= k < |a| && a[k].id == id && (forall j :: 0 <= j < k ==> a[j].id != id) ==> k == i;
    }
  }

  // ---------------------------------------------------------------- peephole

  predicate IsSelfMove(inst: Inst) {
    var m := AsMove(inst);
    m.Move? && m.dst == m.src
  }

  function WithoutSelfMoves(insts: seq<Inst>): (r: seq<Inst>) {
    if insts == [] then []
    else WithoutSelfMoves(insts[..|insts| - 1]) + (if IsSelfMove(insts[|insts| - 1]) then [] else [insts[|insts| - 1]])
  }

  function Peepholed(blocks: seq<MachineBlock>): seq<MachineBlock> {
    seq(|blocks|, i requires 0 <= i < |blocks| => MachineBlock(blocks[i].id, WithoutSelfMoves(blocks[i].insts)))
  }

  method PeepholeOptimize(fn: MachineFunction)
    modifies fn`blocks
    ensures fn.blocks == Peepholed(old(fn.blocks))
    ensures forall b, inst :: 0 <= b < |fn.blocks| && inst in fn.blocks[b].insts ==> !CopiesItself(inst)
  {
    var blocks := fn.blocks;
    var b := 0;
    while b < |blocks|
      invariant 0 <= b <= |blocks| == |fn.blocks| && blocks == old(fn.blocks)
      invariant forall k :: 0 <= k < b ==> fn.blocks[k] == MachineBlock(blocks[k].id, WithoutSelfMoves(blocks[k].insts))
      invariant forall k :: b <= k < |blocks| ==> fn.blocks[k] == blocks[k]
    {
      var insts := blocks[b].insts;
      var kept: seq<Inst> := [];
      var i := 0;
      while i < |insts|
        invariant 0 <= i <= |insts| && kept == WithoutSelfMoves(insts[..i])
      {
        assert insts[..i + 1][..i] == insts[..i];
        if !IsSelfMove(insts[i]) {
          kept := kept + [insts[i]];
        }
        i := i + 1;
      }
      assert insts[..i] == insts;
      fn.blocks := fn.blocks[b := MachineBlock(blocks[b].id, kept)];
      b := b + 1;
    }
    forall k, inst | 0 <= k < |fn.blocks| && inst in fn.blocks[k].insts ensures !CopiesItself(inst) {
      NoSelfMoveLeft(blocks[k].insts, inst);
    }
  }

  /** Moves of a register to itself, and adding, xor-ing or or-ing zero to it, or and-ing ones. */
  predicate CopiesItself(inst: Inst) {
    match inst
    case Mv(rd, rs) => rd == rs
    case RegImm(op, rd, rs, imm) =>
      rd == rs && (((op.Addi? || op.Xori? || op.Ori?) && imm == 0) || (op.Andi? && imm == -1))
    case _ => false
  }

  lemma {:induction false} NoSelfMoveLeft(insts: seq<Inst>, inst: Inst)
    requires inst in WithoutSelfMoves(insts)
    ensures inst in insts && !CopiesItself(inst)
  {
    var n := |insts| - 1;
    if inst in WithoutSelfMoves(insts[..n]) {
      NoSelfMoveLeft(insts[..n], inst);
    }
  }

  lemma ImmIdentity(arch: Arch, op: ImmOp, a: nat, imm: int)
    requires a < Pow2(Xlen(arch))
    requires ((op == Addi || op == Xori || op == Ori) && imm == 0) || (op == Andi && imm == -1)
    ensures EvalImmOp(arch, op, a, imm) == a
  {
    LowSmall(Xlen(arch), 0);
    LowSmall(Xlen(arch), a);
    BitwiseIdentities(Xlen(arch), a);
  }

  lemma SelfMoveResult(arch: Arch, X: Externals, inst: Inst, st: State)
    requires IsSelfMove(inst) && InRange(arch, st.regs)
    ensures DefRegs(inst) == [AsMove(inst).src] && !inst.Call?
    ensures Result(arch, X, inst, st) == Read(st.regs, AsMove(inst).src)
    ensures MemoryAfter(arch, X, inst, st) == st.mem
  {
    hide EvalImmOp, EvalRegOp;
    if inst.RegImm? {
      LowSmall(Xlen(arch), Read(st.regs, inst.rs1));
      ImmIdentity(arch, inst.iop, Pattern(arch, st.regs, inst.rs1), inst.imm);
    }
  }

  lemma WriteBack(arch: Arch, regs: Regs, r: Register)
    requires InRange(arch, regs)
    ensures Write(arch, regs, r, Read(regs, r)) == regs
  {
    LowSmall(Xlen(arch), Read(regs, r));
  }

  /** An instruction that copies a register onto itself changes nothing. */
  lemma SelfMoveIsIdentity(arch: Arch, X: Externals, inst: Inst, st: State)
    requires IsSelfMove(inst) && InRange(arch, st.regs)
    ensures Step(arch, X, inst, st) == st
  {
    SelfMoveResult(arch, X, inst, st);
    WriteBack(arch, st.regs, AsMove(inst).src);
    hide Result, MemoryAfter, Write, InRange, AsMove;
  }

  lemma BitwiseIdentities(k: nat, a: nat)
    requires a < Pow2(k)
    ensures Bitwise(XorOp, a, 0) == a && Bitwise(OrOp, a, 0) == a
    ensures Bitwise(AndOp, a, Low(k, -1)) == a
  {
    LowEqual(k, -1, Pow2(k) - 1, -1);
    LowSmall(k, Pow2(k) - 1);
    BitwiseZero(XorOp, a);
    BitwiseZero(OrOp, a);
    BitwiseOnes(k, a);
  }

  lemma {:induction false} WithoutSelfMovesFromFront(insts: seq<Inst>)
    requires insts != []
    ensures WithoutSelfMoves(insts) == (if IsSelfMove(insts[0]) then [] else [insts[0]]) + WithoutSelfMoves(insts[1..])
  {
    var n := |insts| - 1;
    if n > 0 {
      WithoutSelfMovesFromFront(insts[..n]);
      assert insts[1..][..n - 1] == insts[..n][1..];
    } else {
      assert insts[..n] == [] && insts[1..] == [];
    }
  }

  /** Two blocks with the same first instruction run alike if what follows runs alike. */
  lemma SameHead(arch: Arch, X: Externals, a: seq<Inst>, b: seq<Inst>, st: State)
    requires a != [] && b != [] && a[0] == b[0]
    requires RunBlock(arch, X, a[1..], st) == RunBlock(arch, X, b[1..], st)
    requires var s := Step(arch, X, a[0], st); RunBlock(arch, X, a[1..], s) == RunBlock(arch, X, b[1..], s)
    ensures RunBlock(arch, X, a, st) == RunBlock(arch, X, b, st)
  {
    hide Step, BranchTaken;
  }

  lemma SelfMoveSkipped(arch: Arch, X: Externals, insts: seq<Inst>, st: State)
    requires insts != [] && IsSelfMove(insts[0]) && InRange(arch, st.regs)
    ensures RunBlock(arch, X, insts, st) == RunBlock(arch, X, insts[1..], st)
  {
    SelfMoveIsIdentity(arch, X, insts[0], st);
    hide InRange, Step, BranchTaken;
  }

  lemma {:induction false} PeepholeRunsBlock(arch: Arch, X: Externals, insts: seq<Inst>, st: State)
    requires InRange(arch, st.regs)
    ensures RunBlock(arch, X, WithoutSelfMoves(insts), st) == RunBlock(arch, X, insts, st)
    decreases |insts|
  {
    if insts == [] {
    } else {
      hide InRange, Step, WithoutSelfMoves, RunBlock, IsSelfMove;
      var rest := insts[1..];
      WithoutSelfMovesFromFront(insts);
      PeepholeRunsBlock(arch, X, rest, st);
      if IsSelfMove(insts[0]) {
        SelfMoveSkipped(arch, X, insts, st);
        assert WithoutSelfMoves(insts) == WithoutSelfMoves(rest);
      } else {
        assert WithoutSelfMoves(insts)[1..] == WithoutSelfMoves(rest);
        StepInRange(arch, X, insts[0], st);
        PeepholeRunsBlock(arch, X, rest, Step(arch, X, insts[0], st));
        SameHead(arch, X, WithoutSelfMoves(insts), insts, st);
      }
    }
  }

  /** Dropping self-moves preserves the run from every block and every machine state. */
  lemma PeepholePreservesRuns(arch: Arch, X: Externals, blocks: seq<MachineBlock>, place: Place, st: State, steps: nat)
    requires InRange(arch, st.regs)
    ensures Run(arch, X, Peepholed(blocks), place, st, steps) == Run(arch, X, blocks, place, st, steps)
  {
    var after := Peepholed(blocks);
    forall id ensures Find(after, id) == Find(blocks, id) {
      SameIdsSameFind(after, blocks, id);
    }
    forall i, s: State | 0 <= i < |after| && InRange(arch, s.regs) ensures SameBlock(arch, X, after, blocks, i, s) {
      PeepholeRunsBlock(arch, X, blocks[i].insts, s);
      var (exit, _) := RunBlock(arch, X, blocks[i].insts, s);
    }
    SameRuns(arch, X, after, blocks, place, st, steps);
  }

  // ---------------------------------------------------------------- fallthrough

  function WithoutJumpTo(insts: seq<Inst>, next: BlockId): seq<Inst> {
    if insts != [] && IsJumpTo(insts[|insts| - 1], next) then insts[..|insts| - 1] else insts
  }

  function FellThrough(blocks: seq<MachineBlock>): (r: seq<MachineBlock>)
    ensures |r| == |blocks|
  {
    seq(|blocks|, i requires 0 <= i < |blocks| =>
      if i + 1 < |blocks| then MachineBlock(blocks[i].id, WithoutJumpTo(blocks[i].insts, blocks[i + 1].id))
        else blocks[i])
  }

  lemma FellThroughAt(blocks: seq<MachineBlock>, k: nat)
    requires k < |blocks|
    ensures FellThrough(blocks)[k] == if k + 1 < |blocks|
      then MachineBlock(blocks[k].id, WithoutJumpTo(blocks[k].insts, blocks[k + 1].id)) else blocks[k]
  {
    hide WithoutJumpTo;
  }

  function LayoutOrder(blocks: seq<MachineBlock>): (r: seq<BlockId>)
    ensures |r| == |blocks| && forall k :: 0 <= k < |r| ==> r[k] == blocks[k].id
  {
    seq(|blocks|, i requires 0 <= i < |blocks| => blocks[i].id)
  }

  method OptimizeFallthroughs(fn: MachineFunction)
    modifies fn`blocks
    ensures fn.blocks == FellThrough(old(fn.blocks))
    ensures forall b {:trigger old(fn.blocks)[b]} :: 0 <= b && b + 1 < |old(fn.blocks)| ==>
      var insts := old(fn.blocks)[b].insts;
      insts != [] && insts[|insts| - 1] == Jal(ZERO, old(fn.blocks)[b + 1].id) ==>
        fn.blocks[b].insts == insts[..|insts| - 1]
  {
    hide FellThrough, IsJumpTo, LayoutOrder;
    ghost var was := fn.blocks;
    var order := LayoutOrder(fn.blocks);
    var b := 0;
    while b + 1 < |order|
      invariant 0 <= b <= |order| == |was| == |fn.blocks| && (|order| > 0 ==> b < |order|)
      invariant forall k :: 0 <= k < b ==> fn.blocks[k] == FellThrough(was)[k]
      invariant forall k :: b <= k < |order| ==> fn.blocks[k] == was[k]
    {
      var block := fn.blocks[b];
      var nextId := order[b + 1];
      FellThroughAt(was, b);
      if block.insts != [] && IsJumpTo(block.insts[|block.insts| - 1], nextId) {
        fn.blocks := fn.blocks[b := MachineBlock(block.id, block.insts[..|block.insts| - 1])];
      }
      b := b + 1;
    }
    if |was| > 0 {
      FellThroughAt(was, |was| - 1);
    }
    assert forall k :: 0 <= k < |was| ==> fn.blocks[k] == FellThrough(was)[k];
    forall k | 0 <= k && k + 1 < |was| && was[k].insts != []
      && was[k].insts[|was[k].insts| - 1] == Jal(ZERO, was[k + 1].id)
      ensures fn.blocks[k].insts == was[k].insts[..|was[k].insts| - 1]
    {
      JumpFallsThrough(was, k);
    }
  }

  lemma JumpFallsThrough(blocks: seq<MachineBlock>, k: nat)
    requires k + 1 < |blocks| && blocks[k].insts != []
    requires blocks[k].insts[|blocks[k].insts| - 1] == Jal(ZERO, blocks[k + 1].id)
    ensures FellThrough(blocks)[k].insts == blocks[k].insts[..|blocks[k].insts| - 1]
  {
  }

  lemma {:induction false} DroppedJumpFalls(arch: Arch, X: Externals, insts: seq<Inst>, next: BlockId, st: State)
    requires insts != [] && IsJumpTo(insts[|insts| - 1], next)
    ensures var (e, s) := RunBlock(arch, X, insts, st);
      var (e', s') := RunBlock(arch, X, insts[..|insts| - 1], st);
      s == s' && (e == e' || (e == Goes(next) && e' == Falls))
    decreases |insts|
  {
    hide RunBlock, Step, BranchTaken, Pattern;
    var n := |insts| - 1;
    RunHead(arch, X, insts, st);
    if n == 0 {
      JumpIsQuiet(arch, X, insts[0], st);
      RunNothing(arch, X, st);
      assert insts[..n] == [];
    } else {
      RunHead(arch, X, insts[..n], st);
      assert insts[..n][1..] == insts[1..][..n - 1];
      DroppedJumpFalls(arch, X, insts[1..], next, st);
      DroppedJumpFalls(arch, X, insts[1..], next, Step(arch, X, insts[0], st));
    }
  }

  /** Dropping jumps to the next block preserves the run from every block and every machine
      state, provided labels are unambiguous. */
  lemma FallthroughPreservesRuns(arch: Arch, X: Externals, blocks: seq<MachineBlock>, place: Place, st: State,
                                 steps: nat)
    requires DistinctIds(blocks) && InRange(arch, st.regs)
    ensures Run(arch, X, FellThrough(blocks), place, st, steps) == Run(arch, X, blocks, place, st, steps)
  {
    var after := FellThrough(blocks);
    forall id ensures Find(after, id) == Find(blocks, id) {
      SameIdsSameFind(after, blocks, id);
    }
    forall i, s: State | 0 <= i < |after| && InRange(arch, s.regs) ensures SameBlock(arch, X, after, blocks, i, s) {
      FallthroughSameBlock(arch, X, blocks, i, s);
    }
    SameRuns(arch, X, after, blocks, place, st, steps);
  }

  lemma FallthroughSameBlock(arch: Arch, X: Externals, blocks: seq<MachineBlock>, i: nat, st: State)
    requires DistinctIds(blocks) && i < |blocks|
    ensures SameBlock(arch, X, FellThrough(blocks), blocks, i, st)
  {
    var after := FellThrough(blocks);
    forall id ensures Find(after, id) == Find(blocks, id) {
      SameIdsSameFind(after, blocks, id);
    }
    var insts := blocks[i].insts;
    if i + 1 < |blocks| && insts != [] && IsJumpTo(insts[|insts| - 1], blocks[i + 1].id) {
      var next := blocks[i + 1].id;
      DroppedJumpFalls(arch, X, insts, next, st);
      assert after[i].insts == insts[..|insts| - 1];
      FindOwnId(blocks, i + 1);
    } else {
      assert after[i].insts == insts;
    }
  }

  lemma FindOwnId(blocks: seq<MachineBlock>, i: nat)
    requires DistinctIds(blocks) && i < |blocks|
    ensures Find(blocks, blocks[i].id) == At(i)
  {
    assert forall j :: 0 <= j < i ==> blocks[j].id != blocks[i].id;
  }

  /** Both clean-ups together, in the order the compiler applies them. */
  lemma CleanupPreservesRuns(arch: Arch, X: Externals, blocks: seq<MachineBlock>, place: Place, st: State, steps: nat)
    requires DistinctIds(blocks) && InRange(arch, st.regs)
    ensures Run(arch, X, FellThrough(Peepholed(blocks)), place, st, steps) == Run(arch, X, blocks, place, st, steps)
  {
    PeepholePreservesRuns(arch, X, blocks, place, st, steps);
    assert DistinctIds(Peepholed(blocks));
    FallthroughPreservesRuns(arch, X, Peepholed(blocks), place, st, steps);
  }
}
