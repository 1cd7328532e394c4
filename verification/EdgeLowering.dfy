/** Lowering of branches: phi copies on the edges, transit blocks for conditional edges
    (src/mir/lower.rs:259-277, 890-928, 1808-1932). */
module EdgeLowering {
  import opened Machine
  import opened Bits
  import opened CoreInts
  import opened LowerArith
  import opened LowerBinary
  import opened LowerICmp
  import opened ParallelCopy
  import opened MachineCleanup

  // ---------------------------------------------------------------- phis on an edge

  /** A phi: its register, and the value each predecessor block supplies. */
  datatype PhiInfo = PhiInfo(dst: nat, incomings: map<nat, Operand>)

  datatype PhiCopy = PhiCopy(dst: nat, value: Operand)

  /** The phis of a block that have a value for the given predecessor, in order. */
  function CopiesFrom(infos: seq<PhiInfo>, pred: nat): seq<PhiCopy> {
    if infos == [] then []
    else
      var rest := CopiesFrom(infos[1..], pred);
      if pred in infos[0].incomings then [PhiCopy(infos[0].dst, infos[0].incomings[pred])] + rest else rest
  }

  ghost predicate DistinctPhis(infos: seq<PhiInfo>) {
    forall i, j :: 0 <= i < j < |infos| ==> infos[i].dst != infos[j].dst
  }

  ghost predicate UsablePhis(infos: seq<PhiInfo>, vregs: VRegs, next: nat) {
    && DistinctPhis(infos)
    && (forall i :: 0 <= i < |infos| ==> infos[i].dst < next)
    && (forall i, p :: 0 <= i < |infos| && p in infos[i].incomings ==>
         UsableOperand(infos[i].incomings[p], vregs, next))
  }

  /** A phi is copied on the edge from `pred` exactly when it has a value for `pred`. */
  lemma {:induction false} CopiesExact(infos: seq<PhiInfo>, pred: nat, vregs: VRegs, next: nat)
    requires UsablePhis(infos, vregs, next)
    ensures UsableCopies(CopiesFrom(infos, pred), vregs, next)
    ensures forall c :: c in CopiesFrom(infos, pred) <==>
      exists i :: 0 <= i < |infos| && pred in infos[i].incomings && c == PhiCopy(infos[i].dst, infos[i].incomings[pred])
  {
    if infos == [] {
    } else {
      CopiesExact(infos[1..], pred, vregs, next);
      forall c ensures c in CopiesFrom(infos, pred) <==>
        exists i :: 0 <= i < |infos| && pred in infos[i].incomings
          && c == PhiCopy(infos[i].dst, infos[i].incomings[pred])
      {
        OneMoreCopy(infos, pred, c);
      }
      CopiesUsable(infos, pred, vregs, next);
    }
  }

  lemma OneMoreCopy(infos: seq<PhiInfo>, pred: nat, c: PhiCopy)
    requires infos != []
    requires c in CopiesFrom(infos[1..], pred) <==>
      exists i :: 0 <= i < |infos[1..]| && pred in infos[1..][i].incomings
        && c == PhiCopy(infos[1..][i].dst, infos[1..][i].incomings[pred])
    ensures c in CopiesFrom(infos, pred) <==>
      exists i :: 0 <= i < |infos| && pred in infos[i].incomings && c == PhiCopy(infos[i].dst, infos[i].incomings[pred])
  {
    var rest := infos[1..];
    if c in CopiesFrom(rest, pred) {
      var i :| 0 <= i < |rest| && pred in rest[i].incomings && c == PhiCopy(rest[i].dst, rest[i].incomings[pred]);
      assert infos[i + 1] == rest[i];
    }
    if i :| 0 < i < |infos| && pred in infos[i].incomings && c == PhiCopy(infos[i].dst, infos[i].incomings[pred]) {
      assert rest[i - 1] == infos[i];
    }
  }

  lemma CopiesUsable(infos: seq<PhiInfo>, pred: nat, vregs: VRegs, next: nat)
    requires UsablePhis(infos, vregs, next) && infos != [] && UsableCopies(CopiesFrom(infos[1..], pred), vregs, next)
    requires forall c :: c in CopiesFrom(infos[1..], pred) <==>
      exists i :: 0 <= i < |infos[1..]| && pred in infos[1..][i].incomings
        && c == PhiCopy(infos[1..][i].dst, infos[1..][i].incomings[pred])
    ensures UsableCopies(CopiesFrom(infos, pred), vregs, next)
  {
    var rest := infos[1..];
    forall c | c in CopiesFrom(rest, pred) ensures c.dst != infos[0].dst {
      var i :| 0 <= i < |rest| && pred in rest[i].incomings && c == PhiCopy(rest[i].dst, rest[i].incomings[pred]);
      assert rest[i] == infos[i + 1];
    }
  }

  ghost predicate UsableCopies(copies: seq<PhiCopy>, vregs: VRegs, next: nat) {
    && (forall i, j :: 0 <= i < j < |copies| ==> copies[i].dst != copies[j].dst)
    && (forall i :: 0 <= i < |copies| ==> copies[i].dst < next && UsableOperand(copies[i].value, vregs, next))
  }

  predicate Resolvable(op: Operand, vregs: VRegs) {
    op.Value? ==> op.id in vregs
  }

  /** The meaning of an edge: every phi takes the value its operand had before any of them
      changed; memory and every other allocated register stay as they were. */
  ghost predicate PhisAssigned(arch: Arch, X: Externals, vregs: VRegs, copies: seq<PhiCopy>, next: nat, st: State,
                               st': State) {
    && st'.mem == st.mem
    && (forall i :: 0 <= i < |copies| ==>
         st'.regs[Virtual(copies[i].dst)] == OperandValue(arch, X, vregs, copies[i].value, st.regs))
    && (forall r: Register :: Allocated(r, next) && (forall i :: 0 <= i < |copies| ==> Virtual(copies[i].dst) != r) ==>
         st'.regs[r] == st.regs[r])
  }

  // ---------------------------------------------------------------- parallel_copy

  /** The operand code of the first n copies leaves every value in its move's source. */
  ghost predicate SourcesLoaded(arch: Arch, code: seq<Inst>, next: nat, copies: seq<PhiCopy>, moves: seq<CopyMove>,
                                vregs: VRegs) {
    && |moves| <= |copies|
    && forall X, st: State :: InRange(arch, st.regs) ==>
      var st' := Exec(arch, X, code, st);
      && Undisturbed(next, st, st')
      && forall i :: 0 <= i < |moves| ==>
           Read(st'.regs, moves[i].src) == OperandValue(arch, X, vregs, copies[i].value, st.regs)
  }

  lemma LoadAnother(arch: Arch, c1: seq<Inst>, c2: seq<Inst>, n1: nat, n2: nat, copies: seq<PhiCopy>,
                    moves: seq<CopyMove>, m: CopyMove, vregs: VRegs)
    requires n1 <= n2 && |moves| < |copies| && SourcesLoaded(arch, c1, n1, copies, moves, vregs)
    requires forall i :: 0 <= i < |moves| ==> Allocated(moves[i].src, n2)
    requires UsableOperand(copies[|moves|].value, vregs, n1) && Loads(arch, c2, n2, m.src, copies[|moves|].value, vregs)
    ensures SourcesLoaded(arch, c1 + c2, n1, copies, moves + [m], vregs)
  {
    hide Exec, InRange, Low, Pow2, OperandValue;
    forall X, st: State | InRange(arch, st.regs)
      ensures var st' := Exec(arch, X, c1 + c2, st);
        && Undisturbed(n1, st, st')
        && forall i :: 0 <= i < |moves + [m]| ==>
             Read(st'.regs, (moves + [m])[i].src) == OperandValue(arch, X, vregs, copies[i].value, st.regs)
    {
      var st1 := Exec(arch, X, c1, st);
      ExecAppend(arch, X, c1, c2, st);
      ExecInRange(arch, X, c1, st);
      SameOperand(arch, X, vregs, copies[|moves|].value, n1, st, st1);
    }
  }

  method LowerParallelCopy(arch: Arch, copies: seq<PhiCopy>, vregs: VRegs, out: seq<Inst>, fn: MachineFunction)
    returns (ok: bool, out': seq<Inst>)
    requires UsableCopies(copies, vregs, fn.nextVreg)
    modifies fn`nextVreg
    ensures fn.nextVreg >= old(fn.nextVreg) && out <= out' && Straight(out'[|out|..])
    ensures ok <==> forall i :: 0 <= i < |copies| ==> Resolvable(copies[i].value, vregs)
    ensures ok ==> CopiesAtOnce(arch, out'[|out|..], old(fn.nextVreg), copies, vregs)
    ensures Encoded(arch, out, out')
  {
    hide Loads, SourcesLoaded, OperandValue, CopiesAtOnce, Encoded;
    EncodedNothing(arch, out);
    ghost var next := fn.nextVreg;
    var moves: seq<CopyMove> := [];
    out' := out;
    NothingLoaded(arch, next, copies, vregs);
    assert out'[|out|..] == [];
    for k := 0 to |copies|
      invariant fn.nextVreg >= next && out <= out' && Straight(out'[|out|..]) && |moves| == k
      invariant forall i :: 0 <= i < k ==> Resolvable(copies[i].value, vregs)
      invariant forall i :: 0 <= i < k ==>
        moves[i].dst == Virtual(copies[i].dst) && Allocated(moves[i].src, fn.nextVreg)
      invariant SourcesLoaded(arch, out'[|out|..], next, copies, moves, vregs) && Encoded(arch, out, out')
    {
      ghost var n2 := fn.nextVreg;
      var res, out1 := LowerOperand(arch, copies[k].value, vregs, out', fn);
      EncodedThen(arch, out, out', out1);
      if res.UnknownOperand? {
        assert out1[|out|..] == out'[|out|..] + out1[|out'|..];
        return false, out1;
      }
      LoadAnother(arch, out'[|out|..], out1[|out'|..], next, n2, copies, moves, CopyMove(Virtual(copies[k].dst), res.r),
        vregs);
      assert out1[|out|..] == out'[|out|..] + out1[|out'|..];
      moves := moves + [CopyMove(Virtual(copies[k].dst), res.r)];
      out' := out1;
    }
    ghost var base := fn.nextVreg;
    var copying, _, _ := ResolveParallelCopy(moves, fn);
    CopyTogether(arch, out'[|out|..], copying, next, base, copies, moves, vregs);
    assert (out' + copying)[|out|..] == out'[|out|..] + copying;
    EncodedMoves(arch, out', copying);
    EncodedThen(arch, out, out', out' + copying);
    return true, out' + copying;
  }

  lemma EncodedMoves(arch: Arch, code: seq<Inst>, moves: seq<Inst>)
    requires forall i :: 0 <= i < |moves| ==> moves[i].Mv?
    ensures Encoded(arch, code, code + moves)
  {
    assert (code + moves)[|code|..] == moves;
  }

  lemma NothingLoaded(arch: Arch, next: nat, copies: seq<PhiCopy>, vregs: VRegs)
    ensures SourcesLoaded(arch, [], next, copies, [], vregs)
  {
  }

  ghost predicate CopiesAtOnce(arch: Arch, code: seq<Inst>, next: nat, copies: seq<PhiCopy>, vregs: VRegs) {
    forall X, st: State :: InRange(arch, st.regs) ==>
      PhisAssigned(arch, X, vregs, copies, next, st, Exec(arch, X, code, st))
  }

  lemma CopyTogether(arch: Arch, c1: seq<Inst>, c2: seq<Inst>, next: nat, base: nat, copies: seq<PhiCopy>,
                     moves: seq<CopyMove>, vregs: VRegs)
    requires next <= base && |moves| == |copies| && SourcesLoaded(arch, c1, next, copies, moves, vregs)
    requires forall i :: 0 <= i < |moves| ==> moves[i].dst == Virtual(copies[i].dst)
    requires forall X, st: State :: InRange(arch, st.regs) ==>
              && Exec(arch, X, c2, st).mem == st.mem
              && MovedAtOnce(moves, base, st.regs, Exec(arch, X, c2, st).regs)
    ensures CopiesAtOnce(arch, c1 + c2, next, copies, vregs)
  {
    hide Exec, InRange, Low, Pow2, OperandValue;
    forall X, st: State | InRange(arch, st.regs)
      ensures PhisAssigned(arch, X, vregs, copies, next, st, Exec(arch, X, c1 + c2, st))
    {
      ExecAppend(arch, X, c1, c2, st);
      ExecInRange(arch, X, c1, st);
    }
  }

  // ---------------------------------------------------------------- straight-line prefixes of blocks

  /** Running a block whose first part is straight-line executes that part and goes on. */
  lemma {:induction false} RunThrough(arch: Arch, X: Externals, a: seq<Inst>, b: seq<Inst>, st: State)
    requires Straight(a)
    ensures RunBlock(arch, X, a + b, st) == RunBlock(arch, X, b, Exec(arch, X, a, st))
    decreases |a|
  {
    if a == [] {
      assert a + b == b;
    } else {
      var st1 := Step(arch, X, a[0], st);
      assert (a + b)[0] == a[0] && (a + b)[1..] == a[1..] + b;
      assert a == [a[0]] + a[1..];
      ExecAppend(arch, X, [a[0]], a[1..], st);
      Exec1(arch, X, a[0], st);
      RunThrough(arch, X, a[1..], b, st1);
      hide Step, Exec;
    }
  }

  lemma RunJump(arch: Arch, X: Externals, a: seq<Inst>, target: BlockId, st: State)
    requires Straight(a)
    ensures RunBlock(arch, X, a + [Jal(ZERO, target)], st) == (Goes(target), Exec(arch, X, a, st))
  {
    RunThrough(arch, X, a, [Jal(ZERO, target)], st);
  }

  lemma RunBranch(arch: Arch, X: Externals, a: seq<Inst>, branch: Inst, otherwise: BlockId, st: State)
    requires Straight(a) && branch.Branch?
    ensures var mid := Exec(arch, X, a, st);
      var taken := BranchTaken(arch, branch.bop, Pattern(arch, mid.regs, branch.rs1),
        Pattern(arch, mid.regs, branch.rs2));
      RunBlock(arch, X, a + [branch] + [Jal(ZERO, otherwise)], st)
        == (Goes(if taken then branch.dest else otherwise), mid)
  {
    hide RunBlock, BranchTaken, Pattern, Exec, Step;
    var jump := Jal(ZERO, otherwise);
    assert a + [branch] + [jump] == a + [branch, jump];
    RunThrough(arch, X, a, [branch, jump], st);
    var mid := Exec(arch, X, a, st);
    RunHead(arch, X, [branch, jump], mid);
    assert [branch, jump][1..] == [jump];
    RunHead(arch, X, [jump], mid);
    JumpIsQuiet(arch, X, jump, mid);
  }

  // ---------------------------------------------------------------- the branch arm

  /** The condition of a conditional branch: a value, or a comparison fused into the branch. */
  datatype Condition = OnValue(op: Operand) | Fused(icmp: ICmpCode, lhs: Typed, rhs: Typed)

  datatype BranchKind = Always | When(cond: Condition, otherwise: BlockId)

  ghost predicate ConditionHolds(arch: Arch, X: Externals, vregs: VRegs, cond: Condition, regs: Regs) {
    match cond
    case OnValue(op) => OperandValue(arch, X, vregs, op, regs) != 0
    case Fused(icmp, lhs, rhs) =>
      Holds(arch, icmp,
        Low(Xlen(arch), Extended(arch, lhs.width, IsSigned(icmp), OperandValue(arch, X, vregs, lhs.op, regs))),
        Low(Xlen(arch), Extended(arch, rhs.width, IsSigned(icmp), OperandValue(arch, X, vregs, rhs.op, regs))))
  }

  ghost predicate ConditionTrusted(arch: Arch, X: Externals, vregs: VRegs, cond: Condition, regs: Regs) {
    cond.Fused? && IsSigned(cond.icmp) ==>
      Trusted(arch, X, vregs, cond.lhs, regs) && Trusted(arch, X, vregs, cond.rhs, regs)
  }

  predicate ConditionKnown(cond: Condition, vregs: VRegs) {
    match cond
    case OnValue(op) => Resolvable(op, vregs)
    case Fused(_, lhs, rhs) => IsKnown(lhs, vregs) && IsKnown(rhs, vregs)
  }

  predicate ConditionUsable(cond: Condition, vregs: VRegs, next: nat) {
    match cond
    case OnValue(op) => UsableOperand(op, vregs, next)
    case Fused(_, lhs, rhs) => UsableTyped(lhs, vregs, next) && UsableTyped(rhs, vregs, next)
  }

  /** A fused comparison of integers of one width branches as folding it would decide. */
  lemma FusedConditionIsFolded(arch: Arch, X: Externals, vregs: VRegs, icmp: ICmpCode, lhs: Typed, rhs: Typed,
                               regs: Regs)
    requires InRange(arch, regs) && SameIntWidth(lhs, rhs, arch, icmp)
    ensures ConditionHolds(arch, X, vregs, Fused(icmp, lhs, rhs), regs)
      == FoldedCompare(arch, X, vregs, icmp, lhs.op, rhs.op, lhs.width.value, regs)
  {
    OperandInRange(arch, X, vregs, lhs.op, regs);
    OperandInRange(arch, X, vregs, rhs.op, regs);
    NormalisedComparison(arch, icmp, lhs.width.value, OperandValue(arch, X, vregs, lhs.op, regs),
      OperandValue(arch, X, vregs, rhs.op, regs));
    hide Low, Pow2, Extended, OperandValue, InRange, Holds, Compare;
  }

  /** Every block's id is its position. */
  predicate IdsAreIndices(blocks: seq<MachineBlock>) {
    forall i :: 0 <= i < |blocks| ==> blocks[i].id == i
  }

  /** A block, or the rest of one, that performs an edge's phi copies and jumps to its target. */
  ghost predicate PerformsEdge(arch: Arch, code: seq<Inst>, next: nat, copies: seq<PhiCopy>, vregs: VRegs,
                               target: BlockId) {
    forall X, st: State :: InRange(arch, st.regs) ==>
      var (exit, st') := RunBlock(arch, X, code, st);
      exit == Goes(target) && PhisAssigned(arch, X, vregs, copies, next, st, st')
  }

  lemma EdgeByJump(arch: Arch, code: seq<Inst>, next: nat, copies: seq<PhiCopy>, vregs: VRegs, target: BlockId)
    requires Straight(code) && CopiesAtOnce(arch, code, next, copies, vregs)
    ensures PerformsEdge(arch, code + [Jal(ZERO, target)], next, copies, vregs, target)
  {
    hide Exec, InRange, PhisAssigned, RunBlock;
    forall X, st: State | InRange(arch, st.regs)
      ensures var (exit, st') := RunBlock(arch, X, code + [Jal(ZERO, target)], st);
        exit == Goes(target) && PhisAssigned(arch, X, vregs, copies, next, st, st')
    {
      RunJump(arch, X, code, target, st);
    }
  }

  method AddTransitBlock(arch: Arch, target: BlockId, copies: seq<PhiCopy>, vregs: VRegs, fn: MachineFunction)
    returns (ok: bool, id: BlockId)
    requires UsableCopies(copies, vregs, fn.nextVreg)
    modifies fn
    ensures fn.nextVreg >= old(fn.nextVreg)
    ensures ok <==> forall i :: 0 <= i < |copies| ==> Resolvable(copies[i].value, vregs)
    ensures !ok ==> fn.blocks == old(fn.blocks)
    ensures ok ==>
      && id == |old(fn.blocks)| && |fn.blocks| == id + 1 && fn.blocks[..id] == old(fn.blocks)
      && fn.blocks[id].id == id
    ensures ok ==> PerformsEdge(arch, fn.blocks[id].insts, old(fn.nextVreg), copies, vregs, target)
    ensures ok ==> Encoded(arch, [], fn.blocks[id].insts)
  {
    hide PerformsEdge, CopiesAtOnce, Encoded;
    ghost var next := fn.nextVreg;
    id := |fn.blocks|;
    var insts: seq<Inst> := [];
    ok, insts := LowerParallelCopy(arch, copies, vregs, insts, fn);
    if !ok {
      return false, id;
    }
    assert insts[0..] == insts;
    EdgeByJump(arch, insts, next, copies, vregs, target);
    EncodedOne(arch, [], insts, Jal(ZERO, target));
    insts := insts + [Jal(ZERO, target)];
    fn.blocks := fn.blocks + [MachineBlock(id, insts)];
    return true, id;
  }

  /** The blocks from this one on can be encoded. */
  ghost predicate BlocksEncoded(arch: Arch, blocks: seq<MachineBlock>, from: nat) {
    forall j :: from <= j < |blocks| ==> Encoded(arch, [], blocks[j].insts)
  }

  /** Where one edge of a conditional branch leads: straight to its target when there is nothing
      to copy, and through a block of its own otherwise. */
  ghost predicate EdgeVia(arch: Arch, blocks: seq<MachineBlock>, fresh_: nat, via: BlockId, next: nat,
                          copies: seq<PhiCopy>, vregs: VRegs, target: BlockId) {
    if copies == [] then via == target
    else fresh_ <= via < |blocks| && PerformsEdge(arch, blocks[via].insts, next, copies, vregs, target)
  }

  method LowerEdge(arch: Arch, target: BlockId, copies: seq<PhiCopy>, vregs: VRegs, fn: MachineFunction)
    returns (ok: bool, via: BlockId)
    requires UsableCopies(copies, vregs, fn.nextVreg) && IdsAreIndices(fn.blocks)
    modifies fn
    ensures fn.nextVreg >= old(fn.nextVreg) && old(fn.blocks) <= fn.blocks && IdsAreIndices(fn.blocks)
    ensures |fn.blocks| == |old(fn.blocks)| + (if ok && copies != [] then 1 else 0)
    ensures ok <==> forall i :: 0 <= i < |copies| ==> Resolvable(copies[i].value, vregs)
    ensures ok ==> EdgeVia(arch, fn.blocks, |old(fn.blocks)|, via, old(fn.nextVreg), copies, vregs, target)
    ensures BlocksEncoded(arch, fn.blocks, |old(fn.blocks)|)
  {
    hide PerformsEdge, Encoded;
    ok, via := true, target;
    if copies != [] {
      ok, via := AddTransitBlock(arch, target, copies, vregs, fn);
      assert ok ==> forall i :: 0 <= i < via ==> fn.blocks[i] == fn.blocks[..via][i];
    }
  }

  /** The condition is decided on the values before the branch; deciding it disturbs nothing. */
  ghost predicate Chooses(arch: Arch, code: seq<Inst>, next: nat, cond: Condition, vregs: VRegs, ifTrue: BlockId,
                          ifFalse: BlockId) {
    forall X, st: State :: InRange(arch, st.regs) && ConditionTrusted(arch, X, vregs, cond, st.regs) ==>
      var (exit, st') := RunBlock(arch, X, code, st);
      && exit == Goes(if ConditionHolds(arch, X, vregs, cond, st.regs) then ifTrue else ifFalse)
      && InRange(arch, st'.regs) && Undisturbed(next, st, st')
  }

  lemma ChoosesOnValue(arch: Arch, code: seq<Inst>, next: nat, r: Register, op: Operand, vregs: VRegs, ifTrue: BlockId,
                       ifFalse: BlockId)
    requires Straight(code) && Loads(arch, code, next, r, op, vregs)
    ensures Chooses(arch, code + [Branch(Bne, r, ZERO, ifTrue)] + [Jal(ZERO, ifFalse)], next, OnValue(op), vregs,
      ifTrue, ifFalse)
  {
    hide Exec, InRange, Low, Pow2, OperandValue, RunBlock;
    forall X, st: State | InRange(arch, st.regs)
      ensures var (exit, st') := RunBlock(arch, X, code + [Branch(Bne, r, ZERO, ifTrue)] + [Jal(ZERO, ifFalse)], st);
        && exit == Goes(if OperandValue(arch, X, vregs, op, st.regs) != 0 then ifTrue else ifFalse)
        && InRange(arch, st'.regs) && Undisturbed(next, st, st')
    {
      RunBranch(arch, X, code, Branch(Bne, r, ZERO, ifTrue), ifFalse, st);
      ExecInRange(arch, X, code, st);
      PatternInRange(arch, Exec(arch, X, code, st).regs, r);
      PatternFits(arch, Exec(arch, X, code, st).regs, ZERO);
    }
  }

  lemma ChoosesFused(arch: Arch, code: seq<Inst>, next: nat, icmp: ICmpCode, lhs: Typed, rhs: Typed, rs1: Register,
                     rs2: Register, vregs: VRegs,
                     ifTrue: BlockId, ifFalse: BlockId)
    requires Straight(code) && OperandsReady(arch, code, next, IsSigned(icmp), lhs, rhs, vregs, rs1, rs2)
    ensures Chooses(arch, code + [EmitIcmpBranch(icmp, rs1, rs2, ifTrue)] + [Jal(ZERO, ifFalse)], next,
      Fused(icmp, lhs, rhs), vregs, ifTrue, ifFalse)
  {
    hide Exec, InRange, Low, Pow2, OperandValue, RunBlock, EmitIcmpBranch, Extended, Holds, BranchTaken, Trusted;
    var cond, branch := Fused(icmp, lhs, rhs), EmitIcmpBranch(icmp, rs1, rs2, ifTrue);
    forall X, st: State | InRange(arch, st.regs) && ConditionTrusted(arch, X, vregs, cond, st.regs)
      ensures var (exit, st') := RunBlock(arch, X, code + [branch] + [Jal(ZERO, ifFalse)], st);
        && exit == Goes(if ConditionHolds(arch, X, vregs, cond, st.regs) then ifTrue else ifFalse)
        && InRange(arch, st'.regs) && Undisturbed(next, st, st')
    {
      RunBranch(arch, X, code, branch, ifFalse, st);
      ExecInRange(arch, X, code, st);
      var mid := Exec(arch, X, code, st);
      assert BranchTaken(arch, branch.bop, Reg(arch, mid.regs, branch.rs1), Reg(arch, mid.regs, branch.rs2))
             == Holds(arch, icmp, Reg(arch, mid.regs, rs1), Reg(arch, mid.regs, rs2));
    }
  }

  method LowerCondition(arch: Arch, cond: Condition, ifTrue: BlockId, ifFalse: BlockId, vregs: VRegs, out: seq<Inst>,
                        fn: MachineFunction)
    returns (ok: bool, out': seq<Inst>)
    requires ConditionUsable(cond, vregs, fn.nextVreg)
    modifies fn`nextVreg
    ensures fn.nextVreg >= old(fn.nextVreg) && out <= out'
    ensures ok <==> ConditionKnown(cond, vregs)
    ensures ok ==> Chooses(arch, out'[|out|..], old(fn.nextVreg), cond, vregs, ifTrue, ifFalse)
    ensures Encoded(arch, out, out')
  {
    hide Chooses, Loads, OperandsReady, Encoded;
    ghost var next := fn.nextVreg;
    match cond {
      case Fused(icmp, lhs, rhs) =>
        var rs1, rs2, out1;
        ok, rs1, rs2, out1 := LowerIcmpOperands(arch, lhs, rhs, icmp, vregs, out, fn);
        if !ok {
          return false, out1;
        }
        ChoosesFused(arch, out1[|out|..], next, icmp, lhs, rhs, rs1, rs2, vregs, ifTrue, ifFalse);
        EncodedOne(arch, out, out1, EmitIcmpBranch(icmp, rs1, rs2, ifTrue));
        out' := out1 + [EmitIcmpBranch(icmp, rs1, rs2, ifTrue)];
        EncodedOne(arch, out, out', Jal(ZERO, ifFalse));
        out' := out' + [Jal(ZERO, ifFalse)];
        assert out'[|out|..] == out1[|out|..] + [EmitIcmpBranch(icmp, rs1, rs2, ifTrue)] + [Jal(ZERO, ifFalse)];
      case OnValue(op) =>
        var res, out1 := LowerOperand(arch, op, vregs, out, fn);
        if res.UnknownOperand? {
          return false, out1;
        }
        ok := true;
        ChoosesOnValue(arch, out1[|out|..], next, res.r, op, vregs, ifTrue, ifFalse);
        EncodedOne(arch, out, out1, Branch(Bne, res.r, ZERO, ifTrue));
        out' := out1 + [Branch(Bne, res.r, ZERO, ifTrue)];
        EncodedOne(arch, out, out', Jal(ZERO, ifFalse));
        out' := out' + [Jal(ZERO, ifFalse)];
        assert out'[|out|..] == out1[|out|..] + [Branch(Bne, res.r, ZERO, ifTrue)] + [Jal(ZERO, ifFalse)];
    }
  }

  // ---------------------------------------------------------------- the whole arm

  type PhiTable = map<BlockId, seq<PhiInfo>>

  function EdgeCopies(phis: PhiTable, pred: nat, target: BlockId): seq<PhiCopy> {
    if target in phis then CopiesFrom(phis[target], pred) else []
  }

  ghost predicate UsableTable(phis: PhiTable, vregs: VRegs, next: nat) {
    forall b :: b in phis ==> UsablePhis(phis[b], vregs, next)
  }

  predicate AllResolvable(copies: seq<PhiCopy>, vregs: VRegs) {
    forall i :: 0 <= i < |copies| ==> Resolvable(copies[i].value, vregs)
  }

  ghost predicate BranchResolvable(phis: PhiTable, pred: nat, thenBlock: BlockId, kind: BranchKind, vregs: VRegs) {
    && AllResolvable(EdgeCopies(phis, pred, thenBlock), vregs)
    && (kind.When? ==> AllResolvable(EdgeCopies(phis, pred, kind.otherwise), vregs) && ConditionKnown(kind.cond, vregs))
  }

  /** The IR successor the branch takes in a machine state. */
  ghost function Destination(arch: Arch, X: Externals, vregs: VRegs, thenBlock: BlockId, kind: BranchKind,
                             regs: Regs): BlockId {
    if kind.When? && !ConditionHolds(arch, X, vregs, kind.cond, regs) then kind.otherwise else thenBlock
  }

  ghost predicate BranchTrusted(arch: Arch, X: Externals, vregs: VRegs, kind: BranchKind, regs: Regs) {
    kind.When? ==> ConditionTrusted(arch, X, vregs, kind.cond, regs)
  }

  /** Running the branch code, and then the transit block it leads to, if it leads to one. */
  ghost function TakeEdge(arch: Arch, X: Externals, blocks: seq<MachineBlock>, fresh_: nat, code: seq<Inst>,
                          st: State): (Exit, State) {
    var (exit, st') := RunBlock(arch, X, code, st);
    if exit.Goes? && fresh_ <= exit.dest < |blocks| then RunBlock(arch, X, blocks[exit.dest].insts, st')
      else (exit, st')
  }

  /** Control arrives at the IR successor with its phis assigned all at once from the values
      the predecessor's registers held. */
  ghost predicate EdgesAreSimultaneous(arch: Arch, blocks: seq<MachineBlock>, fresh_: nat, code: seq<Inst>, next: nat,
                                       phis: PhiTable, pred: nat, thenBlock: BlockId, kind: BranchKind, vregs: VRegs) {
    forall X, st: State :: InRange(arch, st.regs) && BranchTrusted(arch, X, vregs, kind, st.regs) ==>
      var dest := Destination(arch, X, vregs, thenBlock, kind, st.regs);
      var (exit, st') := TakeEdge(arch, X, blocks, fresh_, code, st);
      exit == Goes(dest) && PhisAssigned(arch, X, vregs, EdgeCopies(phis, pred, dest), next, st, st')
  }

  lemma EdgeCopiesUsable(phis: PhiTable, pred: nat, target: BlockId, vregs: VRegs, next: nat, next': nat)
    requires UsableTable(phis, vregs, next) && next <= next'
    ensures UsableCopies(EdgeCopies(phis, pred, target), vregs, next')
  {
    if target in phis {
      CopiesExact(phis[target], pred, vregs, next);
    }
  }

  method LowerBranch(arch: Arch, pred: nat, thenBlock: BlockId, kind: BranchKind, phis: PhiTable, vregs: VRegs,
                     out: seq<Inst>, fn: MachineFunction)
    returns (ok: bool, out': seq<Inst>)
    requires UsableTable(phis, vregs, fn.nextVreg) && IdsAreIndices(fn.blocks)
    requires thenBlock < |fn.blocks|
    requires (kind.When? ==> kind.otherwise < |fn.blocks| && ConditionUsable(kind.cond, vregs, fn.nextVreg))
    modifies fn
    ensures fn.nextVreg >= old(fn.nextVreg) && old(fn.blocks) <= fn.blocks && IdsAreIndices(fn.blocks) && out <= out'
    ensures ok <==> BranchResolvable(phis, pred, thenBlock, kind, vregs)
    ensures ok ==> EdgesAreSimultaneous(arch, fn.blocks, |old(fn.blocks)|, out'[|out|..], old(fn.nextVreg), phis, pred,
      thenBlock, kind, vregs)
    ensures Encoded(arch, out, out') && BlocksEncoded(arch, fn.blocks, |old(fn.blocks)|)
  {
    EncodedNothing(arch, out);
    hide Encoded, PerformsEdge, Chooses, CopiesAtOnce, EdgesAreSimultaneous, UsableCopies, CopiesFrom, UsableTable,
      UsablePhis,
      PhisAssigned;
    ghost var next, count := fn.nextVreg, |fn.blocks|;
    EdgeCopiesUsable(phis, pred, thenBlock, vregs, next, next);
    var thenCopies := EdgeCopies(phis, pred, thenBlock);
    match kind {
      case When(cond, otherwise) =>
        var elseCopies := EdgeCopies(phis, pred, otherwise);
        var trueId;
        ok, trueId := LowerEdge(arch, thenBlock, thenCopies, vregs, fn);
        if !ok {
          return false, out;
        }
        ghost var n2, c2, blocks2 := fn.nextVreg, |fn.blocks|, fn.blocks;
        EdgeCopiesUsable(phis, pred, otherwise, vregs, next, n2);
        var falseId;
        ok, falseId := LowerEdge(arch, otherwise, elseCopies, vregs, fn);
        if !ok {
          return false, out;
        }
        ghost var n3 := fn.nextVreg;
        UsableLater(cond, vregs, next, n3);
        ok, out' := LowerCondition(arch, cond, trueId, falseId, vregs, out, fn);
        if ok {
          EdgeViaKept(arch, blocks2, fn.blocks, count, trueId, next, thenCopies, vregs, thenBlock);
          ConditionalEdges(arch, fn.blocks, count, c2, out'[|out|..], next, n2, n3, phis, pred, thenBlock, cond,
            otherwise, vregs, trueId, falseId);
        }
      case Always =>
        out' := out;
        ok := true;
        NoCopies(arch, next, vregs);
        if thenCopies != [] {
          ok, out' := LowerParallelCopy(arch, thenCopies, vregs, out, fn);
        }
        if ok {
          var body := out';
          assert thenCopies == [] ==> body[|out|..] == [];
          EdgeByJump(arch, body[|out|..], next, thenCopies, vregs, thenBlock);
          EncodedOne(arch, out, out', Jal(ZERO, thenBlock));
          out' := out' + [Jal(ZERO, thenBlock)];
          assert out'[|out|..] == body[|out|..] + [Jal(ZERO, thenBlock)];
          UnconditionalEdge(arch, fn.blocks, out'[|out|..], next, phis, pred, thenBlock, vregs);
        }
    }
  }

  lemma UsableLater(cond: Condition, vregs: VRegs, next: nat, next': nat)
    requires ConditionUsable(cond, vregs, next) && next <= next'
    ensures ConditionUsable(cond, vregs, next')
  {
  }

  lemma NoCopies(arch: Arch, next: nat, vregs: VRegs)
    ensures CopiesAtOnce(arch, [], next, [], vregs)
  {
  }

  lemma EdgeViaKept(arch: Arch, before: seq<MachineBlock>, after: seq<MachineBlock>, fresh_: nat, via: BlockId,
                    next: nat, copies: seq<PhiCopy>,
                    vregs: VRegs, target: BlockId)
    requires before <= after && EdgeVia(arch, before, fresh_, via, next, copies, vregs, target)
    ensures EdgeVia(arch, after, fresh_, via, next, copies, vregs, target)
  {
    hide PerformsEdge;
  }

  lemma UnconditionalEdge(arch: Arch, blocks: seq<MachineBlock>, code: seq<Inst>, next: nat, phis: PhiTable, pred: nat,
                          target: BlockId, vregs: VRegs)
    requires target < |blocks| && PerformsEdge(arch, code, next, EdgeCopies(phis, pred, target), vregs, target)
    ensures EdgesAreSimultaneous(arch, blocks, |blocks|, code, next, phis, pred, target, Always, vregs)
  {
    hide RunBlock, PhisAssigned, InRange, EdgeCopies;
  }

  lemma PhisAfterQuietCode(arch: Arch, X: Externals, vregs: VRegs, copies: seq<PhiCopy>, next: nat, n2: nat, n3: nat,
                           st: State, mid: State, st': State)
    requires next <= n2 <= n3 && Undisturbed(n3, st, mid) && UsableCopies(copies, vregs, n2)
    requires PhisAssigned(arch, X, vregs, copies, n2, mid, st')
    ensures PhisAssigned(arch, X, vregs, copies, next, st, st')
  {
    hide OperandValue;
    forall i | 0 <= i < |copies|
      ensures OperandValue(arch, X, vregs, copies[i].value, mid.regs)
        == OperandValue(arch, X, vregs, copies[i].value, st.regs)
    {
      SameOperand(arch, X, vregs, copies[i].value, n3, st, mid);
    }
  }

  lemma OneEdge(arch: Arch, X: Externals, vregs: VRegs, blocks: seq<MachineBlock>, count: nat, fresh_: nat,
                via: BlockId, copies: seq<PhiCopy>,
                next: nat, n2: nat, n3: nat, target: BlockId, st: State, mid: State)
    requires count <= fresh_ && target < count && next <= n2 <= n3 && InRange(arch, mid.regs)
    requires Undisturbed(n3, st, mid)
    requires UsableCopies(copies, vregs, n2) && EdgeVia(arch, blocks, fresh_, via, n2, copies, vregs, target)
    ensures var (exit, st') := if count <= via < |blocks| then RunBlock(arch, X, blocks[via].insts, mid)
      else (Goes(via), mid);
      exit == Goes(target) && PhisAssigned(arch, X, vregs, copies, next, st, st')
  {
    hide RunBlock, InRange, OperandValue, UsableCopies;
    if copies != [] {
      var (exit, st') := RunBlock(arch, X, blocks[via].insts, mid);
      hide PhisAssigned;
      PhisAfterQuietCode(arch, X, vregs, copies, next, n2, n3, st, mid, st');
    }
  }

  lemma ConditionalEdges(arch: Arch, blocks: seq<MachineBlock>, count: nat, c2: nat, code: seq<Inst>, next: nat,
                         n2: nat, n3: nat,
                         phis: PhiTable, pred: nat, thenBlock: BlockId, cond: Condition, otherwise: BlockId,
                           vregs: VRegs, trueId: BlockId, falseId: BlockId)
    requires count <= c2 && thenBlock < count && otherwise < count && next <= n2 <= n3
    requires UsableCopies(EdgeCopies(phis, pred, thenBlock), vregs, next)
    requires UsableCopies(EdgeCopies(phis, pred, otherwise), vregs, n2)
    requires EdgeVia(arch, blocks, count, trueId, next, EdgeCopies(phis, pred, thenBlock), vregs, thenBlock)
    requires EdgeVia(arch, blocks, c2, falseId, n2, EdgeCopies(phis, pred, otherwise), vregs, otherwise)
    requires Chooses(arch, code, n3, cond, vregs, trueId, falseId)
    ensures EdgesAreSimultaneous(arch, blocks, count, code, next, phis, pred, thenBlock, When(cond, otherwise), vregs)
  {
    hide RunBlock, InRange, PhisAssigned, EdgeCopies, UsableCopies, EdgeVia, ConditionHolds, ConditionTrusted,
      Undisturbed;
    var kind := When(cond, otherwise);
    forall X, st: State | InRange(arch, st.regs) && BranchTrusted(arch, X, vregs, kind, st.regs)
      ensures var dest := Destination(arch, X, vregs, thenBlock, kind, st.regs);
        var (exit, st') := TakeEdge(arch, X, blocks, count, code, st);
        exit == Goes(dest) && PhisAssigned(arch, X, vregs, EdgeCopies(phis, pred, dest), next, st, st')
    {
      var (_, mid) := RunBlock(arch, X, code, st);
      if ConditionHolds(arch, X, vregs, cond, st.regs) {
        OneEdge(arch, X, vregs, blocks, count, count, trueId, EdgeCopies(phis, pred, thenBlock), next, next, n3,
          thenBlock, st, mid);
      } else {
        OneEdge(arch, X, vregs, blocks, count, c2, falseId, EdgeCopies(phis, pred, otherwise), next, n2, n3, otherwise,
          st, mid);
      }
    }
  }

  // ---------------------------------------------------------------- in the finished function

  lemma FindByIndex(blocks: seq<MachineBlock>, id: BlockId)
    requires IdsAreIndices(blocks) && id < |blocks|
    ensures Find(blocks, id) == At(id)
  {
    assert blocks[id].id == id && forall j :: 0 <= j < id ==> blocks[j].id != id;
  }

  /** Transit blocks stay and later blocks do not matter: what was said of a branch when it was
      lowered holds in every later state of the function. */
  lemma LaterBlocks(arch: Arch, a: seq<MachineBlock>, b: seq<MachineBlock>, fresh_: nat, code: seq<Inst>, next: nat,
                    phis: PhiTable, pred: nat, thenBlock: BlockId, kind: BranchKind, vregs: VRegs)
    requires EdgesAreSimultaneous(arch, a, fresh_, code, next, phis, pred, thenBlock, kind, vregs)
    requires |a| <= |b| && forall j :: fresh_ <= j < |a| ==> b[j] == a[j]
    requires thenBlock < fresh_ && (kind.When? ==> kind.otherwise < fresh_)
    ensures EdgesAreSimultaneous(arch, b, fresh_, code, next, phis, pred, thenBlock, kind, vregs)
  {
    hide RunBlock, InRange, PhisAssigned, EdgeCopies, ConditionHolds, ConditionTrusted;
    forall X, st: State | InRange(arch, st.regs) && BranchTrusted(arch, X, vregs, kind, st.regs)
      ensures TakeEdge(arch, X, b, fresh_, code, st) == TakeEdge(arch, X, a, fresh_, code, st)
    {
      var dest := Destination(arch, X, vregs, thenBlock, kind, st.regs);
      assert TakeEdge(arch, X, a, fresh_, code, st).0 == Goes(dest);
    }
  }

  /** Every phi of the block that has a value for the predecessor takes the one it had in `st`; no other
      allocated register and no memory changes. */
  ghost predicate PhisTake(arch: Arch, X: Externals, vregs: VRegs, infos: seq<PhiInfo>, pred: nat, next: nat, st: State,
                           st': State) {
    && st'.mem == st.mem
    && (forall i :: 0 <= i < |infos| && pred in infos[i].incomings ==>
         st'.regs[Virtual(infos[i].dst)] == OperandValue(arch, X, vregs, infos[i].incomings[pred], st.regs))
    && (forall r: Register :: Allocated(r, next) && !Feeds(infos, pred, r) ==> st'.regs[r] == st.regs[r])
  }

  ghost predicate Feeds(infos: seq<PhiInfo>, pred: nat, r: Register) {
    exists i :: 0 <= i < |infos| && pred in infos[i].incomings && r == Virtual(infos[i].dst)
  }

  function PhisOf(phis: PhiTable, b: BlockId): seq<PhiInfo> {
    if b in phis then phis[b] else []
  }

  /** Making the copies of an edge at once is every phi taking its value. */
  lemma CopiesAreTaken(arch: Arch, X: Externals, vregs: VRegs, phis: PhiTable, pred: nat, dest: BlockId, next: nat,
                       st: State, st': State)
    requires UsableTable(phis, vregs, next)
    requires PhisAssigned(arch, X, vregs, EdgeCopies(phis, pred, dest), next, st, st')
    ensures PhisTake(arch, X, vregs, PhisOf(phis, dest), pred, next, st, st')
  {
    hide OperandValue;
    var infos, copies := PhisOf(phis, dest), EdgeCopies(phis, pred, dest);
    assert copies == CopiesFrom(infos, pred);
    CopiesExact(infos, pred, vregs, next);
    forall i | 0 <= i < |infos| && pred in infos[i].incomings
      ensures st'.regs[Virtual(infos[i].dst)] == OperandValue(arch, X, vregs, infos[i].incomings[pred], st.regs)
    {
      assert PhiCopy(infos[i].dst, infos[i].incomings[pred]) in copies;
    }
    forall r: Register | Allocated(r, next) && !Feeds(infos, pred, r) ensures st'.regs[r] == st.regs[r] {
      assert forall c :: c in copies ==> Virtual(c.dst) != r;
    }
  }

  /** After that many block steps control is at the target, whose phis have taken their values at once
      from a state on the way. */
  ghost predicate Arrives(arch: Arch, X: Externals, blocks: seq<MachineBlock>, i: nat, st: State, steps: nat,
                          dest: BlockId, phis: PhiTable, pred: nat, vregs: VRegs, next: nat, mid: State) {
    var (place, st') := Run(arch, X, blocks, At(i), st, steps);
    place == At(dest) && PhisTake(arch, X, vregs, PhisOf(phis, dest), pred, next, mid, st')
  }

  /** In the finished function, which has kept the transit blocks and may have gained more, one or
      two block steps from a block that ends in the branch code bring control to the IR successor,
      with its phis assigned from the values that the block's other instructions left. */
  lemma BranchRuns(arch: Arch, X: Externals, lowered: seq<MachineBlock>, blocks: seq<MachineBlock>, i: nat, fresh_: nat,
                   pre: seq<Inst>, code: seq<Inst>, next: nat, phis: PhiTable, pred: nat, thenBlock: BlockId,
                   kind: BranchKind, vregs: VRegs, st: State)
    requires EdgesAreSimultaneous(arch, lowered, fresh_, code, next, phis, pred, thenBlock, kind, vregs)
    requires fresh_ <= |lowered| <= |blocks| && forall j :: fresh_ <= j < |lowered| ==> blocks[j] == lowered[j]
    requires IdsAreIndices(blocks) && thenBlock < fresh_ && (kind.When? ==> kind.otherwise < fresh_)
    requires i < |blocks| && blocks[i].insts == pre + code && Straight(pre) && InRange(arch, st.regs)
    requires BranchTrusted(arch, X, vregs, kind, Exec(arch, X, pre, st).regs) && UsableTable(phis, vregs, next)
    ensures var mid := Exec(arch, X, pre, st);
      var dest := Destination(arch, X, vregs, thenBlock, kind, mid.regs);
      Arrives(arch, X, blocks, i, st, 1, dest, phis, pred, vregs, next, mid)
        || Arrives(arch, X, blocks, i, st, 2, dest, phis, pred, vregs, next, mid)
  {
    hide RunBlock, InRange, PhisAssigned, PhisTake, EdgeCopies, PhisOf, UsableTable, Find, Run, ConditionHolds,
      ConditionTrusted, Exec, EdgesAreSimultaneous, Straight;
    LaterBlocks(arch, lowered, blocks, fresh_, code, next, phis, pred, thenBlock, kind, vregs);
    ExecInRange(arch, X, pre, st);
    RunThrough(arch, X, pre, code, st);
    var start := Exec(arch, X, pre, st);
    var dest := Destination(arch, X, vregs, thenBlock, kind, start.regs);
    EdgeTaken(arch, X, blocks, fresh_, code, next, phis, pred, thenBlock, kind, vregs, start);
    var (exit, mid) := RunBlock(arch, X, code, start);
    FindByIndex(blocks, dest);
    RunUnfold(arch, X, blocks, i, st, 1);
    RunNothing(arch, X, blocks, MachineCleanup.Next(blocks, i, exit), mid);
    if exit.Goes? && fresh_ <= exit.dest < |blocks| {
      FindByIndex(blocks, exit.dest);
      var (exit2, st') := RunBlock(arch, X, blocks[exit.dest].insts, mid);
      RunUnfold(arch, X, blocks, i, st, 2);
      RunUnfold(arch, X, blocks, exit.dest, mid, 1);
      RunNothing(arch, X, blocks, MachineCleanup.Next(blocks, exit.dest, exit2), st');
      assert Run(arch, X, blocks, At(i), st, 2) == (At(dest), st');
      CopiesAreTaken(arch, X, vregs, phis, pred, dest, next, start, st');
    } else {
      assert Run(arch, X, blocks, At(i), st, 1) == (At(dest), mid);
      CopiesAreTaken(arch, X, vregs, phis, pred, dest, next, start, mid);
    }
  }

  lemma EdgeTaken(arch: Arch, X: Externals, blocks: seq<MachineBlock>, fresh_: nat, code: seq<Inst>, next: nat,
                  phis: PhiTable, pred: nat, thenBlock: BlockId, kind: BranchKind, vregs: VRegs, st: State)
    requires EdgesAreSimultaneous(arch, blocks, fresh_, code, next, phis, pred, thenBlock, kind, vregs)
    requires InRange(arch, st.regs) && BranchTrusted(arch, X, vregs, kind, st.regs)
    ensures var dest := Destination(arch, X, vregs, thenBlock, kind, st.regs);
      var (exit, st') := TakeEdge(arch, X, blocks, fresh_, code, st);
      exit == Goes(dest) && PhisAssigned(arch, X, vregs, EdgeCopies(phis, pred, dest), next, st, st')
  {
    hide InRange, PhisAssigned, BranchTrusted, Destination, TakeEdge, EdgeCopies;
  }

  lemma RunNothing(arch: Arch, X: Externals, blocks: seq<MachineBlock>, place: Place, st: State)
    ensures Run(arch, X, blocks, place, st, 0) == (place, st)
  {
  }
}
