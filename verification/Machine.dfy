/** The RISC-V instructions the compiler emits (src/mir/rv32im.rs, src/mir/rv64i.rs), their
    register interface, and their meaning after the RISC-V Unprivileged ISA (20191213),
    sections 2.4, 5.2, 7.1 and 7.2. */
module Machine {
  import opened Bits

  datatype Arch = RV32 | RV64

  function Xlen(arch: Arch): nat {
    if arch == RV32 then 32 else 64
  }

  type BlockId = nat

  datatype Register = Virtual(id: nat) | Physical(index: nat)

  // Physical registers by their x-number.
  const ZERO := Physical(0)
  const RA := Physical(1)
  const SP := Physical(2)
  const A0 := Physical(10)
  const A1 := Physical(11)

  datatype RegOp =
    | Add | Sub | Addw | Subw | Xor | Or | And
    | Sll | Srl | Sra | Sllw | Srlw | Sraw | Slt | Sltu
    | Mul | Mulw | Div | Divu | Rem | Remu | Divw | Divuw | Remw | Remuw

  datatype ImmOp =
    | Addi | Addiw | Xori | Ori | Andi
    | Slli | Srli | Srai | Slliw | Srliw | Sraiw | Sltiu

  datatype BranchOp = Beq | Bne | Blt | Bge | Bltu | Bgeu

  datatype Inst =
    | RegReg(op: RegOp, rd: Register, rs1: Register, rs2: Register)
    | RegImm(iop: ImmOp, rd: Register, rs1: Register, imm: int)
    | Mv(rd: Register, rs: Register)
    | Li(rd: Register, imm: int)
    | La(rd: Register, symbol: nat)
    | Load(width: nat, unsigned: bool, rd: Register, rs1: Register, imm: int)
    | Store(width: nat, rs1: Register, rs2: Register, imm: int)
    | StoreOutgoingArg(rs: Register, offset: int, rt: Register)
    | LoadIncomingArg(rd: Register, offset: int)
    | GetStackAddr(rd: Register, slot: nat)
    | Call(func: nat, numArgs: nat)
    | Branch(bop: BranchOp, rs1: Register, rs2: Register, dest: BlockId)
    | Jal(rd: Register, dest: BlockId)
    | Ret

  /** The registers a call may overwrite: ra, a0-a7 and t0-t6. */
  const CALL_CLOBBERS: seq<Register> :=
    [Physical(1), Physical(10), Physical(11), Physical(12), Physical(13), Physical(14), Physical(15),
     Physical(16), Physical(17), Physical(5), Physical(6), Physical(7), Physical(28), Physical(29),
     Physical(30), Physical(31)]

  const ARG_REGS: seq<Register> :=
    [Physical(10), Physical(11), Physical(12), Physical(13), Physical(14), Physical(15), Physical(16), Physical(17)]

  function DefRegs(inst: Inst): seq<Register> {
    match inst
    case RegReg(_, rd, _, _) => [rd]
    case RegImm(_, rd, _, _) => [rd]
    case Mv(rd, _) => [rd]
    case Li(rd, _) => [rd]
    case La(rd, _) => [rd]
    case Load(_, _, rd, _, _) => [rd]
    case Store(_, _, _, _) => []
    case StoreOutgoingArg(_, _, rt) => [rt]
    case LoadIncomingArg(rd, _) => [rd]
    case GetStackAddr(rd, _) => [rd]
    case Call(_, _) => CALL_CLOBBERS
    case Branch(_, _, _, _) => []
    case Jal(rd, _) => [rd]
    case Ret => []
  }

  function UseRegs(inst: Inst): seq<Register> {
    match inst
    case RegReg(_, _, rs1, rs2) => [rs1, rs2]
    case RegImm(_, _, rs1, _) => [rs1]
    case Mv(_, rs) => [rs]
    case Li(_, _) => []
    case La(_, _) => []
    case Load(_, _, _, rs1, _) => [rs1]
    case Store(_, rs1, rs2, _) => [rs1, rs2]
    case StoreOutgoingArg(rs, _, _) => [SP, rs]
    case LoadIncomingArg(_, _) => [SP]
    case GetStackAddr(_, _) => [SP]
    case Call(_, n) => ARG_REGS[..if n < 8 then n else 8]
    case Branch(_, rs1, rs2, _) => [rs1, rs2]
    case Jal(_, _) => []
    case Ret => [RA, A0, A1]
  }

  predicate IsTerminator(inst: Inst) {
    inst.Branch? || inst.Jal? || inst.Ret?
  }

  /** Code that control runs through from end to end. */
  predicate Straight(insts: seq<Inst>) {
    forall i :: 0 <= i < |insts| ==> !IsTerminator(insts[i])
  }

  function Successors(inst: Inst): seq<BlockId> {
    match inst
    case Branch(_, _, _, dest) => [dest]
    case Jal(_, dest) => [dest]
    case _ => []
  }

  /** The (destination, source) pair of an instruction that only copies a register. */
  datatype MoveView = NotAMove | Move(dst: Register, src: Register)

  function AsMove(inst: Inst): MoveView {
    match inst
    case Mv(rd, rs) => Move(rd, rs)
    case RegImm(op, rd, rs1, imm) =>
      if (op == Addi || op == Xori || op == Ori) && imm == 0 then Move(rd, rs1)
      else if op == Andi && imm == -1 then Move(rd, rs1)
      else NotAMove
    case _ => NotAMove
  }

  // ---------------------------------------------------------------- encoding

  predicate FitsSigned12(imm: int) {
    -0x800 <= imm < 0x800
  }

  /** The W forms, which only RV64 has. */
  predicate IsWordOp(op: RegOp) {
    op.Addw? || op.Subw? || op.Sllw? || op.Srlw? || op.Sraw? || op.Mulw? || op.Divw? || op.Divuw? || op.Remw?
      || op.Remuw?
  }

  /** The instruction exists on the target and its immediate fits its field: 12 bits for an I- or S-type
      immediate, the register width for a shift amount, 32 in W forms. `li` stands for the sequence that
      builds a 32-bit number. */
  predicate Encodable(arch: Arch, inst: Inst) {
    match inst
    case RegReg(op, _, _, _) => IsWordOp(op) ==> arch == RV64
    case RegImm(op, _, _, imm) =>
      (match op
       case Slli => 0 <= imm < Xlen(arch)
       case Srli => 0 <= imm < Xlen(arch)
       case Srai => 0 <= imm < Xlen(arch)
       case Slliw => arch == RV64 && 0 <= imm < 32
       case Srliw => arch == RV64 && 0 <= imm < 32
       case Sraiw => arch == RV64 && 0 <= imm < 32
       case Addiw => arch == RV64 && FitsSigned12(imm)
       case _ => FitsSigned12(imm))
    case Li(_, imm) => -0x8000_0000 <= imm < 0x8000_0000
    case Load(_, _, _, _, imm) => FitsSigned12(imm)
    case Store(_, _, _, imm) => FitsSigned12(imm)
    case _ => true
  }

  /** What was added to the code can be encoded. */
  ghost predicate Encoded(arch: Arch, before: seq<Inst>, after: seq<Inst>) {
    before <= after && forall inst :: inst in after[|before|..] ==> Encodable(arch, inst)
  }

  lemma EncodedNothing(arch: Arch, code: seq<Inst>)
    ensures Encoded(arch, code, code)
  {
  }

  lemma EncodedOne(arch: Arch, before: seq<Inst>, after: seq<Inst>, inst: Inst)
    requires Encoded(arch, before, after) && Encodable(arch, inst)
    ensures Encoded(arch, before, after + [inst])
  {
    assert (after + [inst])[|before|..] == after[|before|..] + [inst];
    hide Encodable;
  }

  lemma EncodedFirst(arch: Arch, code: seq<Inst>, inst: Inst)
    requires Encodable(arch, inst)
    ensures Encoded(arch, code, code + [inst])
  {
    EncodedNothing(arch, code);
    EncodedOne(arch, code, code, inst);
  }

  lemma EncodedThen(arch: Arch, a: seq<Inst>, b: seq<Inst>, c: seq<Inst>)
    requires a <= b && b <= c && Encoded(arch, a, b)
    ensures Encoded(arch, b, c) <==> Encoded(arch, a, c)
  {
    assert c[|a|..] == b[|a|..] + c[|b|..];
    hide Encodable;
  }

  predicate IsJumpTo(inst: Inst, target: BlockId) {
    inst.Jal? && inst.rd == ZERO && inst.dest == target
  }

  // ---------------------------------------------------------------- meaning

  /** The result of a register-register operation on XLEN-bit patterns a and b. */
  function EvalRegOp(arch: Arch, op: RegOp, a: nat, b: nat): (r: nat) {
    var x := Xlen(arch);
    match op
    case Add => Low(x, a + b)
    case Sub => Low(x, a - b)
    case Addw => Word(arch, a + b)
    case Subw => Word(arch, a - b)
    case Xor => Low(x, Bitwise(XorOp, a, b))
    case Or => Low(x, Bitwise(OrOp, a, b))
    case And => Low(x, Bitwise(AndOp, a, b))
    case Sll => Low(x, a * Pow2(b % x))
    case Srl => NoNegativeQuotient(a, Pow2(b % x)); a / Pow2(b % x)
    case Sra => Low(x, Signed(x, a) / Pow2(b % x))
    case Sllw => Word(arch, a * Pow2(b % 32))
    case Srlw => Word(arch, Low(32, a) / Pow2(b % 32))
    case Sraw => Word(arch, Signed(32, a) / Pow2(b % 32))
    case Slt => if Signed(x, a) < Signed(x, b) then 1 else 0
    case Sltu => if a < b then 1 else 0
    case Mul => Low(x, a * b)
    case Mulw => Word(arch, a * b)
    case Div => Low(x, DivS(x, a, b))
    case Divu => DivU(x, a, b)
    case Rem => Low(x, RemS(x, a, b))
    case Remu => RemU(x, a, b)
    case Divw => Word(arch, DivS(32, a, b))
    case Divuw => Word(arch, DivU(32, Low(32, a), Low(32, b)))
    case Remw => Word(arch, RemS(32, a, b))
    case Remuw => Word(arch, RemU(32, Low(32, a), Low(32, b)))
  }

  lemma NoNegativeQuotient(a: nat, b: int)
    requires b > 0
    ensures a / b >= 0
  {
  }

  function EvalImmOp(arch: Arch, op: ImmOp, a: nat, imm: int): (r: nat) {
    var x := Xlen(arch);
    match op
    case Addi => Low(x, a + imm)
    case Addiw => Word(arch, a + imm)
    case Xori => Low(x, Bitwise(XorOp, a, Low(x, imm)))
    case Ori => Low(x, Bitwise(OrOp, a, Low(x, imm)))
    case Andi => Low(x, Bitwise(AndOp, a, Low(x, imm)))
    case Slli => Low(x, a * Pow2(imm % x))
    case Srli => NoNegativeQuotient(a, Pow2(imm % x)); a / Pow2(imm % x)
    case Srai => Low(x, Signed(x, a) / Pow2(imm % x))
    case Slliw => Word(arch, a * Pow2(imm % 32))
    case Srliw => Word(arch, Low(32, a) / Pow2(imm % 32))
    case Sraiw => Word(arch, Signed(32, a) / Pow2(imm % 32))
    case Sltiu => if a < Low(x, imm) then 1 else 0
  }

  /** A 32-bit result sign-extended to XLEN bits, as every W-form instruction leaves it. */
  function Word(arch: Arch, v: int): nat {
    Low(Xlen(arch), Signed(32, v))
  }

  /** DIV: division by zero yields -1, and the overflowing quotient wraps. */
  function DivS(k: nat, a: int, b: int): int
    requires k >= 1
  {
    if Signed(k, b) == 0 then -1 else TruncDiv(Signed(k, a), Signed(k, b))
  }

  function RemS(k: nat, a: int, b: int): int
    requires k >= 1
  {
    if Signed(k, b) == 0 then Signed(k, a) else TruncRem(Signed(k, a), Signed(k, b))
  }

  function DivU(k: nat, a: nat, b: nat): nat {
    if b == 0 then Pow2(k) - 1 else a / b
  }

  function RemU(k: nat, a: nat, b: nat): nat {
    if b == 0 then a else a % b
  }

  predicate BranchTaken(arch: Arch, op: BranchOp, a: nat, b: nat) {
    var x := Xlen(arch);
    match op
    case Beq => a == b
    case Bne => a != b
    case Blt => Signed(x, a) < Signed(x, b)
    case Bge => Signed(x, a) >= Signed(x, b)
    case Bltu => a < b
    case Bgeu => a >= b
  }

  type Regs = m: imap<Register, int> | forall r: Register :: r in m
    ghost witness imap r: Register :: 0

  type Memory = map<int, int>

  datatype State = State(regs: Regs, mem: Memory)

  /** What the code outside the function decides: symbol addresses, memory widths, stack slots
      and the effect of calls. Every theorem holds for any choice of these. */
  datatype Externals = Externals(
    symbolAddr: nat -> int,
    slotAddr: (int, nat) -> int,
    load: (Memory, int, nat, bool) -> int,
    store: (Memory, int, nat, int) -> Memory,
    argSlot: (int, int) -> int,
    callMem: (nat, seq<int>, Memory) -> Memory,
    callReg: (nat, seq<int>, Memory, Register) -> int)

  ghost function Read(regs: Regs, r: Register): int {
    if r == ZERO then 0 else regs[r]
  }

  ghost function Write(arch: Arch, regs: Regs, r: Register, v: int): Regs {
    if r == ZERO then regs else regs[r := Low(Xlen(arch), v)]
  }

  ghost predicate InRange(arch: Arch, regs: Regs) {
    forall r: Register :: 0 <= regs[r] < Pow2(Xlen(arch))
  }

  /** The bit pattern held by a register. */
  ghost function Pattern(arch: Arch, regs: Regs, r: Register): nat {
    Low(Xlen(arch), Read(regs, r))
  }

  /** The value an instruction with a single destination leaves there. */
  ghost function Result(arch: Arch, X: Externals, inst: Inst, st: State): int {
    var regs := st.regs;
    match inst
    case RegReg(op, _, rs1, rs2) => EvalRegOp(arch, op, Pattern(arch, regs, rs1), Pattern(arch, regs, rs2))
    case RegImm(op, _, rs1, imm) => EvalImmOp(arch, op, Pattern(arch, regs, rs1), imm)
    case Mv(_, rs) => Read(regs, rs)
    case Li(_, imm) => imm
    case La(_, symbol) => X.symbolAddr(symbol)
    case Load(width, unsigned, _, rs1, imm) =>
      X.load(st.mem, Low(Xlen(arch), Read(regs, rs1) + imm), width, unsigned)
    case LoadIncomingArg(_, offset) =>
      X.load(st.mem, X.argSlot(Read(regs, SP), offset), Xlen(arch) / 8, false)
    case GetStackAddr(_, slot) => X.slotAddr(Read(regs, SP), slot)
    case _ => 0
  }

  ghost function MemoryAfter(arch: Arch, X: Externals, inst: Inst, st: State): Memory {
    var regs := st.regs;
    match inst
    case Store(width, rs1, rs2, imm) =>
      X.store(st.mem, Low(Xlen(arch), Read(regs, rs1) + imm), width, Read(regs, rs2))
    case StoreOutgoingArg(rs, offset, _) =>
      X.store(st.mem, X.argSlot(Read(regs, SP), offset), Xlen(arch) / 8, Read(regs, rs))
    case Call(func, n) => X.callMem(func, CallArgs(regs, n), st.mem)
    case _ => st.mem
  }

  /** The meaning of one instruction, control transfer aside. */
  ghost function Step(arch: Arch, X: Externals, inst: Inst, st: State): State {
    var regs := match inst
      case Call(func, n) => Clobber(arch, X, func, CallArgs(st.regs, n), st.mem, st.regs)
      case _ =>
        if |DefRegs(inst)| == 1 then Write(arch, st.regs, DefRegs(inst)[0], Result(arch, X, inst, st)) else st.regs;
    State(regs, MemoryAfter(arch, X, inst, st))
  }

  ghost function CallArgs(regs: Regs, n: nat): seq<int> {
    ReadAll(regs, ARG_REGS[..if n < 8 then n else 8])
  }

  ghost function ReadAll(regs: Regs, rs: seq<Register>): seq<int> {
    seq(|rs|, i requires 0 <= i < |rs| => Read(regs, rs[i]))
  }

  ghost function Clobber(arch: Arch, X: Externals, func: nat, args: seq<int>, mem: Memory, regs: Regs): Regs {
    imap r: Register :: if r in CALL_CLOBBERS then Low(Xlen(arch), X.callReg(func, args, mem, r)) else regs[r]
  }

  lemma StepInRange(arch: Arch, X: Externals, inst: Inst, st: State)
    requires InRange(arch, st.regs)
    ensures InRange(arch, Step(arch, X, inst, st).regs)
  {
    hide Result, MemoryAfter, DefRegs, CallArgs, Pow2, CALL_CLOBBERS;
  }

  lemma ResultUsesOnly(arch: Arch, X: Externals, inst: Inst, s: State, t: State)
    requires s.mem == t.mem
    requires forall r :: r in UseRegs(inst) ==> Read(s.regs, r) == Read(t.regs, r)
    ensures Result(arch, X, inst, s) == Result(arch, X, inst, t)
    ensures MemoryAfter(arch, X, inst, s) == MemoryAfter(arch, X, inst, t)
  {
    hide EvalRegOp, EvalImmOp;
    var uses := UseRegs(inst);
    assert |uses| > 0 ==> uses[0] in uses;
    assert |uses| > 1 ==> uses[1] in uses;
    if inst.Call? {
      assert CallArgs(s.regs, inst.numArgs) == CallArgs(t.regs, inst.numArgs) by {
        forall i | 0 <= i < |uses| ensures Read(s.regs, uses[i]) == Read(t.regs, uses[i]) {
          assert uses[i] in uses;
        }
      }
    }
  }

  lemma CallUsesOnly(regs: Regs, regs': Regs, func: nat, n: nat)
    requires forall r :: r in UseRegs(Call(func, n)) ==> Read(regs, r) == Read(regs', r)
    ensures CallArgs(regs, n) == CallArgs(regs', n)
  {
    var uses := UseRegs(Call(func, n));
    forall i | 0 <= i < |uses| ensures Read(regs, uses[i]) == Read(regs', uses[i]) {
      assert uses[i] in uses;
    }
  }

  lemma ClobberFrame(arch: Arch, X: Externals, func: nat, args: seq<int>, mem: Memory, regs: Regs, regs': Regs,
                     r: Register)
    ensures r in CALL_CLOBBERS ==>
              Read(Clobber(arch, X, func, args, mem, regs), r) == Read(Clobber(arch, X, func, args, mem, regs'), r)
    ensures r !in CALL_CLOBBERS ==> Clobber(arch, X, func, args, mem, regs)[r] == regs[r]
  {
  }

  /** The register interface is sound: an instruction writes only what DefRegs names, and its
      effect is decided by what UseRegs names and by memory. */
  lemma UseDefSound(arch: Arch, X: Externals, inst: Inst, s: State, t: State)
    requires s.mem == t.mem
    requires forall r :: r in UseRegs(inst) ==> Read(s.regs, r) == Read(t.regs, r)
    ensures Step(arch, X, inst, s).mem == Step(arch, X, inst, t).mem
    ensures forall r :: r in DefRegs(inst) ==>
      Read(Step(arch, X, inst, s).regs, r) == Read(Step(arch, X, inst, t).regs, r)
    ensures forall r: Register :: r !in DefRegs(inst) ==> Step(arch, X, inst, s).regs[r] == s.regs[r]
  {
    ResultUsesOnly(arch, X, inst, s, t);
    if inst.Call? {
      CallUsesOnly(s.regs, t.regs, inst.func, inst.numArgs);
      forall r: Register
        ensures r in DefRegs(inst) ==> Read(Step(arch, X, inst, s).regs, r) == Read(Step(arch, X, inst, t).regs, r)
        ensures r !in DefRegs(inst) ==> Step(arch, X, inst, s).regs[r] == s.regs[r]
      {
        ClobberFrame(arch, X, inst.func, CallArgs(s.regs, inst.numArgs), s.mem, s.regs, t.regs, r);
        hide CALL_CLOBBERS, Clobber;
      }
    } else {
      StepSingle(arch, X, inst, s, t);
    }
  }

  lemma StepSingle(arch: Arch, X: Externals, inst: Inst, s: State, t: State)
    requires !inst.Call? && Result(arch, X, inst, s) == Result(arch, X, inst, t)
    ensures forall r :: r in DefRegs(inst) ==>
      Read(Step(arch, X, inst, s).regs, r) == Read(Step(arch, X, inst, t).regs, r)
    ensures forall r: Register :: r !in DefRegs(inst) ==> Step(arch, X, inst, s).regs[r] == s.regs[r]
  {
    hide Result, MemoryAfter;
  }

  // ---------------------------------------------------------------- straight-line code

  ghost function Exec(arch: Arch, X: Externals, insts: seq<Inst>, st: State): State {
    if insts == [] then st
    else Step(arch, X, insts[|insts| - 1], Exec(arch, X, insts[..|insts| - 1], st))
  }

  lemma {:induction false} ExecAppend(arch: Arch, X: Externals, a: seq<Inst>, b: seq<Inst>, st: State)
    ensures Exec(arch, X, a + b, st) == Exec(arch, X, b, Exec(arch, X, a, st))
  {
    if b == [] {
      assert a + b == a;
    } else {
      assert (a + b)[..|a + b| - 1] == a + b[..|b| - 1];
      ExecAppend(arch, X, a, b[..|b| - 1], st);
    }
  }

  lemma {:induction false} ExecInRange(arch: Arch, X: Externals, insts: seq<Inst>, st: State)
    requires InRange(arch, st.regs)
    ensures InRange(arch, Exec(arch, X, insts, st).regs)
  {
    if insts != [] {
      ExecInRange(arch, X, insts[..|insts| - 1], st);
      StepInRange(arch, X, insts[|insts| - 1], Exec(arch, X, insts[..|insts| - 1], st));
    }
  }

  // ---------------------------------------------------------------- functions under construction

  datatype MachineBlock = MachineBlock(id: BlockId, insts: seq<Inst>)

  class MachineFunction {
    var blocks: seq<MachineBlock>
    var nextVreg: nat

    constructor ()
      ensures blocks == [] && nextVreg == 0
    {
      blocks, nextVreg := [], 0;
    }

    method NewVreg() returns (r: Register)
      modifies this`nextVreg
      ensures r == Virtual(old(nextVreg)) && nextVreg == old(nextVreg) + 1
    {
      r := Virtual(nextVreg);
      nextVreg := nextVreg + 1;
    }
  }

  /** A register the function has already named: physical, or virtual below the counter. */
  predicate Allocated(r: Register, next: nat) {
    r.Virtual? ==> r.id < next
  }
}
