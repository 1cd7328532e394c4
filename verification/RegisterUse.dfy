/** That the use lists name no more than instructions read, and the successor lists no more than they
    jump to (src/mir/rv32im.rs, src/mir/rv64i.rs). */
module RegisterUse {
  import opened Bits
  import opened Machine
  import CoreInts
  import MachineCleanup

  // ---------------------------------------------------------------- which registers matter

  /** Memory, a register the instruction writes or the way it branches comes out differently. */
  ghost predicate Differs(arch: Arch, X: Externals, inst: Inst, s: State, t: State) {
    || Step(arch, X, inst, s).mem != Step(arch, X, inst, t).mem
    || (exists r :: r in DefRegs(inst) && Read(Step(arch, X, inst, s).regs, r) != Read(Step(arch, X, inst, t).regs, r))
    || (inst.Branch? && Taken(arch, inst, s.regs) != Taken(arch, inst, t.regs))
  }

  ghost predicate Taken(arch: Arch, inst: Inst, regs: Regs)
    requires inst.Branch?
  {
    BranchTaken(arch, inst.bop, Pattern(arch, regs, inst.rs1), Pattern(arch, regs, inst.rs2))
  }

  /** In some surroundings and some state the instruction does something else when only r changes. */
  ghost predicate Matters(arch: Arch, inst: Inst, r: Register) {
    exists X, s: State, v: nat :: Shows(arch, X, inst, r, s, v)
  }

  ghost predicate Shows(arch: Arch, X: Externals, inst: Inst, r: Register, s: State, v: nat) {
    InRange(arch, s.regs) && v < Pow2(Xlen(arch)) && Differs(arch, X, inst, s, State(s.regs[r := v], s.mem))
  }

  /** Operators that give one answer whenever their operands are equal. */
  predicate Cancels(op: RegOp) {
    op.Sub? || op.Subw? || op.Xor? || op.Slt? || op.Sltu? || op.Rem? || op.Remu? || op.Remw? || op.Remuw?
  }

  /** Operators that give one answer whatever the right operand, when the left one is zero. */
  predicate ZeroOnTheLeft(op: RegOp) {
    op.And? || op.Mul? || op.Mulw? || op.Sll? || op.Srl? || op.Sra? || op.Sllw? || op.Srlw? || op.Sraw?
      || op.Rem? || op.Remu? || op.Remw? || op.Remuw?
  }

  /** The same for the left operand, when the right one is zero. */
  predicate ZeroOnTheRight(op: RegOp) {
    op.And? || op.Mul? || op.Mulw? || op.Sltu? || op.Div? || op.Divu? || op.Divw? || op.Divuw?
  }

  /** The instructions that name a register and do not depend on it: nothing is written, the sources
      cancel, the zero register or the immediate decides, or the calling convention is meant. */
  predicate Ignores(arch: Arch, inst: Inst) {
    match inst
    case RegReg(op, rd, a, b) =>
      rd == ZERO || (a == b && Cancels(op)) || (a == ZERO && ZeroOnTheLeft(op)) || (b == ZERO && ZeroOnTheRight(op))
    case RegImm(op, rd, _, imm) =>
      var m := Low(Xlen(arch), imm);
      rd == ZERO || (op.Andi? && m == 0) || (op.Ori? && m == Pow2(Xlen(arch)) - 1) || (op.Sltiu? && m == 0)
    case Mv(rd, _) => rd == ZERO
    case Load(_, _, rd, _, _) => rd == ZERO
    case LoadIncomingArg(rd, _) => rd == ZERO
    case GetStackAddr(rd, _) => rd == ZERO
    case Branch(op, a, b, _) => a == b || (b == ZERO && (op.Bltu? || op.Bgeu?))
    case Ret => true
    case _ => false
  }

  // ---------------------------------------------------------------- probes

  ghost function Filled(r: Register, u: int, w: int): Regs {
    imap q: Register :: Chosen(q, r, u, w)
  }

  function Chosen(q: Register, r: Register, u: int, w: int): int {
    if q == r then u else w
  }

  lemma Witness(arch: Arch, X: Externals, inst: Inst, r: Register, u: nat, w: nat, v: nat)
    requires u < Pow2(Xlen(arch)) && w < Pow2(Xlen(arch)) && v < Pow2(Xlen(arch))
    requires var s := State(Filled(r, u, w), map[]); Differs(arch, X, inst, s, State(s.regs[r := v], s.mem))
    ensures Matters(arch, inst, r)
  {
    hide Differs, Pow2;
    assert Shows(arch, X, inst, r, State(Filled(r, u, w), map[]), v);
  }

  lemma Fits(arch: Arch, v: nat)
    requires v <= 64 || v == Pow2(Xlen(arch)) - 1
    ensures v < Pow2(Xlen(arch)) && Low(Xlen(arch), v) == v
    ensures v < 0x8000_0000 ==> Signed(Xlen(arch), v) == v && Low(32, v) == v && Signed(32, v) == v
    ensures v < 0x8000_0000 ==> Word(arch, v) == v
  {
    Pow32();
    Pow64();
    LowSmall(Xlen(arch), v);
    if v < 0x8000_0000 {
      LowSmall(32, v);
    }
    hide Low, Pow2;
  }

  ghost function Ones(arch: Arch): nat {
    Pow2(Xlen(arch)) - 1
  }

  /** What to put in the other source to see that one of them matters. */
  ghost function BesideLeft(arch: Arch, op: RegOp): nat {
    if op.And? then Ones(arch) else if ZeroOnTheRight(op) then 1 else 0
  }

  ghost function BesideRight(arch: Arch, op: RegOp): nat {
    if op.And? then Ones(arch) else if ZeroOnTheLeft(op) then 1 else 0
  }

  ghost function LeftProbe(arch: Arch, op: RegOp): nat {
    if op.Slt? then Ones(arch) else 1
  }

  ghost function BothProbe(arch: Arch, op: RegOp): nat {
    if op.Srl? || op.Sra? then Xlen(arch) else if op.Srlw? || op.Sraw? then 32 else 1
  }

  lemma SmallFits(arch: Arch)
    ensures Low(Xlen(arch), 0) == 0 && Low(Xlen(arch), 1) == 1 && Low(Xlen(arch), 2) == 2
    ensures Low(32, 0) == 0 && Low(32, 1) == 1 && Low(32, 32) == 32
    ensures Low(Xlen(arch), 32) == 32 && Low(Xlen(arch), Xlen(arch)) == Xlen(arch)
    ensures Signed(Xlen(arch), 0) == 0 && Signed(Xlen(arch), 1) == 1 && Signed(Xlen(arch), Xlen(arch)) == Xlen(arch)
    ensures Signed(32, 0) == 0 && Signed(32, 1) == 1 && Signed(32, 32) == 32
    ensures Word(arch, 0) == 0 && Word(arch, 1) == 1 && Word(arch, 2) == 2 && Word(arch, 32) == 32
    ensures Low(Xlen(arch), -1) == Ones(arch) && Word(arch, -1) == Ones(arch) && Signed(Xlen(arch), Ones(arch)) == -1
    ensures Pow2(0) == 1 && Pow2(1) == 2 && Ones(arch) >= 0xFFFF_FFFF && Low(Xlen(arch), Ones(arch)) == Ones(arch)
  {
    hide Word;
    Fits(arch, 0);
    Fits(arch, 1);
    Fits(arch, 2);
    Fits(arch, 32);
    Fits(arch, Xlen(arch));
    Fits(arch, Ones(arch));
    Pow32();
    Pow64();
    MinusOne(arch);
    assert Pow2(0) == 1;
    hide Low, Pow2, Signed;
  }

  lemma MinusOne(arch: Arch)
    ensures Low(Xlen(arch), -1) == Ones(arch) && Word(arch, -1) == Ones(arch) && Signed(Xlen(arch), Ones(arch)) == -1
    ensures Ones(arch) < Pow2(Xlen(arch))
  {
    var x := Xlen(arch);
    Pow32();
    Pow64();
    LowEqual(x, -1, Pow2(x) - 1, -1);
    LowSmall(x, Pow2(x) - 1);
    SignedUnique(32, -1, -1);
    SignedUnique(x, Ones(arch), -1);
    hide Low, Pow2, Signed;
  }

  lemma BitProbes(arch: Arch)
    ensures Bitwise(XorOp, 1, 0) == 1 && Bitwise(OrOp, 1, 0) == 1 && Bitwise(XorOp, 0, 1) == 1
    ensures Bitwise(OrOp, 0, 1) == 1 && Bitwise(OrOp, 1, 1) == 1 && Bitwise(AndOp, 1, 1) == 1
    ensures Bitwise(XorOp, 0, 0) == 0 && Bitwise(OrOp, 0, 0) == 0 && Bitwise(AndOp, 0, 0) == 0
    ensures Bitwise(AndOp, 1, Ones(arch)) == 1 && Bitwise(AndOp, Ones(arch), 1) == 1
    ensures Bitwise(AndOp, 0, Ones(arch)) == 0 && Bitwise(AndOp, Ones(arch), 0) == 0
  {
    hide Pow2, Bitwise, Low, Signed, Word;
    OneBits();
    Fits(arch, 1);
    BitwiseOnes(Xlen(arch), 0);
    BitwiseOnes(Xlen(arch), 1);
    BitwiseZero(AndOp, Ones(arch));
    OnesAndOne(Xlen(arch));
  }

  lemma OneBits()
    ensures Bitwise(XorOp, 1, 0) == 1 && Bitwise(OrOp, 1, 0) == 1 && Bitwise(XorOp, 0, 1) == 1
    ensures Bitwise(OrOp, 0, 1) == 1 && Bitwise(OrOp, 1, 1) == 1 && Bitwise(AndOp, 1, 1) == 1
    ensures Bitwise(XorOp, 0, 0) == 0 && Bitwise(OrOp, 0, 0) == 0 && Bitwise(AndOp, 0, 0) == 0
  {
  }

  lemma OnesAndOne(k: nat)
    requires k >= 1
    ensures Bitwise(AndOp, Pow2(k) - 1, 1) == 1
  {
    assert Pow2(k) == 2 * Pow2(k - 1);
    var h := Pow2(k - 1) - 1;
    hide Pow2;
    assert Pow2(k) - 1 == 2 * h + 1;
    BitwiseZero(AndOp, h);
    OddAndOne(h);
  }

  lemma OddAndOne(h: nat)
    requires Bitwise(AndOp, h, 0) == 0
    ensures Bitwise(AndOp, 2 * h + 1, 1) == 1
  {
  }

  lemma SmallDivisions(arch: Arch, k: nat)
    requires k == 32 || k == Xlen(arch)
    ensures DivS(k, 0, 0) == -1 && DivS(k, 0, 1) == 0 && DivS(k, 1, 1) == 1
    ensures RemS(k, 0, 0) == 0 && RemS(k, 1, 0) == 1 && RemS(k, 1, 1) == 0
    ensures DivU(k, 0, 0) == Pow2(k) - 1 && DivU(k, 0, 1) == 0 && DivU(k, 1, 1) == 1
    ensures RemU(k, 0, 0) == 0 && RemU(k, 1, 0) == 1 && RemU(k, 1, 1) == 0
  {
    hide Low, Pow2, Signed;
    SmallFits(arch);
  }

  lemma OnesOfWord(arch: Arch)
    ensures Word(arch, Pow2(32) - 1) == Ones(arch)
  {
    hide Low, Pow2, Signed;
    MinusOne(arch);
    Pow32();
    LowEqual(32, -1, Pow2(32) - 1, -1);
    SignedUnique(32, Pow2(32) - 1, -1);
  }

  predicate Divides(op: RegOp) {
    op.Div? || op.Divu? || op.Divw? || op.Divuw? || op.Rem? || op.Remu? || op.Remw? || op.Remuw?
  }

  lemma LeftDiffers(arch: Arch, op: RegOp)
    ensures var w := BesideLeft(arch, op);
      Low(Xlen(arch), EvalRegOp(arch, op, 0, w)) != Low(Xlen(arch), EvalRegOp(arch, op, LeftProbe(arch, op), w))
  {
    if Divides(op) {
      LeftDivides(arch, op);
    } else {
      LeftOperates(arch, op);
    }
  }

  lemma LeftDivides(arch: Arch, op: RegOp)
    requires Divides(op)
    ensures var w := BesideLeft(arch, op);
      Low(Xlen(arch), EvalRegOp(arch, op, 0, w)) != Low(Xlen(arch), EvalRegOp(arch, op, 1, w))
  {
    hide Low, Pow2, Signed, Word, Bitwise, DivS, RemS, DivU, RemU;
    SmallFits(arch);
    SmallDivisions(arch, 32);
    SmallDivisions(arch, Xlen(arch));
    OnesOfWord(arch);
  }

  lemma LeftOperates(arch: Arch, op: RegOp)
    requires !Divides(op)
    ensures var w := BesideLeft(arch, op);
      Low(Xlen(arch), EvalRegOp(arch, op, 0, w)) != Low(Xlen(arch), EvalRegOp(arch, op, LeftProbe(arch, op), w))
  {
    hide Low, Pow2, Signed, Word, Bitwise, DivS, RemS, DivU, RemU;
    SmallFits(arch);
    BitProbes(arch);
  }

  lemma RightDiffers(arch: Arch, op: RegOp)
    ensures var w := BesideRight(arch, op);
      Low(Xlen(arch), EvalRegOp(arch, op, w, 0)) != Low(Xlen(arch), EvalRegOp(arch, op, w, 1))
  {
    if Divides(op) {
      RightDivides(arch, op);
    } else {
      RightOperates(arch, op);
    }
  }

  lemma RightDivides(arch: Arch, op: RegOp)
    requires Divides(op)
    ensures var w := BesideRight(arch, op);
      Low(Xlen(arch), EvalRegOp(arch, op, w, 0)) != Low(Xlen(arch), EvalRegOp(arch, op, w, 1))
  {
    hide Low, Pow2, Signed, Word, Bitwise, DivS, RemS, DivU, RemU;
    SmallFits(arch);
    SmallDivisions(arch, 32);
    SmallDivisions(arch, Xlen(arch));
    OnesOfWord(arch);
  }

  lemma RightOperates(arch: Arch, op: RegOp)
    requires !Divides(op)
    ensures var w := BesideRight(arch, op);
      Low(Xlen(arch), EvalRegOp(arch, op, w, 0)) != Low(Xlen(arch), EvalRegOp(arch, op, w, 1))
  {
    hide Low, Pow2, Signed, Word, Bitwise, DivS, RemS, DivU, RemU;
    SmallFits(arch);
    BitProbes(arch);
  }

  lemma BothDiffer(arch: Arch, op: RegOp)
    requires !Cancels(op)
    ensures var v := BothProbe(arch, op);
      Low(Xlen(arch), EvalRegOp(arch, op, 0, 0)) != Low(Xlen(arch), EvalRegOp(arch, op, v, v))
  {
    hide Low, Pow2, Signed, Word, Bitwise, DivS, RemS, DivU, RemU;
    SmallFits(arch);
    BitProbes(arch);
    SmallDivisions(arch, 32);
    SmallDivisions(arch, Xlen(arch));
    OnesOfWord(arch);
  }

  // ---------------------------------------------------------------- instruction by instruction

  /** Loads yield their address, stores and calls record what they are given. */
  ghost function Recorder(): Externals {
    Externals(_ => 0, (sp, _) => sp, (_, addr, _, _) => addr, (_, addr, _, v) => map[0 := addr, 1 := v],
      (sp, _) => sp, (_, args, _) => Recorded(args), (_, _, _, _) => 0)
  }

  function Recorded(args: seq<int>): Memory {
    map i | 0 <= i < |args| :: args[i]
  }

  lemma WritesDiffer(arch: Arch, X: Externals, inst: Inst, s: State, t: State)
    requires !inst.Call? && |DefRegs(inst)| == 1 && DefRegs(inst)[0] != ZERO
    requires Low(Xlen(arch), Result(arch, X, inst, s)) != Low(Xlen(arch), Result(arch, X, inst, t))
    ensures Differs(arch, X, inst, s, t)
  {
    hide Result, MemoryAfter, Low;
    var rd := DefRegs(inst)[0];
    assert Read(Step(arch, X, inst, s).regs, rd) == Low(Xlen(arch), Result(arch, X, inst, s));
    assert Read(Step(arch, X, inst, t).regs, rd) == Low(Xlen(arch), Result(arch, X, inst, t));
    assert rd in DefRegs(inst);
  }

  lemma RegRegMatters(arch: Arch, op: RegOp, rd: Register, a: Register, b: Register, r: Register)
    requires r != ZERO && (r == a || r == b) && !Ignores(arch, RegReg(op, rd, a, b))
    ensures Matters(arch, RegReg(op, rd, a, b), r)
  {
    hide EvalRegOp, Low, Pow2, Matters, BothProbe, LeftProbe, Ones;
    if a == b {
      BothDiffer(arch, op);
      ProbesFit(arch, op);
      RegRegShown(arch, op, rd, a, b, r, 0, BothProbe(arch, op));
    } else if r == a {
      LeftDiffers(arch, op);
      ProbesFit(arch, op);
      RegRegShown(arch, op, rd, a, b, r, BesideLeft(arch, op), LeftProbe(arch, op));
    } else {
      RightDiffers(arch, op);
      ProbesFit(arch, op);
      RegRegShown(arch, op, rd, a, b, r, BesideRight(arch, op), 1);
    }
  }

  /** A register can hold it. */
  ghost predicate Held(arch: Arch, v: nat) {
    v < Pow2(Xlen(arch)) && Low(Xlen(arch), v) == v
  }

  /** 0 or a probe in r, with w beside it. */
  lemma RegRegShown(arch: Arch, op: RegOp, rd: Register, a: Register, b: Register, r: Register, w: nat, v: nat)
    requires r != ZERO && (r == a || r == b) && rd != ZERO
    requires Held(arch, w) && Held(arch, v)
    requires w == 0 || (a != ZERO && b != ZERO)
    requires var x, y := if a == r then 0 else w, if b == r then 0 else w;
      var x', y' := if a == r then v else w, if b == r then v else w;
      Low(Xlen(arch), EvalRegOp(arch, op, x, y)) != Low(Xlen(arch), EvalRegOp(arch, op, x', y'))
    ensures Matters(arch, RegReg(op, rd, a, b), r)
  {
    hide EvalRegOp, Low, Pow2, Matters, Differs, Step;
    Fits(arch, 0);
    var inst := RegReg(op, rd, a, b);
    var s := State(Filled(r, 0, w), map[]);
    WritesDiffer(arch, Recorder(), inst, s, State(s.regs[r := v], s.mem));
    Witness(arch, Recorder(), inst, r, 0, w, v);
  }

  lemma ProbesFit(arch: Arch, op: RegOp)
    ensures Held(arch, 0) && Held(arch, 1) && Held(arch, BesideLeft(arch, op)) && Held(arch, BesideRight(arch, op))
    ensures Held(arch, LeftProbe(arch, op)) && Held(arch, BothProbe(arch, op))
  {
    hide Low, Pow2;
    Fits(arch, 0);
    Fits(arch, 1);
    Fits(arch, 32);
    Fits(arch, Xlen(arch));
    Fits(arch, Ones(arch));
  }

  /** A value beside 0 on which the operator with this immediate gives another result. */
  ghost function ImmProbe(arch: Arch, op: ImmOp, m: nat): nat {
    if op.Andi? || op.Ori? || op.Sltiu? || op.Srli? || op.Srai? || op.Srliw? || op.Sraiw? then Ones(arch) else 1
  }

  lemma ImmDiffers(arch: Arch, op: ImmOp, imm: int)
    requires !Ignores(arch, RegImm(op, Virtual(0), Virtual(0), imm))
    ensures var v := ImmProbe(arch, op, Low(Xlen(arch), imm));
      Low(Xlen(arch), EvalImmOp(arch, op, 0, imm)) != Low(Xlen(arch), EvalImmOp(arch, op, v, imm))
  {
    match op {
      case Addi => NextDiffers(Xlen(arch), imm);
      case Addiw => WordsDiffer(arch, imm);
      case Xori => BitsDiffer(arch, op, imm);
      case Ori => BitsDiffer(arch, op, imm);
      case Andi => BitsDiffer(arch, op, imm);
      case Sltiu => BelowOnes(arch, imm);
      case _ => ShiftsDiffer(arch, op, imm);
    }
  }

  lemma NextDiffers(k: nat, v: int)
    requires k >= 1
    ensures Low(k, v) != Low(k, v + 1) && Low(k, Low(k, v)) != Low(k, Low(k, v + 1))
  {
    LowOfLow(k, k, v);
    LowOfLow(k, k, v + 1);
    assert Pow2(k) == 2 * Pow2(k - 1);
    LowSmall(k, 1);
    LowSmall(k, 0);
    hide Low, Pow2;
    if Low(k, v) == Low(k, v + 1) {
      LowAdd(k, v + 1, v, v, v);
    }
  }

  lemma WordsDiffer(arch: Arch, v: int)
    ensures Low(Xlen(arch), Word(arch, v)) != Low(Xlen(arch), Word(arch, v + 1))
  {
    var x := Xlen(arch);
    NextDiffers(32, v);
    forall n ensures Low(32, Low(x, Word(arch, n))) == Low(32, n) {
      LowOfLow(x, x, Signed(32, n));
      LowOfLow(32, x, Signed(32, n));
      LowSigned(32, n);
      hide Low, Pow2, Signed;
    }
  }

  lemma BitsDiffer(arch: Arch, op: ImmOp, imm: int)
    requires !Ignores(arch, RegImm(op, Virtual(0), Virtual(0), imm)) && (op.Xori? || op.Ori? || op.Andi?)
    ensures var v := ImmProbe(arch, op, Low(Xlen(arch), imm));
      Low(Xlen(arch), EvalImmOp(arch, op, 0, imm)) != Low(Xlen(arch), EvalImmOp(arch, op, v, imm))
  {
    hide Low, Pow2, Bitwise, Signed, Word;
    var x, m := Xlen(arch), Low(Xlen(arch), imm);
    SmallFits(arch);
    LowOfLow(x, x, imm);
    LowInRange(x, imm);
    if op.Xori? {
      ZeroLeft(XorOp, m);
      XorOne(x, m);
      LowSmall(x, Bitwise(XorOp, 1, m));
    } else if op.Ori? {
      ZeroLeft(OrOp, m);
      BitwiseOnes(x, m);
      CoreInts.BitwiseCommutes(OrOp, m, Ones(arch));
    } else {
      ZeroLeft(AndOp, m);
      BitwiseOnes(x, m);
      CoreInts.BitwiseCommutes(AndOp, m, Ones(arch));
    }
  }

  lemma ZeroLeft(op: BitOp, m: nat)
    ensures Bitwise(op, 0, m) == if op.AndOp? then 0 else m
  {
    CoreInts.BitwiseCommutes(op, 0, m);
    BitwiseZero(op, m);
  }

  lemma XorOne(k: nat, m: nat)
    requires k >= 1 && m < Pow2(k)
    ensures Bitwise(XorOp, 1, m) == (if m % 2 == 0 then m + 1 else m - 1) && Bitwise(XorOp, 1, m) < Pow2(k)
  {
    ZeroLeft(XorOp, m / 2);
    assert Pow2(k) == 2 * Pow2(k - 1);
  }

  lemma BelowOnes(arch: Arch, imm: int)
    requires Low(Xlen(arch), imm) != 0
    ensures Low(Xlen(arch), EvalImmOp(arch, Sltiu, 0, imm)) != Low(Xlen(arch), EvalImmOp(arch, Sltiu, Ones(arch), imm))
  {
    SmallFits(arch);
    hide Pow2;
  }

  lemma ShiftBounds(x: nat, k: nat)
    requires k < x
    ensures 1 <= Pow2(k) && Pow2(k) < Pow2(x) && (Pow2(x) - 1) / Pow2(k) >= 1 && (Pow2(x) - 1) / Pow2(k) < Pow2(x)
    ensures -1 / Pow2(k) == -1
  {
    PowMonotone(k, x - 1);
    assert Pow2(x) == 2 * Pow2(x - 1);
    DivModUnique(-1, Pow2(k), -1, Pow2(k) - 1);
    QuotientBounds(Pow2(x) - 1, Pow2(k));
    hide Pow2;
  }

  lemma QuotientBounds(n: nat, p: nat)
    requires 0 < p <= n
    ensures 1 <= n / p <= n
  {
    assert n == p * (n / p) + n % p;
    MulMonotone(1, p, n / p);
  }

  lemma LowOfWord(arch: Arch, n: int)
    ensures Low(32, Low(Xlen(arch), Word(arch, n))) == Low(32, n)
  {
    var x := Xlen(arch);
    LowOfLow(x, x, Signed(32, n));
    LowOfLow(32, x, Signed(32, n));
    LowSigned(32, n);
    hide Low, Pow2, Signed;
  }

  lemma ShiftsDiffer(arch: Arch, op: ImmOp, imm: int)
    requires op.Slli? || op.Srli? || op.Srai? || op.Slliw? || op.Srliw? || op.Sraiw?
    ensures var v := ImmProbe(arch, op, Low(Xlen(arch), imm));
      Low(Xlen(arch), EvalImmOp(arch, op, 0, imm)) != Low(Xlen(arch), EvalImmOp(arch, op, v, imm))
  {
    var x := Xlen(arch);
    hide Low, Pow2, Signed;
    SmallFits(arch);
    ShiftBounds(x, imm % x);
    ShiftBounds(32, imm % 32);
    LowSmall(x, Pow2(imm % x));
    LowSmall(x, Ones(arch) / Pow2(imm % x));
    LowSmall(32, Pow2(imm % 32));
    LowSmall(32, (Pow2(32) - 1) / Pow2(imm % 32));
    LowOfWord(arch, Pow2(imm % 32));
    LowOfWord(arch, (Pow2(32) - 1) / Pow2(imm % 32));
    OnesInWord(arch);
    hide Word;
  }

  lemma OnesInWord(arch: Arch)
    ensures Low(32, Ones(arch)) == Pow2(32) - 1 && Signed(32, Ones(arch)) == -1 && Low(32, Low(Xlen(arch), 0)) == 0
  {
    MinusOne(arch);
    LowOfLow(32, Xlen(arch), -1);
    LowEqual(32, -1, Pow2(32) - 1, -1);
    Pow32();
    LowSmall(32, Pow2(32) - 1);
    LowSmall(32, 0);
    LowSmall(Xlen(arch), 0);
    SignedUnique(32, Ones(arch), -1);
    hide Low, Pow2, Signed;
  }

  lemma RegImmMatters(arch: Arch, op: ImmOp, rd: Register, r: Register, imm: int)
    requires r != ZERO && !Ignores(arch, RegImm(op, rd, r, imm))
    ensures Matters(arch, RegImm(op, rd, r, imm), r)
  {
    hide EvalImmOp, Low, Pow2, Matters, Differs, Step;
    var inst := RegImm(op, rd, r, imm);
    var v := ImmProbe(arch, op, Low(Xlen(arch), imm));
    ImmDiffers(arch, op, imm);
    Fits(arch, 0);
    Fits(arch, v);
    var s := State(Filled(r, 0, 0), map[]);
    WritesDiffer(arch, Recorder(), inst, s, State(s.regs[r := v], s.mem));
    Witness(arch, Recorder(), inst, r, 0, 0, v);
  }

  /** What the other source must hold for a branch to depend on one of them. */
  ghost function BesideBranch(arch: Arch, op: BranchOp, left: bool): nat {
    if left && (op.Bltu? || op.Bgeu?) then 1 else 0
  }

  ghost function BranchProbe(arch: Arch, op: BranchOp, left: bool): nat {
    if left && (op.Blt? || op.Bge?) then Ones(arch) else 1
  }

  lemma BranchMatters(arch: Arch, op: BranchOp, a: Register, b: Register, dest: BlockId, r: Register)
    requires r != ZERO && (r == a || r == b) && !Ignores(arch, Branch(op, a, b, dest))
    ensures Matters(arch, Branch(op, a, b, dest), r)
  {
    hide Matters, BranchTaken, Low, Pow2;
    BranchProbed(arch, op, r == a);
    Fits(arch, 0);
    Fits(arch, 1);
    Fits(arch, Ones(arch));
    BranchShown(arch, op, a, b, dest, r, BesideBranch(arch, op, r == a), BranchProbe(arch, op, r == a));
  }

  lemma BranchShown(arch: Arch, op: BranchOp, a: Register, b: Register, dest: BlockId, r: Register, w: nat, v: nat)
    requires r != ZERO && a != b && (r == a || r == b) && Held(arch, w) && Held(arch, v)
    requires w == 0 || (a != ZERO && b != ZERO)
    requires if r == a then BranchTaken(arch, op, 0, w) != BranchTaken(arch, op, v, w)
             else BranchTaken(arch, op, w, 0) != BranchTaken(arch, op, w, v)
    ensures Matters(arch, Branch(op, a, b, dest), r)
  {
    hide BranchTaken, Low, Pow2, Matters, Step;
    Fits(arch, 0);
    var s := State(Filled(r, 0, w), map[]);
    var t := State(s.regs[r := v], s.mem);
    assert Taken(arch, Branch(op, a, b, dest), s.regs) != Taken(arch, Branch(op, a, b, dest), t.regs);
    Witness(arch, Recorder(), Branch(op, a, b, dest), r, 0, w, v);
  }

  lemma BranchProbed(arch: Arch, op: BranchOp, left: bool)
    ensures var w, v := BesideBranch(arch, op, left), BranchProbe(arch, op, left);
      if left then BranchTaken(arch, op, 0, w) != BranchTaken(arch, op, v, w)
      else BranchTaken(arch, op, w, 0) != BranchTaken(arch, op, w, v)
  {
    hide Low, Pow2, Signed;
    SmallFits(arch);
  }

  lemma MemoryMatters(arch: Arch, inst: Inst, r: Register)
    requires r != ZERO && r in UseRegs(inst) && (inst.Store? || inst.StoreOutgoingArg? || inst.Call?)
    ensures Matters(arch, inst, r)
  {
    hide Low, Pow2, Matters, Step, MemoryAfter, UseRegs, Differs, Filled;
    Fits(arch, 0);
    Fits(arch, 1);
    var s := State(Filled(r, 0, 0), map[]);
    var t := State(s.regs[r := 1], s.mem);
    if inst.Call? {
      CallDiffers(arch, inst, r, s, t);
    } else if inst.Store? {
      StoreDiffers(arch, inst, r, s, t);
    } else {
      ArgStoreDiffers(arch, inst, r, s, t);
    }
    assert Differs(arch, Recorder(), inst, s, t) by { MemoryDiffers(arch, Recorder(), inst, s, t); }
    Witness(arch, Recorder(), inst, r, 0, 0, 1);
  }

  lemma MemoryDiffers(arch: Arch, X: Externals, inst: Inst, s: State, t: State)
    requires MemoryAfter(arch, X, inst, s) != MemoryAfter(arch, X, inst, t)
    ensures Differs(arch, X, inst, s, t)
  {
    hide MemoryAfter, Result;
  }

  /** 0 in r, against 1. */
  ghost predicate Probed(r: Register, s: State, t: State) {
    s == State(Filled(r, 0, 0), map[]) && t == State(s.regs[r := 1], s.mem)
  }

  lemma CallDiffers(arch: Arch, inst: Inst, r: Register, s: State, t: State)
    requires inst.Call? && r != ZERO && r in UseRegs(inst) && Probed(r, s, t)
    ensures MemoryAfter(arch, Recorder(), inst, s) != MemoryAfter(arch, Recorder(), inst, t)
  {
    hide ARG_REGS;
    assert r in UseRegs(Call(0, inst.numArgs));
    ArgumentsDiffer(s.regs, t.regs, inst.numArgs, r);
  }

  lemma StoreDiffers(arch: Arch, inst: Inst, r: Register, s: State, t: State)
    requires inst.Store? && r != ZERO && r in UseRegs(inst) && Probed(r, s, t)
    ensures MemoryAfter(arch, Recorder(), inst, s) != MemoryAfter(arch, Recorder(), inst, t)
  {
    hide Low, Pow2;
    NextDiffers(Xlen(arch), inst.imm);
    RecordedPair(Low(Xlen(arch), Read(s.regs, inst.rs1) + inst.imm), Read(s.regs, inst.rs2),
      Low(Xlen(arch), Read(t.regs, inst.rs1) + inst.imm), Read(t.regs, inst.rs2));
  }

  lemma ArgStoreDiffers(arch: Arch, inst: Inst, r: Register, s: State, t: State)
    requires inst.StoreOutgoingArg? && r != ZERO && r in UseRegs(inst) && Probed(r, s, t)
    ensures MemoryAfter(arch, Recorder(), inst, s) != MemoryAfter(arch, Recorder(), inst, t)
  {
    RecordedPair(Read(s.regs, SP), Read(s.regs, inst.rs), Read(t.regs, SP), Read(t.regs, inst.rs));
  }

  lemma RecordedPair(a: int, v: int, b: int, w: int)
    ensures map[0 := a, 1 := v] == map[0 := b, 1 := w] ==> a == b && v == w
  {
    if map[0 := a, 1 := v] == map[0 := b, 1 := w] {
      assert map[0 := a, 1 := v][0] == map[0 := b, 1 := w][0];
      assert map[0 := a, 1 := v][1] == map[0 := b, 1 := w][1];
    }
  }

  lemma ArgumentsDiffer(regs: Regs, regs': Regs, n: nat, r: Register)
    requires r in UseRegs(Call(0, n)) && Read(regs, r) != Read(regs', r)
    ensures Recorded(CallArgs(regs, n)) != Recorded(CallArgs(regs', n))
  {
    var uses := UseRegs(Call(0, n));
    var i :| 0 <= i < |uses| && uses[i] == r;
    assert Recorded(CallArgs(regs, n))[i] == Read(regs, r);
    assert Recorded(CallArgs(regs', n))[i] == Read(regs', r);
  }

  lemma ReadMatters(arch: Arch, inst: Inst, r: Register)
    requires r != ZERO && r in UseRegs(inst) && !Ignores(arch, inst)
    requires inst.Mv? || inst.Load? || inst.LoadIncomingArg? || inst.GetStackAddr?
    ensures Matters(arch, inst, r)
  {
    hide Low, Pow2, Matters, Step, Differs;
    Fits(arch, 0);
    Fits(arch, 1);
    var s := State(Filled(r, 0, 0), map[]);
    var t := State(s.regs[r := 1], s.mem);
    if inst.Load? {
      NextDiffers(Xlen(arch), inst.imm);
    }
    WritesDiffer(arch, Recorder(), inst, s, t);
    Witness(arch, Recorder(), inst, r, 0, 0, 1);
  }

  /** Every register the use list names matters, but for the exceptions. */
  lemma UsesMatter(arch: Arch, inst: Inst, r: Register)
    requires r != ZERO && r in UseRegs(inst) && !Ignores(arch, inst)
    ensures Matters(arch, inst, r)
  {
    hide Ignores, Matters;
    match inst {
      case RegReg(op, rd, a, b) => RegRegMatters(arch, op, rd, a, b, r);
      case RegImm(op, rd, _, imm) => RegImmMatters(arch, op, rd, r, imm);
      case Branch(op, a, b, dest) => BranchMatters(arch, op, a, b, dest, r);
      case Store(_, _, _, _) => MemoryMatters(arch, inst, r);
      case StoreOutgoingArg(_, _, _) => MemoryMatters(arch, inst, r);
      case Call(_, _) => MemoryMatters(arch, inst, r);
      case Mv(_, _) => ReadMatters(arch, inst, r);
      case Load(_, _, _, _, _) => ReadMatters(arch, inst, r);
      case LoadIncomingArg(_, _) => ReadMatters(arch, inst, r);
      case GetStackAddr(_, _) => ReadMatters(arch, inst, r);
      case Ret => RetIgnores(arch);
      case _ =>
    }
  }

  lemma RetIgnores(arch: Arch)
    ensures Ignores(arch, Ret)
  {
  }

  // ---------------------------------------------------------------- and nothing else does

  lemma UnusedNoDifference(arch: Arch, X: Externals, inst: Inst, r: Register, s: State, v: nat)
    requires r != ZERO && r !in UseRegs(inst)
    ensures !Differs(arch, X, inst, s, State(s.regs[r := v], s.mem))
  {
    hide Step, BranchTaken;
    var t := State(s.regs[r := v], s.mem);
    forall q | q in UseRegs(inst) ensures Read(s.regs, q) == Read(t.regs, q) {
    }
    UseDefSound(arch, X, inst, s, t);
    if inst.Branch? {
      assert inst.rs1 in UseRegs(inst) && inst.rs2 in UseRegs(inst);
    }
  }

  lemma SameResultNoDifference(arch: Arch, X: Externals, inst: Inst, s: State, t: State)
    requires s.mem == t.mem && !inst.Call? && !inst.Branch? && !inst.Store? && !inst.StoreOutgoingArg?
    requires DefRegs(inst) == [] || DefRegs(inst) == [ZERO] || Result(arch, X, inst, s) == Result(arch, X, inst, t)
    ensures !Differs(arch, X, inst, s, t)
  {
    hide Result, Low;
  }

  lemma CancelsToZero(arch: Arch, op: RegOp, a: nat)
    requires Cancels(op)
    ensures EvalRegOp(arch, op, a, a) == 0
  {
    SmallFits(arch);
    BitwiseSelf(XorOp, a);
    hide Low, Pow2, Word, Bitwise;
    NoRest(Signed(Xlen(arch), a));
    NoRest(Signed(32, a));
    SignedZero(arch, a);
    hide Signed, TruncRem;
  }

  lemma SignedZero(arch: Arch, a: nat)
    ensures Signed(32, a) == 0 ==> Low(Xlen(arch), Signed(32, a)) == 0
    ensures a == 0 ==> Signed(Xlen(arch), a) == 0
    ensures Low(32, a) > 0 ==> Low(32, a) % Low(32, a) == 0
    ensures a > 0 ==> a % a == 0
  {
    SmallFits(arch);
    hide Low, Signed;
    if a > 0 {
      DivModUnique(a, a, 1, 0);
    }
    if Low(32, a) > 0 {
      DivModUnique(Low(32, a), Low(32, a), 1, 0);
    }
  }

  lemma NoRest(v: int)
    ensures v != 0 ==> TruncRem(v, v) == 0 && TruncRem(0, v) == 0
  {
    if v > 0 {
      DivModUnique(v, v, 1, 0);
      DivModUnique(0, v, 0, 0);
    } else if v < 0 {
      EuclidNegated(-v);
    }
  }

  lemma EuclidNegated(u: int)
    requires u > 0
    ensures u / (-u) == -1 && 0 / (-u) == 0
  {
    assert u == (-u) * (-1);
    assert u == (-u) * (u / (-u)) + u % (-u);
    var q, r := u / (-u), u % (-u);
    assert 0 <= r < u;
    assert u * (q + 1) == r;
    if q + 1 >= 1 {
      MulMonotone(1, q + 1, u);
    } else if q + 1 <= -1 {
      MulMonotone(q + 1, -1, u);
    }
  }

  lemma LeftZeroIsFixed(arch: Arch, op: RegOp, b: nat)
    requires ZeroOnTheLeft(op)
    ensures EvalRegOp(arch, op, 0, b) == 0
  {
    SmallFits(arch);
    ZeroLeft(AndOp, b);
    hide Low, Pow2, Word, Bitwise;
    NoRest(Signed(Xlen(arch), b));
    NoRest(Signed(32, b));
    ZeroDivided(b);
    hide Signed, TruncRem;
  }

  lemma ZeroDivided(b: nat)
    ensures b > 0 ==> 0 % b == 0 && 0 / b == 0
    ensures forall k: nat :: 0 / Pow2(k) == 0 && 0 * Pow2(k) == 0
    ensures Low(32, b) > 0 ==> 0 % Low(32, b) == 0
  {
    hide Low, Pow2;
    if b > 0 {
      DivModUnique(0, b, 0, 0);
    }
    if Low(32, b) > 0 {
      DivModUnique(0, Low(32, b), 0, 0);
    }
    forall k: nat ensures 0 / Pow2(k) == 0 && 0 * Pow2(k) == 0 {
      DivModUnique(0, Pow2(k), 0, 0);
    }
  }

  lemma RightZeroIsFixed(arch: Arch, op: RegOp, a: nat, b: nat)
    requires ZeroOnTheRight(op)
    ensures EvalRegOp(arch, op, a, 0) == EvalRegOp(arch, op, b, 0)
  {
    SmallFits(arch);
    BitwiseZero(AndOp, a);
    BitwiseZero(AndOp, b);
    hide Low, Pow2, Word, Bitwise, Signed;
  }

  lemma RegRegFixed(arch: Arch, X: Externals, op: RegOp, rd: Register, a: Register, b: Register, r: Register, s: State,
                    v: nat)
    requires rd != ZERO && r != ZERO && Ignores(arch, RegReg(op, rd, a, b)) && (r == a || r == b)
    ensures var inst := RegReg(op, rd, a, b);
      Result(arch, X, inst, s) == Result(arch, X, inst, State(s.regs[r := v], s.mem))
  {
    hide EvalRegOp, Pow2, Low;
    var t := State(s.regs[r := v], s.mem);
    SmallFits(arch);
    if a == b && Cancels(op) {
      CancelsToZero(arch, op, Pattern(arch, s.regs, a));
      CancelsToZero(arch, op, Pattern(arch, t.regs, a));
    } else if a == ZERO && ZeroOnTheLeft(op) {
      LeftZeroIsFixed(arch, op, Pattern(arch, s.regs, b));
      LeftZeroIsFixed(arch, op, Pattern(arch, t.regs, b));
    } else {
      RightZeroIsFixed(arch, op, Pattern(arch, s.regs, a), Pattern(arch, t.regs, a));
    }
  }

  lemma RegImmFixed(arch: Arch, op: ImmOp, imm: int, a: nat, b: nat)
    requires Ignores(arch, RegImm(op, Virtual(0), Virtual(0), imm)) && a < Pow2(Xlen(arch)) && b < Pow2(Xlen(arch))
    ensures EvalImmOp(arch, op, a, imm) == EvalImmOp(arch, op, b, imm)
  {
    hide Low, Pow2, Bitwise, Signed, Word;
    BitwiseZero(AndOp, a);
    BitwiseZero(AndOp, b);
    BitwiseOnes(Xlen(arch), a);
    BitwiseOnes(Xlen(arch), b);
  }

  lemma PatternBelow(arch: Arch, regs: Regs, r: Register)
    ensures Pattern(arch, regs, r) < Pow2(Xlen(arch))
  {
    LowInRange(Xlen(arch), Read(regs, r));
  }

  lemma IgnoredNoDifference(arch: Arch, X: Externals, inst: Inst, r: Register, s: State, v: nat)
    requires r != ZERO && Ignores(arch, inst) && r in UseRegs(inst)
    ensures !Differs(arch, X, inst, s, State(s.regs[r := v], s.mem))
  {
    hide EvalRegOp, EvalImmOp, Pow2, Low, Signed, Differs;
    var t := State(s.regs[r := v], s.mem);
    SmallFits(arch);
    match inst {
      case RegReg(op, rd, a, b) =>
        if rd != ZERO {
          RegRegFixed(arch, X, op, rd, a, b, r, s, v);
        }
        SameResultNoDifference(arch, X, inst, s, t);
      case RegImm(op, rd, _, imm) =>
        if rd != ZERO {
          PatternBelow(arch, s.regs, r);
          PatternBelow(arch, t.regs, r);
          RegImmFixed(arch, op, imm, Pattern(arch, s.regs, r), Pattern(arch, t.regs, r));
        }
        SameResultNoDifference(arch, X, inst, s, t);
      case Branch(op, a, b, _) =>
        BranchFixed(arch, X, inst, r, s, v);
      case _ => SameResultNoDifference(arch, X, inst, s, t);
    }
  }

  lemma BranchFixed(arch: Arch, X: Externals, inst: Inst, r: Register, s: State, v: nat)
    requires inst.Branch? && Ignores(arch, inst)
    ensures !Differs(arch, X, inst, s, State(s.regs[r := v], s.mem))
  {
    SmallFits(arch);
    hide Low, Pow2, Signed;
  }

  /** The registers that matter are exactly those the use list names, but for the exceptions: naming more
      would keep dead registers alive, naming fewer would lose live ones. */
  lemma UsesExactly(arch: Arch, inst: Inst, r: Register)
    requires r != ZERO
    ensures Matters(arch, inst, r) <==> r in UseRegs(inst) && !Ignores(arch, inst)
  {
    hide Ignores, Differs, UseRegs;
    if r in UseRegs(inst) && !Ignores(arch, inst) {
      UsesMatter(arch, inst, r);
    } else {
      forall X, s: State, v: nat ensures !Shows(arch, X, inst, r, s, v) {
        if r in UseRegs(inst) {
          IgnoredNoDifference(arch, X, inst, r, s, v);
        } else {
          UnusedNoDifference(arch, X, inst, r, s, v);
        }
      }
    }
  }

  // ---------------------------------------------------------------- where control may go

  /** Running the instruction on its own, from some state, jumps to the block. */
  ghost predicate JumpsTo(arch: Arch, inst: Inst, dest: BlockId) {
    exists X, s: State :: InRange(arch, s.regs) && GoesTo(arch, X, inst, s, dest)
  }

  ghost predicate GoesTo(arch: Arch, X: Externals, inst: Inst, s: State, dest: BlockId) {
    MachineCleanup.RunBlock(arch, X, [inst], s).0 == MachineCleanup.Goes(dest)
  }

  /** Branches whose condition no state meets. */
  predicate NeverTaken(inst: Inst) {
    match inst
    case Branch(op, a, b, _) =>
      (a == b && (op.Bne? || op.Blt? || op.Bltu?)) || (b == ZERO && op.Bltu?)
    case _ => false
  }

  /** The successors listed are exactly the blocks control may jump to. */
  lemma SuccessorsExactly(arch: Arch, inst: Inst, dest: BlockId)
    ensures JumpsTo(arch, inst, dest) <==> dest in Successors(inst) && !NeverTaken(inst)
  {
    hide Step;
    forall X, s: State ensures GoesTo(arch, X, inst, s, dest) ==> dest in Successors(inst) && !NeverTaken(inst) {
      MachineCleanup.RunHead(arch, X, [inst], s);
      assert [inst][1..] == [];
      if inst.Branch? && NeverTaken(inst) {
        NotTaken(arch, inst, s.regs);
      }
    }
    if dest in Successors(inst) && !NeverTaken(inst) {
      var s := TakingState(arch, inst);
      MachineCleanup.RunHead(arch, Recorder(), [inst], s);
      assert GoesTo(arch, Recorder(), inst, s, dest);
    }
  }

  lemma NotTaken(arch: Arch, inst: Inst, regs: Regs)
    requires inst.Branch? && NeverTaken(inst)
    ensures !Taken(arch, inst, regs)
  {
    SmallFits(arch);
    hide Low, Pow2, Signed;
  }

  /** A state in which the instruction jumps, if there is one. */
  lemma TakingState(arch: Arch, inst: Inst) returns (s: State)
    requires inst.Branch? || inst.Jal?
    ensures InRange(arch, s.regs) && (inst.Branch? && !NeverTaken(inst) ==> Taken(arch, inst, s.regs))
  {
    hide Low, Pow2, Signed;
    SmallFits(arch);
    Fits(arch, 0);
    Fits(arch, 1);
    Fits(arch, Ones(arch));
    s := State(Filled(ZERO, 0, 0), map[]);
    if inst.Branch? && inst.rs1 != inst.rs2 {
      var low := if inst.rs1 != ZERO then inst.rs1 else inst.rs2;
      match inst.bop {
        case Bne => s := State(Filled(low, 1, 0), map[]);
        case Blt =>
          s := State(if inst.rs1 != ZERO then Filled(inst.rs1, Ones(arch), 0) else Filled(inst.rs2, 1, 0), map[]);
        case Bltu => s := State(Filled(inst.rs2, 1, 0), map[]);
        case _ =>
      }
    }
  }
}
