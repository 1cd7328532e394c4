/** Lowering of integer comparisons, as a value and fused into a branch
    (src/mir/lower.rs:279-341, 659-664, 830-968, 1687-1750). */
module LowerICmp {
  import opened Machine
  import opened Bits
  import opened CoreInts
  import opened LowerArith
  import opened LowerConsts
  import opened LowerBinary

  predicate IsSigned(code: ICmpCode) {
    code in {Sgt, Sge, ICmpCode.Slt, Sle}
  }

  /** The comparison of two whole registers. */
  predicate Holds(arch: Arch, code: ICmpCode, a: nat, b: nat) {
    var x := Xlen(arch);
    match code
    case Eq => a == b
    case Ne => a != b
    case Ugt => a > b
    case Uge => a >= b
    case Ult => a < b
    case Ule => a <= b
    case Sgt => Signed(x, a) > Signed(x, b)
    case Sge => Signed(x, a) >= Signed(x, b)
    case Slt => Signed(x, a) < Signed(x, b)
    case Sle => Signed(x, a) <= Signed(x, b)
  }

  function Truth(b: bool): nat {
    if b then 1 else 0
  }

  ghost function Reg(arch: Arch, regs: Regs, r: Register): nat {
    Pattern(arch, regs, r)
  }

  /** Code sets rd to 1 or 0, exactly as the registers compare, and keeps everything else. */
  ghost predicate Decides(arch: Arch, code: seq<Inst>, next: nat, rd: Register, icmp: ICmpCode, rs1: Register,
                          rs2: Register) {
    forall X, st: State :: InRange(arch, st.regs) ==>
      var st' := Exec(arch, X, code, st);
      && KeepsOthers(next, rd, st, st')
      && Read(st'.regs, rd) == Truth(Holds(arch, icmp, Reg(arch, st.regs, rs1), Reg(arch, st.regs, rs2)))
  }

  lemma TruthFits(arch: Arch, b: bool)
    ensures Low(Xlen(arch), Truth(b)) == Truth(b)
  {
    PowMonotone(1, Xlen(arch));
    assert Pow2(1) == 2;
    hide Pow2, Low;
    LowSmall(Xlen(arch), Truth(b));
  }

  lemma DecidesOne(arch: Arch, inst: Inst, next: nat, icmp: ICmpCode, rs1: Register, rs2: Register)
    requires IsCompute(inst) && inst.rd != ZERO
    requires forall regs: Regs :: InRange(arch, regs) ==>
      Computed(arch, inst, regs) == Truth(Holds(arch, icmp, Reg(arch, regs, rs1), Reg(arch, regs, rs2)))
    ensures Decides(arch, [inst], next, inst.rd, icmp, rs1, rs2)
  {
    hide Holds, InRange, Computed, Pattern, Low, Pow2, Exec, Step;
    forall X, st: State | InRange(arch, st.regs)
      ensures var st' := Exec(arch, X, [inst], st);
        && KeepsOthers(next, inst.rd, st, st')
        && Read(st'.regs, inst.rd) == Truth(Holds(arch, icmp, Reg(arch, st.regs, rs1), Reg(arch, st.regs, rs2)))
    {
      Exec1(arch, X, inst, st);
      StepCompute(arch, X, inst, st);
      TruthFits(arch, Holds(arch, icmp, Reg(arch, st.regs, rs1), Reg(arch, st.regs, rs2)));
    }
  }

  lemma DecidesTwo(arch: Arch, i1: Inst, i2: Inst, next: nat, icmp: ICmpCode, rs1: Register, rs2: Register)
    requires IsCompute(i1) && IsCompute(i2) && i1.rd != ZERO && i2.rd != ZERO && !Allocated(i1.rd, next)
    requires forall regs: Regs, regs1: Regs ::
      (InRange(arch, regs) && InRange(arch, regs1) && regs1[i1.rd] == Low(Xlen(arch), Computed(arch, i1, regs))) ==>
      Computed(arch, i2, regs1) == Truth(Holds(arch, icmp, Reg(arch, regs, rs1), Reg(arch, regs, rs2)))
    ensures Decides(arch, [i1, i2], next, i2.rd, icmp, rs1, rs2)
  {
    hide Holds, InRange, Computed, Pattern, Low, Pow2, Exec;
    forall X, st: State | InRange(arch, st.regs)
      ensures var st' := Exec(arch, X, [i1, i2], st);
        && KeepsOthers(next, i2.rd, st, st')
        && Read(st'.regs, i2.rd) == Truth(Holds(arch, icmp, Reg(arch, st.regs, rs1), Reg(arch, st.regs, rs2)))
    {
      TwoSteps(arch, X, i1, i2, st);
      TruthFits(arch, Holds(arch, icmp, Reg(arch, st.regs, rs1), Reg(arch, st.regs, rs2)));
    }
  }

  // ---------------------------------------------------------------- the instruction patterns

  lemma {:induction false} XorZero(a: nat, b: nat)
    ensures Bitwise(XorOp, a, b) == 0 <==> a == b
    decreases a + b
  {
    if a + b > 0 {
      XorZero(a / 2, b / 2);
    }
  }

  lemma XorPattern(arch: Arch, a: nat, b: nat)
    requires a < Pow2(Xlen(arch)) && b < Pow2(Xlen(arch))
    ensures EvalRegOp(arch, RegOp.Xor, a, b) == 0 <==> a == b
  {
    XorZero(a, b);
    BitwiseBound(XorOp, Xlen(arch), a, b);
    LowSmall(Xlen(arch), Bitwise(XorOp, a, b));
    hide Bitwise, Low, Pow2;
  }

  lemma Flip(arch: Arch, b: bool)
    ensures EvalImmOp(arch, Xori, Truth(b), 1) == Truth(!b)
  {
    TruthFits(arch, true);
    TruthFits(arch, !b);
    assert Bitwise(XorOp, Truth(b), 1) == Truth(!b);
    hide Low, Pow2;
  }

  lemma ZeroTests(arch: Arch, v: nat)
    ensures EvalImmOp(arch, Sltiu, v, 1) == Truth(v == 0) && EvalRegOp(arch, RegOp.Sltu, 0, v) == Truth(v != 0)
  {
    TruthFits(arch, true);
    hide Low, Pow2;
  }

  lemma PatternFits(arch: Arch, regs: Regs, r: Register)
    ensures Reg(arch, regs, r) < Pow2(Xlen(arch))
    ensures r == ZERO ==> Reg(arch, regs, r) == 0
  {
    LowSmall(Xlen(arch), 0);
    hide Pow2;
  }

  lemma DecidesZeroTest(arch: Arch, rd: Register, rs1: Register, rs2: Register, next: nat)
    requires rd != ZERO && (rs1 == ZERO || rs2 == ZERO)
    ensures var r := if rs1 == ZERO then rs2 else rs1;
      && Decides(arch, [RegImm(Sltiu, rd, r, 1)], next, rd, Eq, rs1, rs2)
      && Decides(arch, [RegReg(RegOp.Sltu, rd, ZERO, r)], next, rd, Ne, rs1, rs2)
  {
    var r := if rs1 == ZERO then rs2 else rs1;
    hide EvalImmOp, EvalRegOp, Pattern, Pow2, InRange, Decides;
    forall regs: Regs
      ensures Computed(arch, RegImm(Sltiu, rd, r, 1), regs)
        == Truth(Holds(arch, Eq, Reg(arch, regs, rs1), Reg(arch, regs, rs2)))
      ensures Computed(arch, RegReg(RegOp.Sltu, rd, ZERO, r), regs)
        == Truth(Holds(arch, Ne, Reg(arch, regs, rs1), Reg(arch, regs, rs2)))
    {
      PatternFits(arch, regs, rs1);
      PatternFits(arch, regs, rs2);
      PatternFits(arch, regs, ZERO);
      ZeroTests(arch, Reg(arch, regs, r));
    }
    DecidesOne(arch, RegImm(Sltiu, rd, r, 1), next, Eq, rs1, rs2);
    DecidesOne(arch, RegReg(RegOp.Sltu, rd, ZERO, r), next, Ne, rs1, rs2);
  }

  lemma DecidesByXor(arch: Arch, rd: Register, tmp: Register, rs1: Register, rs2: Register, next: nat)
    requires rd != ZERO && tmp != ZERO && !Allocated(tmp, next)
    ensures Decides(arch, [RegReg(RegOp.Xor, tmp, rs1, rs2), RegImm(Sltiu, rd, tmp, 1)], next, rd, Eq, rs1, rs2)
    ensures Decides(arch, [RegReg(RegOp.Xor, tmp, rs1, rs2), RegReg(RegOp.Sltu, rd, ZERO, tmp)], next, rd, Ne, rs1, rs2)
  {
    var i1 := RegReg(RegOp.Xor, tmp, rs1, rs2);
    hide EvalImmOp, EvalRegOp, Pow2, InRange, Decides, Low;
    forall regs: Regs, regs1: Regs | regs1[tmp] == Low(Xlen(arch), Computed(arch, i1, regs))
      ensures Computed(arch, RegImm(Sltiu, rd, tmp, 1), regs1)
        == Truth(Holds(arch, Eq, Reg(arch, regs, rs1), Reg(arch, regs, rs2)))
      ensures Computed(arch, RegReg(RegOp.Sltu, rd, ZERO, tmp), regs1)
        == Truth(Holds(arch, Ne, Reg(arch, regs, rs1), Reg(arch, regs, rs2)))
    {
      PatternFits(arch, regs, rs1);
      PatternFits(arch, regs, rs2);
      PatternFits(arch, regs1, ZERO);
      XorPattern(arch, Reg(arch, regs, rs1), Reg(arch, regs, rs2));
      XorInRange(arch, Reg(arch, regs, rs1), Reg(arch, regs, rs2));
      ZeroTests(arch, Reg(arch, regs1, tmp));
    }
    DecidesTwo(arch, i1, RegImm(Sltiu, rd, tmp, 1), next, Eq, rs1, rs2);
    DecidesTwo(arch, i1, RegReg(RegOp.Sltu, rd, ZERO, tmp), next, Ne, rs1, rs2);
  }

  lemma XorInRange(arch: Arch, a: nat, b: nat)
    ensures var v := EvalRegOp(arch, RegOp.Xor, a, b);
      Low(Xlen(arch), Low(Xlen(arch), v)) == v
  {
    var x := Xlen(arch);
    LowOfLow(x, x, Bitwise(XorOp, a, b));
    LowOfLow(x, x, EvalRegOp(arch, RegOp.Xor, a, b));
    hide Low, Pow2, Bitwise;
  }

  /** Strict orders take one instruction, with the operands swapped for "greater". */
  function OrderOp(code: ICmpCode): RegOp {
    if IsSigned(code) then RegOp.Slt else RegOp.Sltu
  }

  predicate Swapped(code: ICmpCode) {
    code in {Ugt, Sgt, Ule, Sle}
  }

  predicate Strict(code: ICmpCode) {
    code in {Ugt, Ult, Sgt, ICmpCode.Slt}
  }

  lemma DecidesOrder(arch: Arch, code: ICmpCode, rd: Register, tmp: Register, rs1: Register, rs2: Register, next: nat)
    requires rd != ZERO && tmp != ZERO && !Allocated(tmp, next) && code != Eq && code != Ne
    ensures var a, b := if Swapped(code) then rs2 else rs1, if Swapped(code) then rs1 else rs2;
      && (Strict(code) ==> Decides(arch, [RegReg(OrderOp(code), rd, a, b)], next, rd, code, rs1, rs2))
      && (!Strict(code) ==> Decides(arch, [RegReg(OrderOp(code), tmp, a, b), RegImm(Xori, rd, tmp, 1)], next, rd, code,
           rs1, rs2))
  {
    var a, b := if Swapped(code) then rs2 else rs1, if Swapped(code) then rs1 else rs2;
    hide Pow2, InRange, Decides, Low, Signed, EvalImmOp;
    if Strict(code) {
      forall regs: Regs
        ensures Computed(arch, RegReg(OrderOp(code), rd, a, b), regs)
          == Truth(Holds(arch, code, Reg(arch, regs, rs1), Reg(arch, regs, rs2)))
      {
        OrderValue(arch, code, Reg(arch, regs, rs1), Reg(arch, regs, rs2));
      }
      DecidesOne(arch, RegReg(OrderOp(code), rd, a, b), next, code, rs1, rs2);
    } else {
      var i1, i2 := RegReg(OrderOp(code), tmp, a, b), RegImm(Xori, rd, tmp, 1);
      forall regs: Regs, regs1: Regs | regs1[tmp] == Low(Xlen(arch), Computed(arch, i1, regs))
        ensures Computed(arch, i2, regs1) == Truth(Holds(arch, code, Reg(arch, regs, rs1), Reg(arch, regs, rs2)))
      {
        var h := Holds(arch, code, Reg(arch, regs, rs1), Reg(arch, regs, rs2));
        OrderValue(arch, code, Reg(arch, regs, rs1), Reg(arch, regs, rs2));
        TruthFits(arch, !h);
        Flip(arch, !h);
      }
      DecidesTwo(arch, i1, i2, next, code, rs1, rs2);
    }
  }

  lemma OrderValue(arch: Arch, code: ICmpCode, a: nat, b: nat)
    requires code != Eq && code != Ne
    ensures EvalRegOp(arch, OrderOp(code), if Swapped(code) then b else a, if Swapped(code) then a else b)
            == Truth(Holds(arch, code, a, b) == Strict(code))
  {
    hide Pow2, Low, Signed;
  }

  method EmitIcmp(arch: Arch, code: ICmpCode, rd: Register, rs1: Register, rs2: Register, out: seq<Inst>,
                  fn: MachineFunction)
    returns (out': seq<Inst>)
    requires rd != ZERO
    modifies fn`nextVreg
    ensures fn.nextVreg >= old(fn.nextVreg) && out <= out'
    ensures Decides(arch, out'[|out|..], old(fn.nextVreg), rd, code, rs1, rs2)
    ensures Encoded(arch, out, out')
  {
    hide Decides, Encoded;
    ghost var next := fn.nextVreg;
    match code {
      case Eq =>
        if rs1 == ZERO {
          EncodedFirst(arch, out, RegImm(Sltiu, rd, rs2, 1));
          out' := out + [RegImm(Sltiu, rd, rs2, 1)];
          DecidesZeroTest(arch, rd, rs1, rs2, next);
          assert out'[|out|..] == [RegImm(Sltiu, rd, rs2, 1)];
        } else if rs2 == ZERO {
          EncodedFirst(arch, out, RegImm(Sltiu, rd, rs1, 1));
          out' := out + [RegImm(Sltiu, rd, rs1, 1)];
          DecidesZeroTest(arch, rd, rs1, rs2, next);
          assert out'[|out|..] == [RegImm(Sltiu, rd, rs1, 1)];
        } else {
          var tmp := fn.NewVreg();
          out' := out + [RegReg(RegOp.Xor, tmp, rs1, rs2)];
          EncodedFirst(arch, out, RegReg(RegOp.Xor, tmp, rs1, rs2));
          EncodedOne(arch, out, out', RegImm(Sltiu, rd, tmp, 1));
          out' := out' + [RegImm(Sltiu, rd, tmp, 1)];
          DecidesByXor(arch, rd, tmp, rs1, rs2, next);
          assert out'[|out|..] == [RegReg(RegOp.Xor, tmp, rs1, rs2), RegImm(Sltiu, rd, tmp, 1)];
        }
      case Ne =>
        if rs1 == ZERO {
          EncodedFirst(arch, out, RegReg(RegOp.Sltu, rd, ZERO, rs2));
          out' := out + [RegReg(RegOp.Sltu, rd, ZERO, rs2)];
          DecidesZeroTest(arch, rd, rs1, rs2, next);
          assert out'[|out|..] == [RegReg(RegOp.Sltu, rd, ZERO, rs2)];
        } else if rs2 == ZERO {
          EncodedFirst(arch, out, RegReg(RegOp.Sltu, rd, ZERO, rs1));
          out' := out + [RegReg(RegOp.Sltu, rd, ZERO, rs1)];
          DecidesZeroTest(arch, rd, rs1, rs2, next);
          assert out'[|out|..] == [RegReg(RegOp.Sltu, rd, ZERO, rs1)];
        } else {
          var tmp := fn.NewVreg();
          out' := out + [RegReg(RegOp.Xor, tmp, rs1, rs2)];
          EncodedFirst(arch, out, RegReg(RegOp.Xor, tmp, rs1, rs2));
          EncodedOne(arch, out, out', RegReg(RegOp.Sltu, rd, ZERO, tmp));
          out' := out' + [RegReg(RegOp.Sltu, rd, ZERO, tmp)];
          DecidesByXor(arch, rd, tmp, rs1, rs2, next);
          assert out'[|out|..] == [RegReg(RegOp.Xor, tmp, rs1, rs2), RegReg(RegOp.Sltu, rd, ZERO, tmp)];
        }
      case Ugt => out' := EmitOrder(arch, code, RegOp.Sltu, rd, rs2, rs1, rs1, rs2, out, fn);
      case Uge => out' := EmitOrder(arch, code, RegOp.Sltu, rd, rs1, rs2, rs1, rs2, out, fn);
      case Ult => out' := EmitOrder(arch, code, RegOp.Sltu, rd, rs1, rs2, rs1, rs2, out, fn);
      case Ule => out' := EmitOrder(arch, code, RegOp.Sltu, rd, rs2, rs1, rs1, rs2, out, fn);
      case Sgt => out' := EmitOrder(arch, code, RegOp.Slt, rd, rs2, rs1, rs1, rs2, out, fn);
      case Sge => out' := EmitOrder(arch, code, RegOp.Slt, rd, rs1, rs2, rs1, rs2, out, fn);
      case Slt => out' := EmitOrder(arch, code, RegOp.Slt, rd, rs1, rs2, rs1, rs2, out, fn);
      case Sle => out' := EmitOrder(arch, code, RegOp.Slt, rd, rs2, rs1, rs1, rs2, out, fn);
    }
  }

  /** One set-less-than, negated through a fresh register when the comparison is not strict. */
  method EmitOrder(arch: Arch, code: ICmpCode, op: RegOp, rd: Register, a: Register, b: Register, ghost rs1: Register,
                   ghost rs2: Register,
                   out: seq<Inst>, fn: MachineFunction) returns (out': seq<Inst>)
    requires rd != ZERO && code != Eq && code != Ne && op == OrderOp(code)
    requires if Swapped(code) then a == rs2 && b == rs1 else a == rs1 && b == rs2
    modifies fn`nextVreg
    ensures fn.nextVreg >= old(fn.nextVreg) && out <= out'
    ensures Decides(arch, out'[|out|..], old(fn.nextVreg), rd, code, rs1, rs2)
    ensures Encoded(arch, out, out')
  {
    hide Decides, Encoded;
    ghost var next := fn.nextVreg;
    DecidesOrder(arch, code, rd, Virtual(next), rs1, rs2, next);
    if Strict(code) {
      EncodedFirst(arch, out, RegReg(op, rd, a, b));
      out' := out + [RegReg(op, rd, a, b)];
      assert out'[|out|..] == [RegReg(op, rd, a, b)];
    } else {
      var tmp := fn.NewVreg();
      out' := out + [RegReg(op, tmp, a, b)];
      EncodedFirst(arch, out, RegReg(op, tmp, a, b));
      EncodedOne(arch, out, out', RegImm(Xori, rd, tmp, 1));
      out' := out' + [RegImm(Xori, rd, tmp, 1)];
      assert out'[|out|..] == [RegReg(op, tmp, a, b), RegImm(Xori, rd, tmp, 1)];
    }
  }

  /** The branch a comparison fuses into is taken exactly when the comparison holds. */
  function EmitIcmpBranch(code: ICmpCode, rs1: Register, rs2: Register, label_: BlockId): (inst: Inst)
    ensures inst.Branch? && inst.dest == label_
    ensures forall arch, regs :: BranchTaken(arch, inst.bop, Reg(arch, regs, inst.rs1), Reg(arch, regs, inst.rs2))
                              == Holds(arch, code, Reg(arch, regs, rs1), Reg(arch, regs, rs2))
  {
    hide Low, Pow2, Pattern, Signed;
    match code
    case Eq => Branch(Beq, rs1, rs2, label_)
    case Ne => Branch(Bne, rs1, rs2, label_)
    case Ugt => Branch(Bltu, rs2, rs1, label_)
    case Uge => Branch(Bgeu, rs1, rs2, label_)
    case Ult => Branch(Bltu, rs1, rs2, label_)
    case Ule => Branch(Bgeu, rs2, rs1, label_)
    case Sgt => Branch(Blt, rs2, rs1, label_)
    case Sge => Branch(Bge, rs1, rs2, label_)
    case Slt => Branch(Blt, rs1, rs2, label_)
    case Sle => Branch(Bge, rs2, rs1, label_)
  }

  // ---------------------------------------------------------------- normalised operands

  /** An operand value extended to a whole register; pointers and full-width integers stay put. */
  function Extended(arch: Arch, width: Option<nat>, signed: bool, v: int): int {
    if width.Some? && width.value < Xlen(arch) then Normal(arch, width.value, signed, v) else v
  }

  /** Comparing normalised registers is comparing the compile-time integers of that width,
      except that a one-bit integer reads as 0 or 1 at compile time and as 0 or -1 at run time. */
  lemma NormalisedComparison(arch: Arch, code: ICmpCode, bits: nat, a: nat, b: nat)
    requires 1 <= bits <= Xlen(arch) && a < Pow2(Xlen(arch)) && b < Pow2(Xlen(arch))
    ensures var w := Option<nat>.Some(bits);
      var lhs, rhs := CoreInt(Low(bits, a), bits), CoreInt(Low(bits, b), bits);
      var atRunTime := Holds(arch, code, Low(Xlen(arch), Extended(arch, w, IsSigned(code), a)),
        Low(Xlen(arch), Extended(arch, w, IsSigned(code), b)));
      (atRunTime == Compare(code, lhs, rhs)) <==> !(IsSigned(code) && bits == 1 && Low(1, a) != Low(1, b))
  {
    ExtendedReads(arch, bits, IsSigned(code), a);
    ExtendedReads(arch, bits, IsSigned(code), b);
    if bits == 1 {
      OneBit(a);
      OneBit(b);
    }
    hide Low, Pow2, Signed, Extended;
  }

  lemma OneBit(a: nat)
    ensures Low(1, a) == 0 || Low(1, a) == 1
    ensures Signed(1, a) == 0 - Low(1, a) && Signed(1, Low(1, a)) == 0 - Low(1, a)
  {
    assert Pow2(1) == 2 && Pow2(0) == 1;
    LowOfLow(1, 1, a);
    hide Pow2;
  }

  lemma ExtendedReads(arch: Arch, bits: nat, signed: bool, a: nat)
    requires 1 <= bits <= Xlen(arch) && a < Pow2(Xlen(arch))
    ensures Low(bits, a) < Pow2(bits)
    ensures !signed ==> Low(Xlen(arch), Extended(arch, Some(bits), false, a)) == Low(bits, a)
    ensures signed ==>
      Signed(Xlen(arch), Low(Xlen(arch), Extended(arch, Some(bits), true, a)))
      == Signed(bits, Low(bits, a)) == Signed(bits, a)
    ensures signed ==> Low(bits, Signed(bits, a)) == Low(bits, a)
  {
    var x := Xlen(arch);
    LowInRange(bits, a);
    LowSmall(x, a);
    PowMonotone(bits, x);
    PowMonotone(bits - 1, x - 1);
    LowSigned(bits, a);
    hide Low, Pow2, Signed;
    LowSmall(x, Low(bits, a));
    LowOfLow(x, x, Low(x, Signed(bits, a)));
    LowOfLow(x, x, Signed(bits, a));
    if bits < x {
      SignedUnique(x, Low(x, Low(x, Signed(bits, a))), Signed(bits, a));
    }
  }

  /** Whether lowering may skip the extension because the value is known to be sign-extended. */
  datatype Typed = Typed(op: Operand, width: Option<nat>, known: bool)

  ghost predicate Trusted(arch: Arch, X: Externals, vregs: VRegs, t: Typed, regs: Regs) {
    var v := OperandValue(arch, X, vregs, t.op, regs);
    t.known ==> v == Extended(arch, t.width, true, v)
  }

  /** Constants narrower than 33 bits deserve the trust: they are loaded sign-extended. */
  lemma ConstantsAreTrusted(arch: Arch, X: Externals, vregs: VRegs, c: CoreInt, regs: Regs)
    requires c.Valid() && 1 < c.width <= 32
    ensures Trusted(arch, X, vregs, Typed(ConstInt(c), Some(c.width), true), regs)
    ensures Low(c.width, OperandValue(arch, X, vregs, ConstInt(c), regs)) == c.value
  {
    var x, n := Xlen(arch), c.width;
    var s := Signed(n, c.value);
    Pow32();
    LowSigned(n, c.value);
    LowSmall(n, c.value);
    PowMonotone(n - 1, 31);
    LowOfLow(n, x, s);
    hide Low, Pow2, Signed;
    SignedUnique(32, s, s);
    SignedUnique(n, Low(x, s), s);
  }

  /** So do the 32-bit results of arithmetic on RV64, exactly unless the constant on the right overflows on the
      left operand's value: the code LowerBinaryInst gives for them. */
  lemma ArithmeticTrustedExactly(X: Externals, code: seq<Inst>, id: nat, op: BinaryOpcode, lhs: Operand, rhs: Operand,
                                 vregs: VRegs, st: State)
    requires id in vregs && ResultTrusted(code, Virtual(vregs[id]), op, lhs, rhs, vregs) && InRange(RV64, st.regs)
    requires Trusted(RV64, X, vregs, Typed(lhs, Some(32), true), st.regs)
    ensures Trusted(RV64, X, vregs, Typed(Value(id), Some(32), true), Exec(RV64, X, code, st).regs)
      <==> !OverflowsOn(op, Signed(32, OperandValue(RV64, X, vregs, lhs, st.regs)), rhs)
  {
    hide Exec, InRange, Low, Signed, OverflowsOn;
    assert Extended32(OperandValue(RV64, X, vregs, lhs, st.regs));
  }

  const LEAST := CoreInt(0x8000_0000, 32)
  const MINUS_ONE := CoreInt(0xFFFF_FFFF, 32)
  const NOTHING := CoreInt(0, 32)

  /** The least 32-bit number times -1 is negative when folded. On RV64 the code for it leaves a register
      that is not sign-extended, and the comparison that follows, which reads it as if it were, says no. */
  lemma NegationMiscompared(X: Externals, st: State, rs: nat, rd: nat, lt: nat)
    requires InRange(RV64, st.regs) && Read(st.regs, Virtual(rs)) == Low(64, -0x8000_0000)
    ensures Extended32(Read(st.regs, Virtual(rs))) && Overflows(BinaryOpcode.Mul, -0x8000_0000, -1)
    ensures LEAST.Valid() && MINUS_ONE.Valid() && NOTHING.Valid()
    ensures Fold(BinaryOpcode.Mul, LEAST, MINUS_ONE) == Some(LEAST) && Compare(ICmpCode.Slt, LEAST, NOTHING)
    ensures var code := [RegReg(RegOp.Sub, Virtual(rd), ZERO, Virtual(rs)),
                         RegReg(RegOp.Slt, Virtual(lt), Virtual(rd), ZERO)];
      Read(Exec(RV64, X, code, st).regs, Virtual(lt)) == 0
  {
    hide Exec, InRange, Low, Fold, Compare, Extended32, Overflows, EvalRegOp, IsPowerOfTwo;
    Pow64();
    ExtendedExactly(-0x8000_0000);
    LeastOverflows();
    LeastFolds();
    LeastNegated();
    var i1 := RegReg(RegOp.Sub, Virtual(rd), ZERO, Virtual(rs));
    TwoSteps(RV64, X, i1, RegReg(RegOp.Slt, Virtual(lt), Virtual(rd), ZERO), st);
    LowSmall(64, 0x8000_0000);
    LowSmall(64, 0);
    LowOfLow(64, 64, -0x8000_0000);
  }

  lemma LeastOverflows()
    ensures Overflows(BinaryOpcode.Mul, -0x8000_0000, -1)
  {
    Pow32();
    SignedUnique(32, -0x8000_0000, -0x8000_0000);
    assert Pow2(0) == 1;
    hide Pow2, Signed, Low;
  }

  lemma LeastFolds()
    ensures LEAST.Valid() && MINUS_ONE.Valid() && NOTHING.Valid()
    ensures Fold(BinaryOpcode.Mul, LEAST, MINUS_ONE) == Some(LEAST) && Compare(ICmpCode.Slt, LEAST, NOTHING)
  {
    Pow32();
    FoldWraps(BinaryOpcode.Mul, LEAST, MINUS_ONE);
    LowEqual(32, 0x8000_0000 * 0xFFFF_FFFF, 0x8000_0000, 0x7FFF_FFFF);
    LowSmall(32, 0x8000_0000);
    LowSmall(32, 0);
    hide Low, Pow2, Fold;
  }

  lemma LeastNegated()
    ensures EvalRegOp(RV64, RegOp.Sub, 0, Low(64, -0x8000_0000)) == 0x8000_0000
    ensures EvalRegOp(RV64, RegOp.Slt, 0x8000_0000, 0) == 0
  {
    Pow64();
    LowOfLow(64, 64, -0x8000_0000);
    LowOfLow(64, 64, 0);
    LowAdd(64, 0, Low(64, -0x8000_0000), 0, -0x8000_0000);
    LowSmall(64, 0x8000_0000);
    LowSmall(64, 0);
    hide Low, Pow2;
  }

  /** The operand code leaves both extended operand values and disturbs nothing. */
  ghost predicate OperandsReady(arch: Arch, code: seq<Inst>, next: nat, signed: bool, lhs: Typed, rhs: Typed,
                                vregs: VRegs, rs1: Register, rs2: Register) {
    forall X, st: State :: InRange(arch, st.regs) ==>
      (signed ==> Trusted(arch, X, vregs, lhs, st.regs) && Trusted(arch, X, vregs, rhs, st.regs)) ==>
      var st' := Exec(arch, X, code, st);
      && Undisturbed(next, st, st')
      && Read(st'.regs, rs1) == Extended(arch, lhs.width, signed, OperandValue(arch, X, vregs, lhs.op, st.regs))
      && Read(st'.regs, rs2) == Extended(arch, rhs.width, signed, OperandValue(arch, X, vregs, rhs.op, st.regs))
  }

  predicate UsableTyped(t: Typed, vregs: VRegs, next: nat) {
    UsableOperand(t.op, vregs, next) && (t.width.Some? ==> t.width.value >= 1)
  }

  predicate IsKnown(t: Typed, vregs: VRegs) {
    t.op.Value? ==> t.op.id in vregs
  }

  /** Code that replaces the value of src by its extension in r. */
  ghost predicate Extends(arch: Arch, code: seq<Inst>, next: nat, signed: bool, t: Typed, src: Register, r: Register) {
    forall X, st: State :: InRange(arch, st.regs) ==>
      var st' := Exec(arch, X, code, st);
      && Undisturbed(next, st, st')
      && (signed && t.known ==> r == src)
      && (!(signed && t.known) ==> Read(st'.regs, r) == Extended(arch, t.width, signed, Read(st.regs, src)))
  }

  method EmitNormalizedIntOperand(arch: Arch, t: Typed, src: Register, signed: bool, out: seq<Inst>,
                                  fn: MachineFunction)
    returns (r: Register, out': seq<Inst>)
    requires Allocated(src, fn.nextVreg) && (t.width.Some? ==> t.width.value >= 1)
    modifies fn`nextVreg
    ensures fn.nextVreg >= old(fn.nextVreg) && out <= out' && Allocated(r, fn.nextVreg) && Straight(out'[|out|..])
    ensures Extends(arch, out'[|out|..], old(fn.nextVreg), signed, t, src, r)
    ensures Encoded(arch, out, out')
  {
    hide Normalises, Extends, Encoded;
    EncodedNothing(arch, out);
    r, out' := src, out;
    if t.width.Some? {
      if signed && t.known {
      } else if signed {
        r, out' := EmitSignExtendedValue(arch, src, t.width.value, out, fn);
      } else {
        r, out' := EmitMaskedValue(arch, src, t.width.value, out, fn);
      }
    }
    if t.width.Some? && t.width.value < Xlen(arch) && !(signed && t.known) {
      NormaliseExtends(arch, out'[|out|..], old(fn.nextVreg), signed, t, src, r);
    } else {
      assert out'[|out|..] == [];
      NothingExtends(arch, old(fn.nextVreg), signed, t, src);
    }
  }

  /** Values trusted to be extended, without a width or as wide as a register are left alone. */
  lemma NothingExtends(arch: Arch, next: nat, signed: bool, t: Typed, src: Register)
    requires t.width.None? || t.width.value >= Xlen(arch) || (signed && t.known)
    ensures Extends(arch, [], next, signed, t, src, src)
  {
    hide InRange, Low, Pow2, Signed, Normal;
  }

  lemma NormaliseExtends(arch: Arch, code: seq<Inst>, next: nat, signed: bool, t: Typed, src: Register, r: Register)
    requires t.width.Some? && t.width.value < Xlen(arch) && !(signed && t.known) && r == Virtual(next)
    requires Normalises(arch, code, next, r, src, t.width.value, signed)
    ensures Extends(arch, code, next, signed, t, src, r)
  {
    hide Exec, InRange, Low, Pow2, Signed;
  }

  method LowerIcmpOperands(arch: Arch, lhs: Typed, rhs: Typed, code: ICmpCode, vregs: VRegs, out: seq<Inst>,
                           fn: MachineFunction)
    returns (ok: bool, rs1: Register, rs2: Register, out': seq<Inst>)
    requires UsableTyped(lhs, vregs, fn.nextVreg) && UsableTyped(rhs, vregs, fn.nextVreg)
    modifies fn`nextVreg
    ensures fn.nextVreg >= old(fn.nextVreg) && out <= out' && Straight(out'[|out|..])
    ensures ok <==> IsKnown(lhs, vregs) && IsKnown(rhs, vregs)
    ensures ok ==> Allocated(rs1, fn.nextVreg) && Allocated(rs2, fn.nextVreg)
    ensures ok ==> OperandsReady(arch, out'[|out|..], old(fn.nextVreg), IsSigned(code), lhs, rhs, vregs, rs1, rs2)
    ensures Encoded(arch, out, out')
  {
    hide Loads, Extends, OperandsReady, Encoded;
    rs1, rs2 := ZERO, ZERO;
    ghost var n1 := fn.nextVreg;
    var l, out1 := LowerOperand(arch, lhs.op, vregs, out, fn);
    if l.UnknownOperand? {
      return false, rs1, rs2, out1;
    }
    ghost var n2 := fn.nextVreg;
    var r, out2 := LowerOperand(arch, rhs.op, vregs, out1, fn);
    EncodedThen(arch, out, out1, out2);
    if r.UnknownOperand? {
      return false, rs1, rs2, out2;
    }
    ghost var n3 := fn.nextVreg;
    var out3;
    rs1, out3 := EmitNormalizedIntOperand(arch, lhs, l.r, IsSigned(code), out2, fn);
    ghost var n4 := fn.nextVreg;
    rs2, out' := EmitNormalizedIntOperand(arch, rhs, r.r, IsSigned(code), out3, fn);
    EncodedThen(arch, out, out2, out3);
    EncodedThen(arch, out, out3, out');
    OperandsCompose(arch, out1[|out|..], out2[|out1|..], out3[|out2|..], out'[|out3|..], n1, n2, n3, n4, IsSigned(code),
      lhs, rhs, vregs, l.r, r.r, rs1, rs2);
    assert out'[|out|..] == out1[|out|..] + out2[|out1|..] + out3[|out2|..] + out'[|out3|..];
    ok := true;
  }

  lemma ExtendsAt(arch: Arch, code: seq<Inst>, next: nat, signed: bool, t: Typed, src: Register, r: Register,
                  X: Externals, st: State)
    requires Extends(arch, code, next, signed, t, src, r) && InRange(arch, st.regs)
    ensures var st' := Exec(arch, X, code, st);
      && Undisturbed(next, st, st')
      && (signed && t.known ==> r == src)
      && (!(signed && t.known) ==> Read(st'.regs, r) == Extended(arch, t.width, signed, Read(st.regs, src)))
  {
    hide Exec, InRange, Extended, Undisturbed;
  }

  lemma OperandsCompose(arch: Arch, c1: seq<Inst>, c2: seq<Inst>, c3: seq<Inst>, c4: seq<Inst>, n1: nat, n2: nat,
                        n3: nat, n4: nat, signed: bool,
                        lhs: Typed, rhs: Typed, vregs: VRegs, l: Register, r: Register, rs1: Register, rs2: Register)
    requires n1 <= n2 <= n3 <= n4 && Allocated(l, n2) && Allocated(r, n3) && Allocated(rs1, n4)
    requires rhs.op.Value? && rhs.op.id in vregs ==> vregs[rhs.op.id] < n1
    requires Loads(arch, c1, n1, l, lhs.op, vregs) && Loads(arch, c2, n2, r, rhs.op, vregs)
    requires Extends(arch, c3, n3, signed, lhs, l, rs1) && Extends(arch, c4, n4, signed, rhs, r, rs2)
    ensures OperandsReady(arch, c1 + c2 + c3 + c4, n1, signed, lhs, rhs, vregs, rs1, rs2)
  {
    hide Exec, InRange, Low, Pow2, Extended, OperandValue, Loads, Extends;
    forall X, st: State | InRange(arch, st.regs)
      && (signed ==> Trusted(arch, X, vregs, lhs, st.regs) && Trusted(arch, X, vregs, rhs, st.regs))
      ensures var st' := Exec(arch, X, c1 + c2 + c3 + c4, st);
      && Undisturbed(n1, st, st')
      && Read(st'.regs, rs1) == Extended(arch, lhs.width, signed, OperandValue(arch, X, vregs, lhs.op, st.regs))
      && Read(st'.regs, rs2) == Extended(arch, rhs.width, signed, OperandValue(arch, X, vregs, rhs.op, st.regs))
    {
      var st1 := Exec(arch, X, c1, st);
      var st2 := Exec(arch, X, c2, st1);
      var st3 := Exec(arch, X, c3, st2);
      ExecAppend(arch, X, c1 + c2 + c3, c4, st);
      ExecAppend(arch, X, c1 + c2, c3, st);
      ExecAppend(arch, X, c1, c2, st);
      LoadsAt(arch, c1, n1, l, lhs.op, vregs, X, st);
      LoadsAt(arch, c2, n2, r, rhs.op, vregs, X, st1);
      ExecInRange(arch, X, c3, st2);
      ExtendsAt(arch, c3, n3, signed, lhs, l, rs1, X, st2);
      ExtendsAt(arch, c4, n4, signed, rhs, r, rs2, X, st3);
      SameOperand(arch, X, vregs, rhs.op, n1, st, st1);
    }
  }

  lemma SameOperand(arch: Arch, X: Externals, vregs: VRegs, op: Operand, next: nat, st: State, st': State)
    requires Undisturbed(next, st, st') && (op.Value? && op.id in vregs ==> vregs[op.id] < next)
    ensures OperandValue(arch, X, vregs, op, st'.regs) == OperandValue(arch, X, vregs, op, st.regs)
  {
    hide Low, Pow2, Signed;
  }

  // ---------------------------------------------------------------- agreement with folding

  /** The compile-time integer an operand denotes at run time. */
  ghost function Denotes(arch: Arch, X: Externals, vregs: VRegs, op: Operand, bits: nat, regs: Regs): CoreInt {
    CoreInt(Low(bits, OperandValue(arch, X, vregs, op, regs)), bits)
  }

  predicate SameIntWidth(lhs: Typed, rhs: Typed, arch: Arch, code: ICmpCode) {
    && lhs.width.Some? && rhs.width == lhs.width && 1 <= lhs.width.value <= Xlen(arch)
    && (IsSigned(code) ==> lhs.width.value > 1)
  }

  ghost predicate Comparable(arch: Arch, X: Externals, vregs: VRegs, signed: bool, lhs: Typed, rhs: Typed, regs: Regs) {
    InRange(arch, regs) && (signed ==> Trusted(arch, X, vregs, lhs, regs) && Trusted(arch, X, vregs, rhs, regs))
  }

  ghost predicate ComparesAsFolded(arch: Arch, code: seq<Inst>, next: nat, rd: Register, icmp: ICmpCode, lhs: Typed,
                                   rhs: Typed, vregs: VRegs)
    requires SameIntWidth(lhs, rhs, arch, icmp)
  {
    var bits := lhs.width.value;
    forall X, st: State :: Comparable(arch, X, vregs, IsSigned(icmp), lhs, rhs, st.regs) ==>
      var st' := Exec(arch, X, code, st);
      && KeepsOthers(next, rd, st, st')
      && Read(st'.regs, rd) == Truth(FoldedCompare(arch, X, vregs, icmp, lhs.op, rhs.op, bits, st.regs))
  }

  ghost predicate FoldedCompare(arch: Arch, X: Externals, vregs: VRegs, icmp: ICmpCode, lhs: Operand, rhs: Operand,
                                bits: nat, regs: Regs)
    requires 1 <= bits <= 64
  {
    Compare(icmp, Denotes(arch, X, vregs, lhs, bits, regs), Denotes(arch, X, vregs, rhs, bits, regs))
  }

  lemma ReadyComparison(arch: Arch, X: Externals, vregs: VRegs, icmp: ICmpCode, lhs: Typed, rhs: Typed, st: State,
                        st': State, rs1: Register, rs2: Register)
    requires SameIntWidth(lhs, rhs, arch, icmp) && InRange(arch, st.regs)
    requires Read(st'.regs, rs1)
      == Extended(arch, lhs.width, IsSigned(icmp), OperandValue(arch, X, vregs, lhs.op, st.regs))
    requires Read(st'.regs, rs2)
      == Extended(arch, rhs.width, IsSigned(icmp), OperandValue(arch, X, vregs, rhs.op, st.regs))
    ensures Holds(arch, icmp, Reg(arch, st'.regs, rs1), Reg(arch, st'.regs, rs2))
            == FoldedCompare(arch, X, vregs, icmp, lhs.op, rhs.op, lhs.width.value, st.regs)
  {
    OperandInRange(arch, X, vregs, lhs.op, st.regs);
    OperandInRange(arch, X, vregs, rhs.op, st.regs);
    NormalisedComparison(arch, icmp, lhs.width.value, OperandValue(arch, X, vregs, lhs.op, st.regs),
      OperandValue(arch, X, vregs, rhs.op, st.regs));
    hide Low, Pow2, Extended, OperandValue, InRange, Holds, Compare;
  }

  /** A comparison lowered to a value leaves exactly what folding it would. */
  method LowerIcmpValue(arch: Arch, icmp: ICmpCode, lhs: Typed, rhs: Typed, rd: Register, vregs: VRegs, out: seq<Inst>,
                        fn: MachineFunction)
    returns (ok: bool, out': seq<Inst>)
    requires UsableTyped(lhs, vregs, fn.nextVreg) && UsableTyped(rhs, vregs, fn.nextVreg)
    requires rd != ZERO && Allocated(rd, fn.nextVreg)
    modifies fn`nextVreg
    ensures fn.nextVreg >= old(fn.nextVreg) && out <= out'
    ensures ok <==> IsKnown(lhs, vregs) && IsKnown(rhs, vregs)
    ensures ok && SameIntWidth(lhs, rhs, arch, icmp) ==>
      ComparesAsFolded(arch, out'[|out|..], old(fn.nextVreg), rd, icmp, lhs, rhs, vregs)
    ensures Encoded(arch, out, out')
  {
    hide OperandsReady, Decides, ComparesAsFolded, Encoded;
    ghost var n1 := fn.nextVreg;
    var rs1, rs2, out1;
    ok, rs1, rs2, out1 := LowerIcmpOperands(arch, lhs, rhs, icmp, vregs, out, fn);
    if !ok {
      return false, out1;
    }
    ghost var n2 := fn.nextVreg;
    out' := EmitIcmp(arch, icmp, rd, rs1, rs2, out1, fn);
    EncodedThen(arch, out, out1, out');
    assert out'[|out|..] == out1[|out|..] + out'[|out1|..];
    if SameIntWidth(lhs, rhs, arch, icmp) {
      ValueCompose(arch, out1[|out|..], out'[|out1|..], n1, n2, rd, icmp, lhs, rhs, vregs, rs1, rs2);
    }
  }

  lemma ValueCompose(arch: Arch, c1: seq<Inst>, c2: seq<Inst>, n1: nat, n2: nat, rd: Register, icmp: ICmpCode,
                     lhs: Typed, rhs: Typed, vregs: VRegs,
                     rs1: Register, rs2: Register)
    requires n1 <= n2 && SameIntWidth(lhs, rhs, arch, icmp)
    requires OperandsReady(arch, c1, n1, IsSigned(icmp), lhs, rhs, vregs, rs1, rs2)
    requires Decides(arch, c2, n2, rd, icmp, rs1, rs2)
    ensures ComparesAsFolded(arch, c1 + c2, n1, rd, icmp, lhs, rhs, vregs)
  {
    hide Exec, InRange, Low, Pow2, Extended, FoldedCompare, Holds, OperandValue, Trusted;
    var bits := lhs.width.value;
    forall X, st: State | Comparable(arch, X, vregs, IsSigned(icmp), lhs, rhs, st.regs)
      ensures var st' := Exec(arch, X, c1 + c2, st);
        && KeepsOthers(n1, rd, st, st')
        && Read(st'.regs, rd) == Truth(FoldedCompare(arch, X, vregs, icmp, lhs.op, rhs.op, bits, st.regs))
    {
      var mid := Exec(arch, X, c1, st);
      ExecAppend(arch, X, c1, c2, st);
      ExecInRange(arch, X, c1, st);
      ReadyComparison(arch, X, vregs, icmp, lhs, rhs, st, mid, rs1, rs2);
    }
  }
}
