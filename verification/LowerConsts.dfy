/** Integer operators with a constant on the right: shifts, masks and negations in place of
    multiplications, divisions and remainders (src/mir/lower.rs:419-619). */
module LowerConsts {
  import opened Machine
  import opened Bits
  import opened CoreInts
  import opened LowerArith

  // ---------------------------------------------------------------- what a 64-bit register holds afterwards

  /** The register holds a 32-bit number, sign-extended: what lowering trusts of most 32-bit values on
      RV64 (src/mir/lower.rs:343-393). */
  ghost predicate Extended32(v: int) {
    v == Low(64, Signed(32, v))
  }

  /** A number in a 64-bit register is sign-extended from 32 bits exactly when it fits them. */
  lemma ExtendedExactly(t: int)
    requires -0x8000_0000_0000_0000 <= t < 0x8000_0000_0000_0000
    ensures Extended32(Low(64, t)) <==> IsI32(t)
  {
    Pow64();
    LowOfLow(32, 64, t);
    LowSigned(32, Low(64, t));
    LowSigned(32, t);
    SignedIsI32(t);
    hide Low, Pow2, Signed;
    SignedUnique(64, t, t);
    var u := Signed(32, t);
    SignedUnique(64, u, u);
    if IsI32(t) {
      FitsReads(t);
    }
  }

  lemma FitsReads(t: int)
    requires IsI32(t)
    ensures Signed(32, t) == t
  {
    Pow32();
    SignedUnique(32, t, t);
  }

  lemma SignedIsI32(a: int)
    ensures IsI32(Signed(32, a))
  {
    Pow32();
    LowSigned(32, a);
  }

  /** A sign-extended register is the number its low 32 bits read as. */
  lemma ExtendedIs(v: int, t: int)
    requires Extended32(v) && IsI32(t) && Low(32, v) == Low(32, t)
    ensures v == Low(64, t) && Signed(32, v) == t
  {
    Pow32();
    hide Low, Signed, Pow2;
    SignedUnique(32, v, t);
  }

  lemma WordExtended(x: int)
    ensures Extended32(Word(RV64, x)) && Low(64, Word(RV64, x)) == Word(RV64, x)
  {
    LowOfLow(32, 64, Signed(32, x));
    LowOfLow(64, 64, Signed(32, x));
    LowSigned(32, x);
    LowSigned(32, Low(64, Signed(32, x)));
    hide Low, Signed, Pow2;
  }

  predicate IsW(inst: Inst) {
    (inst.RegReg? && inst.op in {RegOp.Addw, RegOp.Subw, RegOp.Mulw, RegOp.Divw, RegOp.Divuw, RegOp.Remw, RegOp.Remuw,
      RegOp.Sllw, RegOp.Srlw, RegOp.Sraw}) ||
    (inst.RegImm? && inst.iop in {Addiw, Slliw, Srliw, Sraiw})
  }

  lemma WComputes(inst: Inst, regs: Regs) returns (x: int)
    requires IsW(inst)
    ensures Computed(RV64, inst, regs) == Word(RV64, x)
  {
    hide Word, Low, Signed, Pow2, Bitwise, DivS, RemS, DivU, RemU, Pattern;
    if inst.RegReg? {
      x := WRegValue(inst.op, Pattern(RV64, regs, inst.rs1), Pattern(RV64, regs, inst.rs2));
    } else {
      x := WImmValue(inst.iop, Pattern(RV64, regs, inst.rs1), inst.imm);
    }
  }

  lemma WRegValue(op: RegOp, a: nat, b: nat) returns (x: int)
    requires op in {RegOp.Addw, RegOp.Subw, RegOp.Mulw, RegOp.Divw, RegOp.Divuw, RegOp.Remw, RegOp.Remuw, RegOp.Sllw,
      RegOp.Srlw, RegOp.Sraw}
    ensures EvalRegOp(RV64, op, a, b) == Word(RV64, x)
  {
    hide Word, Low, Signed, Pow2, Bitwise, DivS, RemS, DivU, RemU;
    x := if op == RegOp.Addw then a + b
      else if op == RegOp.Subw then a - b
      else if op == RegOp.Mulw then a * b
      else if op == RegOp.Divw then DivS(32, a, b)
      else if op == RegOp.Divuw then DivU(32, Low(32, a), Low(32, b))
      else if op == RegOp.Remw then RemS(32, a, b)
      else if op == RegOp.Remuw then RemU(32, Low(32, a), Low(32, b))
      else if op == RegOp.Sllw then a * Pow2(b % 32)
      else if op == RegOp.Srlw then Low(32, a) / Pow2(b % 32)
      else Signed(32, a) / Pow2(b % 32);
  }

  lemma WImmValue(op: ImmOp, a: nat, imm: int) returns (x: int)
    requires op in {Addiw, Slliw, Srliw, Sraiw}
    ensures EvalImmOp(RV64, op, a, imm) == Word(RV64, x)
  {
    hide Word, Low, Signed, Pow2, Bitwise;
    x := if op == Addiw then a + imm
      else if op == Slliw then a * Pow2(imm % 32)
      else if op == Srliw then Low(32, a) / Pow2(imm % 32)
      else Signed(32, a) / Pow2(imm % 32);
  }

  /** Code that ends in a W form leaves a sign-extended register. */
  lemma LastIsW(X: Externals, code: seq<Inst>, inst: Inst, st: State)
    requires IsW(inst) && inst.rd != ZERO
    ensures Extended32(Read(Exec(RV64, X, code + [inst], st).regs, inst.rd))
  {
    hide Exec, Step, Computed, Word, Low, Signed, Pow2;
    var mid := Exec(RV64, X, code, st);
    ExecSnoc(RV64, X, code, inst, st);
    StepCompute(RV64, X, inst, mid);
    var x := WComputes(inst, mid.regs);
    WordExtended(x);
  }

  /** What multiplying by a constant leaves in the register: the product cut to 32 bits, but for the
      negative of a power of two, where it is the shifted number that is cut, and then negated. */
  function MulValue(v: int, imm: int): int {
    if imm < 0 && IsPowerOfTwo(-imm) then -Signed(32, v * -imm) else Signed(32, v * imm)
  }

  /** The whole number left in the register by the specialised code for a constant. */
  function LeftValue(op: BinaryOpcode, v: int, imm: int): int
    requires op == BinaryOpcode.Mul || (imm != 0 && (op == SDiv || op == SRem))
  {
    match op
    case SDiv => TruncDiv(v, imm)
    case SRem => if Abs(imm) == 1 then 0 else v - MulValue(TruncDiv(v, imm), imm)
    case _ => MulValue(v, imm)
  }

  /** From every state in which rs holds a sign-extended number, the code leaves that value in the
      whole of rd. */
  ghost predicate LeavesValue(code: seq<Inst>, rd: Register, op: BinaryOpcode, rs: Register, imm: int)
    requires op == BinaryOpcode.Mul || (imm != 0 && (op == SDiv || op == SRem))
  {
    forall X, st: State :: InRange(RV64, st.regs) && Extended32(Read(st.regs, rs)) ==>
      Read(Exec(RV64, X, code, st).regs, rd) == Low(64, LeftValue(op, Signed(32, Read(st.regs, rs)), imm))
  }

  lemma ZeroLeaves(rd: Register, op: BinaryOpcode, rs: Register, imm: int)
    requires op == BinaryOpcode.Mul || (imm != 0 && (op == SDiv || op == SRem))
    requires rd != ZERO && forall v: int :: IsI32(v) ==> LeftValue(op, v, imm) == 0
    ensures LeavesValue([Mv(rd, ZERO)], rd, op, rs, imm)
  {
    hide Low, Pow2, Signed, Exec, Step, LeftValue, InRange;
    LowSmall(64, 0);
    forall X, st: State | InRange(RV64, st.regs) && Extended32(Read(st.regs, rs))
      ensures Read(Exec(RV64, X, [Mv(rd, ZERO)], st).regs, rd)
        == Low(64, LeftValue(op, Signed(32, Read(st.regs, rs)), imm))
    {
      SignedIsI32(Read(st.regs, rs));
      Exec1(RV64, X, Mv(rd, ZERO), st);
      StepCompute(RV64, X, Mv(rd, ZERO), st);
    }
  }

  lemma CopyLeaves(rd: Register, op: BinaryOpcode, rs: Register, imm: int)
    requires op == BinaryOpcode.Mul || (imm != 0 && (op == SDiv || op == SRem))
    requires (rd == rs || rd != ZERO) && forall v: int :: IsI32(v) ==> LeftValue(op, v, imm) == v
    ensures LeavesValue(if rd == rs then [] else [Mv(rd, rs)], rd, op, rs, imm)
  {
    hide Low, Pow2, Signed, Step, LeftValue, InRange;
    var code := if rd == rs then [] else [Mv(rd, rs)];
    forall X, st: State | InRange(RV64, st.regs) && Extended32(Read(st.regs, rs))
      ensures Read(Exec(RV64, X, code, st).regs, rd) == Low(64, LeftValue(op, Signed(32, Read(st.regs, rs)), imm))
    {
      SignedIsI32(Read(st.regs, rs));
      if rd != rs {
        Exec1(RV64, X, Mv(rd, rs), st);
        StepCompute(RV64, X, Mv(rd, rs), st);
        LowOfLow(64, 64, Signed(32, Read(st.regs, rs)));
      }
    }
  }

  /** A full-width subtraction of two registers that hold known numbers. */
  lemma SubLeaves(rd: Register, r1: Register, r2: Register, regs: Regs, a: int, b: int)
    requires Read(regs, r1) == Low(64, a) && Read(regs, r2) == Low(64, b)
    ensures Low(64, Computed(RV64, RegReg(RegOp.Sub, rd, r1, r2), regs)) == Low(64, a - b)
  {
    LowOfLow(64, 64, a);
    LowOfLow(64, 64, b);
    LowAdd(64, Low(64, a), Low(64, b), a, b);
    LowOfLow(64, 64, Low(64, a) - Low(64, b));
    hide Low, Pow2;
  }

  lemma NegateLeaves(code: seq<Inst>, tmp: Register, rd: Register, op: BinaryOpcode, rs: Register, c: int, imm: int)
    requires (op == BinaryOpcode.Mul || (imm != 0 && c != 0 && op == SDiv)) && rd != ZERO
    requires LeavesValue(code, tmp, op, rs, c)
    requires forall v: int :: IsI32(v) ==> LeftValue(op, v, imm) == -LeftValue(op, v, c)
    ensures LeavesValue(code + [RegReg(RegOp.Sub, rd, ZERO, tmp)], rd, op, rs, imm)
  {
    hide Low, Pow2, Signed, Exec, Step, LeftValue, InRange, Computed;
    var sub := RegReg(RegOp.Sub, rd, ZERO, tmp);
    LowSmall(64, 0);
    forall X, st: State | InRange(RV64, st.regs) && Extended32(Read(st.regs, rs))
      ensures Read(Exec(RV64, X, code + [sub], st).regs, rd)
        == Low(64, LeftValue(op, Signed(32, Read(st.regs, rs)), imm))
    {
      var v := Signed(32, Read(st.regs, rs));
      var mid := Exec(RV64, X, code, st);
      SignedIsI32(Read(st.regs, rs));
      ExecSnoc(RV64, X, code, sub, st);
      StepCompute(RV64, X, sub, mid);
      SubLeaves(rd, ZERO, tmp, mid.regs, 0, LeftValue(op, v, c));
    }
  }

  /** On a pattern the operator computes the value that is left, and it fits 32 bits. */
  ghost predicate IsLeftValue(op: BinaryOpcode, a: nat, imm: int)
    requires op == BinaryOpcode.Mul || (imm != 0 && (op == SDiv || op == SRem))
  {
    var t := LeftValue(op, Signed(32, a), imm);
    IsI32(t) && Low(32, ValueAt(32, op, Low(32, a), Low(32, imm))) == Low(32, t)
  }

  /** Code that computes the operator in the low 32 bits and ends in a W form. */
  lemma WLeaves(code: seq<Inst>, inst: Inst, next: nat, op: BinaryOpcode, rs: Register, imm: int)
    requires op == BinaryOpcode.Mul || (imm != 0 && op == SDiv)
    requires IsW(inst) && inst.rd != ZERO
    requires ComputesOn(RV64, 32, 32, code + [inst], next, inst.rd, op, rs, Fixed(imm))
    requires forall a: nat :: IsLeftValue(op, a, imm)
    ensures LeavesValue(code + [inst], inst.rd, op, rs, imm)
  {
    hide Low, Pow2, Signed, Exec, Step, LeftValue, InRange, ValueAt, KeepsOthers, IsI32, Extended32, Narrow;
    forall X, st: State | InRange(RV64, st.regs) && Extended32(Read(st.regs, rs))
      ensures Read(Exec(RV64, X, code + [inst], st).regs, inst.rd)
        == Low(64, LeftValue(op, Signed(32, Read(st.regs, rs)), imm))
    {
      PatternInRange(RV64, st.regs, rs);
      var a: nat := Read(st.regs, rs);
      AllNarrow(32, a);
      assert IsLeftValue(op, a, imm);
      LastIsW(X, code, inst, st);
      ExtendedIs(Read(Exec(RV64, X, code + [inst], st).regs, inst.rd), LeftValue(op, Signed(32, a), imm));
    }
  }

  lemma MulShifted(s: nat)
    requires s < 32
    ensures forall a: nat :: IsLeftValue(BinaryOpcode.Mul, a, Pow2(s))
  {
    hide ValueAt, Low, Pow2, Signed;
    forall a: nat ensures IsLeftValue(BinaryOpcode.Mul, a, Pow2(s)) {
      var v := Signed(32, a);
      MulFixed(32, a, Pow2(s));
      LowSigned(32, a);
      LowMul(32, a, Pow2(s), v, Pow2(s));
      LowSigned(32, v * Pow2(s));
      SignedIsI32(v * Pow2(s));
    }
  }

  lemma DivShifted(s: nat)
    requires 1 <= s < 31
    ensures forall a: nat :: IsLeftValue(SDiv, a, Pow2(s))
  {
    hide ValueAt, Low, Pow2, Signed, TruncDiv;
    SmallPower(s);
    forall a: nat ensures IsLeftValue(SDiv, a, Pow2(s)) {
      DivFixed(32, Low(32, a), Pow2(s));
      LowSigned(32, a);
      SignedIsI32(a);
      QuotientFits(Signed(32, a), Pow2(s));
    }
  }

  lemma QuotientFits(v: int, c: int)
    requires IsI32(v) && c > 0
    ensures IsI32(TruncDiv(v, c))
  {
    var u := if v < 0 then -v else v;
    assert u == (u / c) * c + u % c;
    if u / c > u {
      MulMonotone(1, c, u / c);
    }
  }

  lemma MulValues(s: nat)
    requires s < 32
    ensures forall v: int :: IsI32(v) ==>
      LeftValue(BinaryOpcode.Mul, v, 0) == 0 && LeftValue(BinaryOpcode.Mul, v, 1) == v
    ensures forall v: int :: LeftValue(BinaryOpcode.Mul, v, -Pow2(s)) == -LeftValue(BinaryOpcode.Mul, v, Pow2(s))
  {
    PowIsPower(s);
    forall v: int | IsI32(v)
      ensures LeftValue(BinaryOpcode.Mul, v, 0) == 0 && LeftValue(BinaryOpcode.Mul, v, 1) == v
    {
      FitsReads(v);
      FitsReads(0);
    }
    hide Signed, Pow2, Low, IsPowerOfTwo;
  }

  lemma {:induction false} PowIsPower(s: nat)
    ensures IsPowerOfTwo(Pow2(s))
  {
    if s > 0 {
      PowIsPower(s - 1);
    }
  }

  lemma DivValues(c: int)
    requires c > 0
    ensures forall v: int :: LeftValue(SDiv, v, 1) == v
    ensures forall v: int :: LeftValue(SDiv, v, -c) == -LeftValue(SDiv, v, c)
  {
    forall v: int ensures LeftValue(SDiv, v, -c) == -LeftValue(SDiv, v, c) {
      TruncDivNegated(v, c);
      hide TruncDiv;
    }
  }

  lemma NegatedLeaves(rd: Register, op: BinaryOpcode, rs: Register)
    requires rd != ZERO && (op == BinaryOpcode.Mul || op == SDiv)
    ensures LeavesValue([RegReg(RegOp.Sub, rd, ZERO, rs)], rd, op, rs, -1)
  {
    MulValues(0);
    DivValues(1);
    hide LeavesValue, LeftValue;
    CopyLeaves(rs, op, rs, 1);
    assert Pow2(0) == 1;
    NegateLeaves([], rs, rd, op, rs, 1, -1);
    assert [] + [RegReg(RegOp.Sub, rd, ZERO, rs)] == [RegReg(RegOp.Sub, rd, ZERO, rs)];
  }

  lemma ShiftedLeaves(rd: Register, rs: Register, s: nat, next: nat)
    requires rd != ZERO && s < 32
    ensures LeavesValue([RegImm(Slliw, rd, rs, s)], rd, BinaryOpcode.Mul, rs, Pow2(s))
  {
    var code := [RegImm(Slliw, rd, rs, s)];
    hide LeavesValue, LeftValue, Computes, ComputesOn, ValueAt, Low, Pow2;
    ShiftLeftIsMul(RV64, 32, rd, rs, s, next);
    ComputesOnAny(RV64, 32, 32, code, next, rd, BinaryOpcode.Mul, rs, Fixed(Pow2(s)));
    MulShifted(s);
    assert [] + code == code;
    WLeaves([], code[0], next, BinaryOpcode.Mul, rs, Pow2(s));
  }

  lemma DividedLeaves(code: seq<Inst>, quotient: Register, rs: Register, sign: Register, biased: Register, s: nat,
                      next: nat)
    requires 1 <= s < 31 && quotient != ZERO && code == SdivInsts(RV64, 32, 32, quotient, rs, sign, biased, s)
    requires ComputesOn(RV64, 32, 32, code, next, quotient, SDiv, rs, Fixed(Pow2(s)))
    ensures LeavesValue(code, quotient, SDiv, rs, Pow2(s))
  {
    SmallPower(s);
    SdivListed(RV64, 32, 32, quotient, rs, sign, biased, s);
    var init, last := code[..3], RegImm(Sraiw, quotient, biased, s);
    assert code == init + [last];
    DivShifted(s);
    hide LeavesValue, LeftValue, ComputesOn, ValueAt, Low, Pow2, SdivInsts;
    WLeaves(init, last, next, SDiv, rs, Pow2(s));
  }

  /** rem = dividend - quotient * divisor, all at the register's width. */
  lemma RemLeaves(c1: seq<Inst>, c2: seq<Inst>, q: Register, p: Register, rd: Register, rs: Register, imm: int,
                  next: nat, next2: nat)
    requires IsI32(imm) && Abs(imm) > 1 && rd != ZERO && next <= next2 && Allocated(rs, next)
    requires q != ZERO && p != ZERO && !Allocated(q, next) && !Allocated(p, next)
    requires LeavesValue(c1, q, SDiv, rs, imm) && LeavesValue(c2, p, BinaryOpcode.Mul, q, imm)
    requires ComputesOn(RV64, 32, 32, c1, next, q, SDiv, rs, Fixed(imm))
    requires Computes(RV64, 32, c2, next2, p, BinaryOpcode.Mul, q, Fixed(imm))
    ensures LeavesValue(c1 + c2 + [RegReg(RegOp.Sub, rd, rs, p)], rd, SRem, rs, imm)
  {
    hide Low, Pow2, Signed, Exec, Step, InRange, ValueAt, Computed, TruncDiv, MulValue, Narrow, Extended32;
    var sub := RegReg(RegOp.Sub, rd, rs, p);
    forall X, st: State | InRange(RV64, st.regs) && Extended32(Read(st.regs, rs))
      ensures Read(Exec(RV64, X, c1 + c2 + [sub], st).regs, rd)
        == Low(64, LeftValue(SRem, Signed(32, Read(st.regs, rs)), imm))
    {
      var v := Signed(32, Read(st.regs, rs));
      var d := TruncDiv(v, imm);
      var st1 := Exec(RV64, X, c1, st);
      var st2 := Exec(RV64, X, c2, st1);
      AllNarrow(32, Read(st.regs, rs));
      SignedIsI32(Read(st.regs, rs));
      ExecInRange(RV64, X, c1, st);
      ExecAppend(RV64, X, c1, c2, st);
      ExecSnoc(RV64, X, c1 + c2, sub, st);
      StepCompute(RV64, X, sub, st2);
      QuotientShrinks(v, imm);
      KnownExtended(Read(st1.regs, q), d);
      assert Read(st2.regs, p) == Low(64, MulValue(d, imm));
      assert Read(st2.regs, rs) == Low(64, v) by { ExtendedReads(Read(st.regs, rs)); }
      SubLeaves(rd, rs, p, st2.regs, v, MulValue(d, imm));
    }
  }

  lemma ExtendedReads(v: int)
    requires Extended32(v)
    ensures v == Low(64, Signed(32, v))
  {
  }

  lemma KnownExtended(v: int, t: int)
    requires v == Low(64, t) && IsI32(t)
    ensures Extended32(v) && Signed(32, v) == t
  {
    ExtendedExactly(t);
    LowOfLow(32, 64, t);
    ExtendedIs(v, t);
  }

  lemma QuotientShrinks(v: int, c: int)
    requires IsI32(v) && Abs(c) > 1
    ensures IsI32(TruncDiv(v, c))
  {
    HalfAtMost(v, Abs(c));
    if c < 0 {
      TruncDivNegated(v, -c);
    }
    hide TruncDiv;
  }

  lemma HalfAtMost(v: int, c: int)
    requires c >= 2
    ensures 2 * Abs(TruncDiv(v, c)) <= Abs(v)
  {
    DivisionSplits(Abs(v), c);
    MulMonotone(2, c, Abs(v) / c);
  }

  lemma DivisionSplits(u: nat, c: int)
    requires c > 0
    ensures 0 <= u / c && (u / c) * c <= u
  {
    assert u == (u / c) * c + u % c;
  }

  // ---------------------------------------------------------------- operators with a constant operand

  lemma MulFixed(k: nat, a: nat, c: int)
    requires k >= 1
    ensures Low(k, ValueAt(k, BinaryOpcode.Mul, Low(k, a), Low(k, c))) == Low(k, a * c)
  {
    LowOfLow(k, k, a);
    LowOfLow(k, k, c);
    LowMul(k, a, c, Low(k, a), Low(k, c));
  }

  lemma SignedOfI32(k: nat, c: int)
    requires IsI32(c) && k >= 32
    ensures Signed(k, Low(k, c)) == c
  {
    Pow32();
    PowMonotone(31, k - 1);
    LowOfLow(k, k, c);
    SignedUnique(k, Low(k, c), c);
  }

  lemma DivFixed(k: nat, a: nat, c: int)
    requires IsI32(c) && c != 0 && k >= 32
    ensures ValueAt(k, BinaryOpcode.SDiv, a, Low(k, c)) == TruncDiv(Signed(k, a), c)
    ensures ValueAt(k, BinaryOpcode.SRem, a, Low(k, c)) == Signed(k, a) - TruncDiv(Signed(k, a), c) * c
  {
    SignedOfI32(k, c);
    hide Signed, TruncDiv, Low, Pow2;
  }

  /** rd := 0 - rs, which the compiler emits as a full-width subtraction. */
  lemma NegateCode(arch: Arch, k: nat, rd: Register, rs: Register, regs: Regs)
    requires InRange(arch, regs) && k <= Xlen(arch)
    ensures Low(k, Computed(arch, RegReg(RegOp.Sub, rd, ZERO, rs), regs)) == Low(k, -Read(regs, rs))
  {
    PatternInRange(arch, regs, rs);
    LowSmall(Xlen(arch), 0);
    LowOfLow(k, Xlen(arch), -Read(regs, rs));
    hide Low, Pow2;
  }

  lemma SubCode(arch: Arch, k: nat, rd: Register, rs1: Register, rs2: Register, regs: Regs)
    requires InRange(arch, regs) && k <= Xlen(arch)
    ensures Low(k, Computed(arch, RegReg(RegOp.Sub, rd, rs1, rs2), regs)) == Low(k, Read(regs, rs1) - Read(regs, rs2))
  {
    PatternInRange(arch, regs, rs1);
    PatternInRange(arch, regs, rs2);
    LowOfLow(k, Xlen(arch), Read(regs, rs1) - Read(regs, rs2));
    hide Low, Pow2;
  }

  /** Appends a full-width negation to code that leaves v in tmp. */
  lemma ThenNegate(arch: Arch, k: nat, X: Externals, code: seq<Inst>, tmp: Register, rd: Register, next: nat, v: int,
                   st: State)
    requires InRange(arch, st.regs) && rd != ZERO && tmp != ZERO && !Allocated(tmp, next) && k <= Xlen(arch)
    requires KeepsOthers(next, tmp, st, Exec(arch, X, code, st))
    requires Low(k, Read(Exec(arch, X, code, st).regs, tmp)) == Low(k, v)
    ensures var st' := Exec(arch, X, code + [RegReg(RegOp.Sub, rd, ZERO, tmp)], st);
      KeepsOthers(next, rd, st, st') && Low(k, Read(st'.regs, rd)) == Low(k, -v)
  {
    hide Low, Pow2, Computed, Step, Exec, InRange;
    var mid := Exec(arch, X, code, st);
    var inst := RegReg(RegOp.Sub, rd, ZERO, tmp);
    ExecInRange(arch, X, code, st);
    ExecSnoc(arch, X, code, inst, st);
    StepCompute(arch, X, inst, mid);
    NegateCode(arch, k, rd, tmp, mid.regs);
    LowOfLow(k, Xlen(arch), Computed(arch, inst, mid.regs));
    LowAdd(k, 0, Read(mid.regs, tmp), 0, v);
  }

  predicate MulHandled(imm: int) {
    imm == 0 || imm == -1 || IsPowerOfTwo(Abs(imm))
  }

  lemma ShiftedIsMultiplied(k: nat, a: nat, s: nat)
    requires s < 32 <= k
    ensures Low(k, ValueAt(k, Shl, Low(k, a), Low(k, s)))
      == Low(k, ValueAt(k, BinaryOpcode.Mul, Low(k, a), Low(k, Pow2(s))))
  {
    hide Low, Pow2, ValueAt;
    ShlValue(k, Low(k, a), s);
    MulFixed(k, a, Pow2(s));
    LowOfLow(k, k, a);
    LowMul(k, Low(k, a), Pow2(s), a, Pow2(s));
  }

  lemma PowerFits(k: nat, s: nat)
    requires s < 32 <= k
    ensures Low(k, s) == s && Low(k, Pow2(s)) == Pow2(s)
  {
    Pow32();
    PowMonotone(s, 31);
    PowMonotone(32, k);
    LowSmall(k, s);
    LowSmall(k, Pow2(s));
  }

  lemma ShlValue(k: nat, x: nat, s: nat)
    requires s < 32 <= k
    ensures ValueAt(k, Shl, x, Low(k, s)) == x * Pow2(s)
  {
    hide Low, Pow2, Bitwise, Signed, DivS, RemS, DivU, RemU;
    PowerFits(k, s);
    AmountMod(s, k);
  }

  lemma ShiftLeftIsMul(arch: Arch, k: nat, rd: Register, rs: Register, s: nat, next: nat)
    requires rd != ZERO && s < 32 && Form(arch, k, Shl)
    ensures Computes(arch, k, [RegImm(FormImm(arch, k, Shl), rd, rs, s)], next, rd, BinaryOpcode.Mul, rs,
      Fixed(Pow2(s)))
  {
    hide Low, ValueAt, Pow2, Computes, FormImm;
    ComputesImmForm(arch, k, Shl, rd, rs, s, next);
    forall a: nat
      ensures Low(k, ValueAt(k, Shl, Low(k, a), Low(k, s)))
        == Low(k, ValueAt(k, BinaryOpcode.Mul, Low(k, a), Low(k, Pow2(s))))
    {
      ShiftedIsMultiplied(k, a, s);
    }
    SameValue(arch, k, [RegImm(FormImm(arch, k, Shl), rd, rs, s)], next, rd, Shl, BinaryOpcode.Mul, rs, Fixed(s),
      Fixed(Pow2(s)));
  }

  /** Code for one operator is code for another that agrees with it everywhere. */
  lemma SameValue(arch: Arch, k: nat, code: seq<Inst>, next: nat, rd: Register, op: BinaryOpcode, op': BinaryOpcode,
                  rs: Register, rhs: Rhs, rhs': Rhs)
    requires k >= 1 && Computes(arch, k, code, next, rd, op, rs, rhs) && rhs.Fixed? && rhs'.Fixed?
    requires forall a: nat ::
      Low(k, ValueAt(k, op, Low(k, a), Low(k, rhs.c))) == Low(k, ValueAt(k, op', Low(k, a), Low(k, rhs'.c)))
    ensures Computes(arch, k, code, next, rd, op', rs, rhs')
  {
    forall regs: Regs, r: Register
      ensures Low(k, ValueAt(k, op, Low(k, Read(regs, r)), Low(k, rhs.c)))
        == Low(k, ValueAt(k, op', Low(k, Read(regs, r)), Low(k, rhs'.c)))
    {
      LowOfLow(k, k, Read(regs, r));
      var a: nat := Low(k, Read(regs, r));
      assert Low(k, a) == a;
    }
    hide Low, ValueAt, Pow2, KeepsOthers, InRange, Exec;
  }

  /** The constant zero, or a copy, in rd. */
  method EmitConstInt(rd: Register, value: int, out: seq<Inst>) returns (out': seq<Inst>)
    ensures out' == out + (if value == 0 then (if rd == ZERO then [] else [Mv(rd, ZERO)]) else [Li(rd, value)])
  {
    if value == 0 {
      out' := EmitCopyOrMove(rd, ZERO, out);
    } else {
      out' := out + [Li(rd, value)];
    }
  }

  method EmitCopyOrMove(dst: Register, src: Register, out: seq<Inst>) returns (out': seq<Inst>)
    ensures out' == out + (if dst == src then [] else [Mv(dst, src)])
  {
    out' := out;
    if dst != src {
      out' := out + [Mv(dst, src)];
    }
  }

  /** A copy, or nothing. */
  lemma EncodedCopy(arch: Arch, before: seq<Inst>, after: seq<Inst>, dst: Register, src: Register)
    requires Encoded(arch, before, after)
    ensures Encoded(arch, before, after + (if dst == src then [] else [Mv(dst, src)]))
  {
    hide Encoded;
    assert after + [] == after;
    EncodedOne(arch, before, after, Mv(dst, src));
  }

  lemma ZeroCode(arch: Arch, k: nat, rd: Register, rs: Register, op: BinaryOpcode, c: int, next: nat)
    requires rd != ZERO && 1 <= k <= Xlen(arch) && forall a: nat :: Low(k, ValueAt(k, op, Low(k, a), Low(k, c))) == 0
    ensures Computes(arch, k, [Mv(rd, ZERO)], next, rd, op, rs, Fixed(c))
  {
    LowSmall(k, 0);
    forall regs: Regs ensures Low(k, ValueAt(k, op, Low(k, Read(regs, rs)), Low(k, c))) == 0 {
      var a: nat := Low(k, Read(regs, rs));
      LowOfLow(k, k, Read(regs, rs));
    }
    hide Low, ValueAt, Pow2, Computes;
    ComputesOne(arch, k, Mv(rd, ZERO), next, op, rs, Fixed(c));
  }

  /** A copy of rs, or nothing when rd is rs already. */
  lemma CopyCode(arch: Arch, k: nat, rd: Register, rs: Register, op: BinaryOpcode, c: int, next: nat)
    requires rd != ZERO && 1 <= k <= Xlen(arch)
    requires forall a: nat :: Low(k, ValueAt(k, op, Low(k, a), Low(k, c))) == Low(k, a)
    ensures Computes(arch, k, if rd == rs then [] else [Mv(rd, rs)], next, rd, op, rs, Fixed(c))
  {
    forall regs: Regs ensures Low(k, ValueAt(k, op, Low(k, Read(regs, rs)), Low(k, c))) == Low(k, Read(regs, rs)) {
      var a: nat := Low(k, Read(regs, rs));
      LowOfLow(k, k, Read(regs, rs));
    }
    hide Low, ValueAt, Pow2;
    if rd != rs {
      ComputesOne(arch, k, Mv(rd, rs), next, op, rs, Fixed(c));
    }
  }

  /** Multiplying by 0, 1 or -1. */
  lemma SmallMul(arch: Arch, k: nat, rd: Register, rs: Register, imm: int, code: seq<Inst>, next: nat)
    requires rd != ZERO && 1 <= k <= Xlen(arch) && -1 <= imm <= 1
    requires code == if imm == 0 then [Mv(rd, ZERO)] else if imm == -1 then [RegReg(RegOp.Sub, rd, ZERO, rs)]
                     else if rd == rs then [] else [Mv(rd, rs)]
    ensures Computes(arch, k, code, next, rd, BinaryOpcode.Mul, rs, Fixed(imm))
    ensures LeavesValue(code, rd, BinaryOpcode.Mul, rs, imm)
  {
    hide Computes, ValueAt, Low, Pow2, LeavesValue;
    MulByZeroOrOne(k);
    MulValues(0);
    if imm == 0 {
      ZeroCode(arch, k, rd, rs, BinaryOpcode.Mul, 0, next);
      ZeroLeaves(rd, BinaryOpcode.Mul, rs, 0);
    } else if imm == 1 {
      CopyCode(arch, k, rd, rs, BinaryOpcode.Mul, 1, next);
      CopyLeaves(rd, BinaryOpcode.Mul, rs, 1);
    } else {
      NegateIsMul(arch, k, rd, rs, next);
      NegatedLeaves(rd, BinaryOpcode.Mul, rs);
    }
  }

  method EmitMulConst(arch: Arch, rd: Register, rs: Register, imm: int, bits: nat, out: seq<Inst>, fn: MachineFunction)
    returns (ok: bool, out': seq<Inst>)
    requires IsI32(imm) && rd != ZERO && Allocated(rd, fn.nextVreg) && Allocated(rs, fn.nextVreg)
    modifies fn`nextVreg
    ensures fn.nextVreg >= old(fn.nextVreg) && out <= out'
    ensures ok <==> MulHandled(imm)
    ensures !ok ==> out' == out && fn.nextVreg == old(fn.nextVreg)
    ensures ok ==> Computes(arch, FormWidth(arch, BinaryOpcode.Mul, bits), out'[|out|..], old(fn.nextVreg), rd,
      BinaryOpcode.Mul, rs, Fixed(imm))
    ensures ok && arch == RV64 && bits == 32 ==> LeavesValue(out'[|out|..], rd, BinaryOpcode.Mul, rs, imm)
    ensures Encoded(arch, out, out')
  {
    hide Computes, ValueAt, Low, Pow2, LeavesValue, Encoded;
    EncodedNothing(arch, out);
    ghost var next, k := fn.nextVreg, FormWidth(arch, BinaryOpcode.Mul, bits);
    if imm == 0 {
      out' := EmitConstInt(rd, 0, out);
      EncodedCopy(arch, out, out, rd, ZERO);
      assert out'[|out|..] == [Mv(rd, ZERO)];
      SmallMul(arch, k, rd, rs, imm, out'[|out|..], next);
      return true, out';
    }
    if imm == 1 {
      out' := EmitCopyOrMove(rd, rs, out);
      EncodedCopy(arch, out, out, rd, rs);
      assert out'[|out|..] == if rd == rs then [] else [Mv(rd, rs)];
      SmallMul(arch, k, rd, rs, imm, out'[|out|..], next);
      return true, out';
    }
    if imm == -1 {
      EncodedFirst(arch, out, RegReg(RegOp.Sub, rd, ZERO, rs));
      out' := out + [RegReg(RegOp.Sub, rd, ZERO, rs)];
      assert out'[|out|..] == [RegReg(RegOp.Sub, rd, ZERO, rs)];
      SmallMul(arch, k, rd, rs, imm, out'[|out|..], next);
      return true, out';
    }
    var abs := Abs(imm);
    if IsPowerOfTwo(abs) {
      var tmp := rd;
      if imm < 0 {
        tmp := fn.NewVreg();
      }
      var shift := TrailingZeros(abs);
      PowerOfTwoShift(abs);
      ShiftFits(abs);
      var iop := if bits == 32 && arch == RV64 then Slliw else Slli;
      EncodedFirst(arch, out, RegImm(iop, tmp, rs, shift));
      out' := out + [RegImm(iop, tmp, rs, shift)];
      assert out'[|out|..] == [RegImm(iop, tmp, rs, shift)];
      ShiftLeftIsMul(arch, k, tmp, rs, shift, next);
      if arch == RV64 && bits == 32 {
        ShiftedLeaves(tmp, rs, shift, next);
      }
      if imm < 0 {
        ghost var code := out'[|out|..];
        EncodedOne(arch, out, out', RegReg(RegOp.Sub, rd, ZERO, tmp));
        out' := out' + [RegReg(RegOp.Sub, rd, ZERO, tmp)];
        assert out'[|out|..] == code + [RegReg(RegOp.Sub, rd, ZERO, tmp)];
        NegatedMul(arch, k, code, tmp, rd, rs, Pow2(shift), next);
        if arch == RV64 && bits == 32 {
          MulValues(shift);
          NegateLeaves(code, tmp, rd, BinaryOpcode.Mul, rs, Pow2(shift), imm);
        }
      }
      return true, out';
    }
    return false, out;
  }

  lemma MulByZeroOrOne(k: nat)
    requires k >= 1
    ensures forall a: nat :: Low(k, ValueAt(k, BinaryOpcode.Mul, Low(k, a), Low(k, 0))) == 0
    ensures forall a: nat :: Low(k, ValueAt(k, BinaryOpcode.Mul, Low(k, a), Low(k, 1))) == Low(k, a)
  {
    forall a: nat
      ensures Low(k, ValueAt(k, BinaryOpcode.Mul, Low(k, a), Low(k, 0))) == 0
      ensures Low(k, ValueAt(k, BinaryOpcode.Mul, Low(k, a), Low(k, 1))) == Low(k, a)
    {
      MulFixed(k, a, 0);
      MulFixed(k, a, 1);
      LowSmall(k, 0);
    }
  }

  lemma NegateIsMul(arch: Arch, k: nat, rd: Register, rs: Register, next: nat)
    requires rd != ZERO && 1 <= k <= Xlen(arch)
    ensures Computes(arch, k, [RegReg(RegOp.Sub, rd, ZERO, rs)], next, rd, BinaryOpcode.Mul, rs, Fixed(-1))
  {
    var inst := RegReg(RegOp.Sub, rd, ZERO, rs);
    hide ValueAt, Low, Pow2, Computed, Computes;
    forall regs: Regs | InRange(arch, regs)
      ensures Low(k, Computed(arch, inst, regs))
        == Low(k, ValueAt(k, BinaryOpcode.Mul, Low(k, Read(regs, rs)), RhsPattern(k, regs, Fixed(-1))))
    {
      NegateCode(arch, k, rd, rs, regs);
      PatternInRange(arch, regs, rs);
      MulFixed(k, Read(regs, rs), -1);
    }
    ComputesOne(arch, k, inst, next, BinaryOpcode.Mul, rs, Fixed(-1));
  }

  lemma NegatedMul(arch: Arch, k: nat, code: seq<Inst>, tmp: Register, rd: Register, rs: Register, c: int, next: nat)
    requires rd != ZERO && tmp != ZERO && !Allocated(tmp, next) && Allocated(rs, next) && 1 <= k <= Xlen(arch)
    requires Computes(arch, k, code, next, tmp, BinaryOpcode.Mul, rs, Fixed(c))
    ensures Computes(arch, k, code + [RegReg(RegOp.Sub, rd, ZERO, tmp)], next, rd, BinaryOpcode.Mul, rs, Fixed(-c))
  {
    var code' := code + [RegReg(RegOp.Sub, rd, ZERO, tmp)];
    hide Low, Pow2, ValueAt, Exec, InRange, KeepsOthers;
    forall X, st: State | InRange(arch, st.regs)
      ensures var st' := Exec(arch, X, code', st);
        && KeepsOthers(next, rd, st, st')
        && Low(k, Read(st'.regs, rd))
             == Low(k, ValueAt(k, BinaryOpcode.Mul, Low(k, Read(st.regs, rs)), RhsPattern(k, st.regs, Fixed(-c))))
    {
      PatternInRange(arch, st.regs, rs);
      var a: nat := Read(st.regs, rs);
      MulFixed(k, a, c);
      MulFixed(k, a, -c);
      assert a * -c == -(a * c);
      ThenNegate(arch, k, X, code, tmp, rd, next, a * c, st);
    }
  }

  // ---------------------------------------------------------------- unsigned division and remainder

  /** From a sign-extended register the code leaves a sign-extended one. */
  ghost predicate LeavesExtended(code: seq<Inst>, rd: Register, rs: Register) {
    forall X, st: State :: InRange(RV64, st.regs) && Extended32(Read(st.regs, rs)) ==>
      Extended32(Read(Exec(RV64, X, code, st).regs, rd))
  }

  lemma WExtends(code: seq<Inst>, inst: Inst, rs: Register)
    requires IsW(inst) && inst.rd != ZERO
    ensures LeavesExtended(code + [inst], inst.rd, rs)
  {
    hide Exec, Extended32;
    forall X, st: State ensures Extended32(Read(Exec(RV64, X, code + [inst], st).regs, inst.rd)) {
      LastIsW(X, code, inst, st);
    }
  }

  lemma CopyExtends(rd: Register, rs: Register)
    requires rd != ZERO
    ensures LeavesExtended(if rd == rs then [] else [Mv(rd, rs)], rd, rs)
  {
    hide Low, Pow2, Signed, Step;
    var code := if rd == rs then [] else [Mv(rd, rs)];
    forall X, st: State | InRange(RV64, st.regs) && Extended32(Read(st.regs, rs))
      ensures Extended32(Read(Exec(RV64, X, code, st).regs, rd))
    {
      if rd != rs {
        Exec1(RV64, X, Mv(rd, rs), st);
        StepCompute(RV64, X, Mv(rd, rs), st);
        LowOfLow(64, 64, Signed(32, Read(st.regs, rs)));
      }
    }
  }

  lemma ZeroExtends(rd: Register, rs: Register)
    requires rd != ZERO
    ensures LeavesExtended([Mv(rd, ZERO)], rd, rs)
  {
    LowSmall(64, 0);
    ExtendedExactly(0);
    hide Low, Pow2, Signed, Step, Exec, Extended32;
    forall X, st: State ensures Extended32(Read(Exec(RV64, X, [Mv(rd, ZERO)], st).regs, rd)) {
      Exec1(RV64, X, Mv(rd, ZERO), st);
      StepCompute(RV64, X, Mv(rd, ZERO), st);
    }
  }

  lemma MaskExtends(code: seq<Inst>, tmp: Register, rd: Register, rs: Register, s: nat, next: nat)
    requires rd != ZERO && tmp != ZERO && !Allocated(tmp, next) && 1 <= s < 32
    requires Normalises(RV64, code, next, tmp, rs, s, false)
    ensures LeavesExtended(code + [Mv(rd, tmp)], rd, rs)
  {
    hide Low, Pow2, Signed, Exec, KeepsOthers, Extended32, InRange;
    forall X, st: State | InRange(RV64, st.regs)
      ensures Extended32(Read(Exec(RV64, X, code + [Mv(rd, tmp)], st).regs, rd))
    {
      ThenMove(RV64, X, code, tmp, rd, next, st);
      var m := Low(s, Read(st.regs, rs));
      SmallMask(s, Read(st.regs, rs));
      ExtendedExactly(m);
    }
  }

  lemma SmallMask(s: nat, v: int)
    requires s < 32
    ensures IsI32(Low(s, v)) && Low(64, Low(s, v)) == Low(s, v)
  {
    Pow32();
    PowMonotone(s, 31);
    PowMonotone(31, 64);
    LowSmall(64, Low(s, v));
  }

  method EmitUdivConst(arch: Arch, rd: Register, rs: Register, imm: nat, bits: nat, out: seq<Inst>, ghost next: nat)
    returns (ok: bool, out': seq<Inst>)
    requires imm < 0x1_0000_0000 && rd != ZERO
    ensures out <= out' && (ok <==> IsPowerOfTwo(imm)) && (!ok ==> out' == out)
    ensures ok ==> Computes(arch, FormWidth(arch, UDiv, bits), out'[|out|..], next, rd, UDiv, rs, Fixed(imm))
    ensures ok && arch == RV64 && bits == 32 ==> LeavesExtended(out'[|out|..], rd, rs)
    ensures Encoded(arch, out, out')
  {
    hide Computes, ValueAt, Low, Pow2, LeavesExtended, Encoded;
    EncodedNothing(arch, out);
    ghost var k := FormWidth(arch, UDiv, bits);
    if imm == 0 {
      return false, out;
    }
    if imm == 1 {
      out' := EmitCopyOrMove(rd, rs, out);
      EncodedCopy(arch, out, out, rd, rs);
      assert out'[|out|..] == if rd == rs then [] else [Mv(rd, rs)];
      UnsignedByOne(k);
      CopyCode(arch, k, rd, rs, UDiv, 1, next);
      CopyExtends(rd, rs);
      return true, out';
    }
    if IsPowerOfTwo(imm) {
      var shift := TrailingZeros(imm);
      PowerOfTwoShift(imm);
      Pow32();
      ShiftBound(imm, 32);
      var iop := if bits == 32 && arch == RV64 then Srliw else Srli;
      EncodedFirst(arch, out, RegImm(iop, rd, rs, shift));
      out' := out + [RegImm(iop, rd, rs, shift)];
      assert out'[|out|..] == [RegImm(iop, rd, rs, shift)];
      ShiftRightIsDiv(arch, k, rd, rs, shift, next);
      if bits == 32 && arch == RV64 {
        WExtends([], RegImm(iop, rd, rs, shift), rs);
        assert [] + out'[|out|..] == out'[|out|..];
      }
      return true, out';
    }
    return false, out;
  }

  lemma UnsignedByOne(k: nat)
    requires k >= 1
    ensures forall a: nat :: Low(k, ValueAt(k, UDiv, Low(k, a), Low(k, 1))) == Low(k, a)
    ensures forall a: nat :: Low(k, ValueAt(k, URem, Low(k, a), Low(k, 1))) == 0
  {
    assert Pow2(k) >= 2;
    LowSmall(k, 1);
    LowSmall(k, 0);
    forall a: nat
      ensures Low(k, ValueAt(k, UDiv, Low(k, a), Low(k, 1))) == Low(k, a)
      ensures Low(k, ValueAt(k, URem, Low(k, a), Low(k, 1))) == 0
    {
      LowOfLow(k, k, a);
      hide Low, Pow2;
    }
  }

  lemma ShiftRightIsDiv(arch: Arch, k: nat, rd: Register, rs: Register, s: nat, next: nat)
    requires rd != ZERO && s < 32 && Form(arch, k, LShr)
    ensures Computes(arch, k, [RegImm(FormImm(arch, k, LShr), rd, rs, s)], next, rd, UDiv, rs, Fixed(Pow2(s)))
  {
    AmountMod(s, k);
    hide Low, Pow2, Computes, FormImm, Bitwise;
    ComputesImmForm(arch, k, LShr, rd, rs, s, next);
    PowerFits(k, s);
    SameValue(arch, k, [RegImm(FormImm(arch, k, LShr), rd, rs, s)], next, rd, LShr, UDiv, rs, Fixed(s), Fixed(Pow2(s)));
  }

  lemma MaskIsRem(k: nat, a: nat, s: nat)
    requires s < 32 <= k
    ensures Low(k, Low(s, a)) == Low(k, ValueAt(k, URem, Low(k, a), Low(k, Pow2(s))))
  {
    PowerFits(k, s);
    LowOfLow(s, k, a);
    hide Pow2;
  }

  /** Code that leaves v in a fresh register, followed by a move of it to rd. */
  lemma ThenMove(arch: Arch, X: Externals, code: seq<Inst>, tmp: Register, rd: Register, next: nat, st: State)
    requires InRange(arch, st.regs) && rd != ZERO && tmp != ZERO && !Allocated(tmp, next)
    requires KeepsOthers(next, tmp, st, Exec(arch, X, code, st))
    ensures var st' := Exec(arch, X, code + [Mv(rd, tmp)], st);
      KeepsOthers(next, rd, st, st') && Read(st'.regs, rd) == Read(Exec(arch, X, code, st).regs, tmp)
  {
    hide Low, Pow2, Step, Exec;
    var mid := Exec(arch, X, code, st);
    ExecInRange(arch, X, code, st);
    ExecSnoc(arch, X, code, Mv(rd, tmp), st);
    StepCompute(arch, X, Mv(rd, tmp), mid);
    LowSmall(Xlen(arch), Read(mid.regs, tmp));
  }

  method EmitUremConst(arch: Arch, rd: Register, rs: Register, imm: nat, out: seq<Inst>, fn: MachineFunction,
                       ghost k: nat)
    returns (ok: bool, out': seq<Inst>)
    requires imm < 0x1_0000_0000 && Form(arch, k, URem) && rd != ZERO && Allocated(rd, fn.nextVreg)
    requires Allocated(rs, fn.nextVreg)
    modifies fn`nextVreg
    ensures fn.nextVreg >= old(fn.nextVreg) && out <= out' && (ok <==> IsPowerOfTwo(imm))
    ensures !ok ==> out' == out && fn.nextVreg == old(fn.nextVreg)
    ensures ok ==> Computes(arch, k, out'[|out|..], old(fn.nextVreg), rd, URem, rs, Fixed(imm))
    ensures ok && arch == RV64 ==> LeavesExtended(out'[|out|..], rd, rs)
    ensures Encoded(arch, out, out')
  {
    hide Computes, ValueAt, Low, Pow2, Normalises, LeavesExtended, Encoded;
    EncodedNothing(arch, out);
    ghost var next := fn.nextVreg;
    if imm == 0 {
      return false, out;
    }
    if imm == 1 {
      out' := EmitConstInt(rd, 0, out);
      EncodedCopy(arch, out, out, rd, ZERO);
      assert out'[|out|..] == [Mv(rd, ZERO)];
      UnsignedByOne(k);
      ZeroCode(arch, k, rd, rs, URem, 1, next);
      ZeroExtends(rd, rs);
      return true, out';
    }
    if IsPowerOfTwo(imm) {
      PowerOfTwoShift(imm);
      Pow32();
      ShiftBound(imm, 32);
      var masked, out1 := EmitMaskedValue(arch, rs, TrailingZeros(imm), out, fn);
      out' := EmitCopyOrMove(rd, masked, out1);
      EncodedCopy(arch, out, out1, rd, masked);
      assert out'[|out|..] == out1[|out|..] + [Mv(rd, masked)];
      MaskedRem(arch, k, out1[|out|..], masked, rd, rs, TrailingZeros(imm), next);
      if arch == RV64 {
        MaskExtends(out1[|out|..], masked, rd, rs, TrailingZeros(imm), next);
      }
      return true, out';
    }
    return false, out;
  }

  lemma MaskedRem(arch: Arch, k: nat, code: seq<Inst>, tmp: Register, rd: Register, rs: Register, s: nat, next: nat)
    requires rd != ZERO && tmp != ZERO && !Allocated(tmp, next) && 1 <= s < 32 <= k <= Xlen(arch)
    requires Normalises(arch, code, next, tmp, rs, s, false)
    ensures Computes(arch, k, code + [Mv(rd, tmp)], next, rd, URem, rs, Fixed(Pow2(s)))
  {
    hide Low, Pow2, ValueAt, Exec, InRange, KeepsOthers;
    forall X, st: State | InRange(arch, st.regs)
      ensures var st' := Exec(arch, X, code + [Mv(rd, tmp)], st);
        && KeepsOthers(next, rd, st, st')
        && Low(k, Read(st'.regs, rd))
             == Low(k, ValueAt(k, URem, Low(k, Read(st.regs, rs)), RhsPattern(k, st.regs, Fixed(Pow2(s)))))
    {
      ThenMove(arch, X, code, tmp, rd, next, st);
      PatternInRange(arch, st.regs, rs);
      MaskIsRem(k, Read(st.regs, rs), s);
    }
  }

  // ---------------------------------------------------------------- signed division and remainder

  /** Adding 2^s - 1 to a negative dividend turns the flooring shift into truncating division. */
  lemma BiasedShift(a: int, s: nat)
    ensures (a + (if a < 0 then Pow2(s) - 1 else 0)) / Pow2(s) == TruncDiv(a, Pow2(s))
  {
    var m := Pow2(s);
    hide Pow2;
    if a < 0 {
      var q, r := (-a) / m, (-a) % m;
      assert -a == q * m + r;
      assert a + (m - 1) == (-q) * m + (m - 1 - r);
      DivModUnique(a + (m - 1), m, -q, m - 1 - r);
    }
  }

  lemma TopBits(x: nat, s: nat)
    requires s <= x
    ensures (Pow2(x) - 1) / Pow2(x - s) == Pow2(s) - 1
  {
    PowAdd(s, x - s);
    var m, p := Pow2(x - s), Pow2(s);
    hide Pow2;
    assert p * m - 1 == (p - 1) * m + (m - 1);
    DivModUnique(p * m - 1, m, p - 1, m - 1);
  }

  function Bias(k: nat, a: nat, s: nat): int
    requires k >= 1
  {
    if Signed(k, a) < 0 then Pow2(s) - 1 else 0
  }

  /** The pattern reads as an integer of so many bits. */
  ghost predicate Narrow(k: nat, bits: nat, a: int)
    requires 1 <= bits <= k
  {
    -Pow2(bits - 1) <= Signed(k, a) && Signed(k, a) < Pow2(bits - 1)
  }

  lemma AllNarrow(k: nat, a: int)
    requires k >= 1
    ensures Narrow(k, k, a)
  {
    LowSigned(k, a);
  }

  /** The arithmetic right shift at k bits. */
  lemma ShiftArith(arch: Arch, k: nat, a: nat, sh: nat)
    requires a < Pow2(Xlen(arch)) && sh < k && (k == 32 || k == Xlen(arch))
    ensures EvalImmOp(arch, FormImm(arch, k, AShr), a, sh) == Low(Xlen(arch), Signed(k, Signed(k, a) / Pow2(sh)))
  {
    AmountMod(sh, k);
    LowSigned(k, Signed(k, a) / Pow2(sh));
    hide Low, Pow2, Signed, Bitwise;
    if k == Xlen(arch) {
      assert EvalImmOp(arch, Srai, a, sh) == Low(k, Signed(k, a) / Pow2(sh));
    } else {
      assert EvalImmOp(arch, Sraiw, a, sh) == Word(arch, Signed(32, a) / Pow2(sh));
    }
  }

  /** Shifting out all but the sign leaves 0 or -1. */
  lemma SignShift(k: nat, bits: nat, v: int)
    requires 1 <= bits <= k && -Pow2(bits - 1) <= v && v < Pow2(bits - 1)
    ensures v / Pow2(bits - 1) == (if v < 0 then -1 else 0) && Signed(k, v / Pow2(bits - 1)) == v / Pow2(bits - 1)
  {
    DivModUnique(v, Pow2(bits - 1), if v < 0 then -1 else 0, if v < 0 then v + Pow2(bits - 1) else v);
    SignedUnique(k, v / Pow2(bits - 1), v / Pow2(bits - 1));
  }

  lemma SignPatterns(x: nat, s: nat)
    requires s <= x
    ensures Low(x, -1) == Pow2(x) - 1 && Low(x, Pow2(x) - 1) == Pow2(x) - 1 && Low(x, 0) == 0
    ensures (Pow2(x) - 1) / Pow2(x - s) == Pow2(s) - 1
    ensures Low(x, Pow2(s) - 1) == Pow2(s) - 1
  {
    LowEqual(x, -1, Pow2(x) - 1, -1);
    LowSmall(x, Pow2(x) - 1);
    LowSmall(x, 0);
    TopBits(x, s);
    PowMonotone(s, x);
    LowSmall(x, Pow2(s) - 1);
  }

  /** The sign smeared over the register, then its top s bits. */
  lemma SignBias(arch: Arch, k: nat, bits: nat, a: nat, s: nat)
    requires a < Pow2(Xlen(arch)) && 1 <= s < 32 && 1 <= bits <= k && (k == 32 || k == Xlen(arch))
    requires Narrow(k, bits, a)
    ensures var x := Xlen(arch);
      var sign := Low(x, EvalImmOp(arch, FormImm(arch, k, AShr), a, bits - 1));
      Low(x, EvalImmOp(arch, Srli, Low(x, sign), x - s)) == Bias(k, a, s)
  {
    hide Low, Pow2, Signed, FormImm;
    var x := Xlen(arch);
    var v := Signed(k, a);
    ShiftArith(arch, k, a, bits - 1);
    SignShift(k, bits, v);
    SignPatterns(x, s);
    AmountMod(x - s, x);
    var pattern := if v < 0 then Pow2(x) - 1 else 0;
    assert EvalImmOp(arch, FormImm(arch, k, AShr), a, bits - 1) == pattern;
    assert EvalImmOp(arch, Srli, pattern, x - s) == Bias(k, a, s);
  }

  lemma BiasFits(k: nat, a: nat, s: nat)
    requires 1 <= s < 31 && k >= 32
    ensures -Pow2(k - 1) <= Signed(k, a) + Bias(k, a, s) && Signed(k, a) + Bias(k, a, s) < Pow2(k - 1)
  {
    LowSigned(k, a);
    PowMonotone(s, k - 1);
    hide Low, Pow2, Signed;
  }

  lemma BiasedSum(x: nat, k: nat, a: nat, s: nat)
    requires 1 <= s < 31 && 32 <= k <= x
    ensures Signed(k, Low(x, a + Bias(k, a, s))) == Signed(k, a) + Bias(k, a, s)
  {
    hide Low, Pow2, Signed, Bias;
    LowSigned(k, a);
    LowOfLow(k, x, a + Bias(k, a, s));
    LowAdd(k, a, Bias(k, a, s), Signed(k, a), Bias(k, a, s));
    BiasFits(k, a, s);
    SignedUnique(k, Low(x, a + Bias(k, a, s)), Signed(k, a) + Bias(k, a, s));
  }

  lemma BiasedQuotient(arch: Arch, k: nat, a: nat, s: nat)
    requires a < Pow2(Xlen(arch)) && 1 <= s < 31 && (k == 32 || k == Xlen(arch))
    ensures var biased := Low(Xlen(arch), a + Bias(k, a, s));
      Low(k, EvalImmOp(arch, FormImm(arch, k, AShr), biased, s)) == Low(k, TruncDiv(Signed(k, a), Pow2(s)))
  {
    hide Low, Pow2, Signed, TruncDiv, FormImm, EvalImmOp;
    var x := Xlen(arch);
    var biased, v := Low(x, a + Bias(k, a, s)), Signed(k, a);
    BiasedSum(x, k, a, s);
    LowInRange(x, a + Bias(k, a, s));
    BiasedShift(v, s);
    ShiftArith(arch, k, biased, s);
    var q := (v + Bias(k, a, s)) / Pow2(s);
    LowOfLow(k, x, Signed(k, q));
    LowSigned(k, q);
  }

  function SdivInsts(arch: Arch, k: nat, bits: nat, quotient: Register, rs: Register, sign: Register, biased: Register,
                     s: nat): seq<Inst>
    requires s <= Xlen(arch) && bits >= 1
  {
    var sra := FormImm(arch, k, AShr);
    [RegImm(sra, sign, rs, bits - 1), RegImm(Srli, sign, sign, Xlen(arch) - s)] +
    [RegReg(RegOp.Add, biased, rs, sign), RegImm(sra, quotient, biased, s)]
  }

  lemma SdivRuns(arch: Arch, k: nat, bits: nat, X: Externals, quotient: Register, rs: Register, sign: Register,
                 biased: Register, s: nat, next: nat, st: State)
    requires InRange(arch, st.regs) && 1 <= s < 31 && 1 <= bits <= k && (k == 32 || k == Xlen(arch))
    requires Narrow(k, bits, Read(st.regs, rs))
    requires quotient != ZERO && sign != ZERO && biased != ZERO && sign != biased && quotient != sign
    requires quotient != biased
    requires !Allocated(sign, next) && !Allocated(biased, next) && Allocated(rs, next)
    ensures var st' := Exec(arch, X, SdivInsts(arch, k, bits, quotient, rs, sign, biased, s), st);
      && KeepsOthers(next, quotient, st, st')
      && Low(k, Read(st'.regs, quotient)) == Low(k, TruncDiv(Signed(k, Low(k, Read(st.regs, rs))), Pow2(s)))
  {
    hide Low, Pow2, Signed, TruncDiv, InRange, EvalImmOp, Exec, Step, FormImm, Narrow, Bias;
    var sra := FormImm(arch, k, AShr);
    var c1 := [RegImm(sra, sign, rs, bits - 1), RegImm(Srli, sign, sign, Xlen(arch) - s)];
    var c2 := [RegReg(RegOp.Add, biased, rs, sign), RegImm(sra, quotient, biased, s)];
    var mid := Exec(arch, X, c1, st);
    BiasRuns(arch, k, bits, X, rs, sign, s, next, st);
    QuotientRuns(arch, k, X, quotient, rs, sign, biased, s, next, mid);
    ExecAppend(arch, X, c1, c2, st);
    var a: nat := Read(st.regs, rs);
    LowSigned(k, a);
  }

  /** The first two instructions leave the bias in sign. */
  lemma BiasRuns(arch: Arch, k: nat, bits: nat, X: Externals, rs: Register, sign: Register, s: nat, next: nat,
                 st: State)
    requires InRange(arch, st.regs) && 1 <= s < 31 && 1 <= bits <= k && (k == 32 || k == Xlen(arch))
    requires Narrow(k, bits, Read(st.regs, rs)) && sign != ZERO && !Allocated(sign, next) && Allocated(rs, next)
    ensures var code := [RegImm(FormImm(arch, k, AShr), sign, rs, bits - 1), RegImm(Srli, sign, sign, Xlen(arch) - s)];
      var mid := Exec(arch, X, code, st);
      && KeepsOthers(next, sign, st, mid) && InRange(arch, mid.regs) && Read(st.regs, rs) >= 0
      && Read(mid.regs, rs) == Read(st.regs, rs) && Read(mid.regs, sign) == Bias(k, Read(st.regs, rs), s)
  {
    hide Low, Pow2, Signed, InRange, EvalImmOp, Exec, Step, FormImm, Narrow, Bias;
    var x := Xlen(arch);
    var i1, i2 := RegImm(FormImm(arch, k, AShr), sign, rs, bits - 1), RegImm(Srli, sign, sign, x - s);
    PatternInRange(arch, st.regs, rs);
    TwoSteps(arch, X, i1, i2, st);
    ExecInRange(arch, X, [i1, i2], st);
    SignBias(arch, k, bits, Read(st.regs, rs), s);
  }

  /** The last two divide the biased number. */
  lemma QuotientRuns(arch: Arch, k: nat, X: Externals, quotient: Register, rs: Register, sign: Register,
                     biased: Register, s: nat, next: nat, mid: State)
    requires InRange(arch, mid.regs) && 1 <= s < 31 && (k == 32 || k == Xlen(arch))
    requires quotient != ZERO && biased != ZERO && !Allocated(biased, next) && quotient != biased
    requires Read(mid.regs, rs) >= 0 && Read(mid.regs, sign) == Bias(k, Read(mid.regs, rs), s)
    ensures var code := [RegReg(RegOp.Add, biased, rs, sign), RegImm(FormImm(arch, k, AShr), quotient, biased, s)];
      var st' := Exec(arch, X, code, mid);
      && KeepsOthers(next, quotient, mid, st')
      && Low(k, Read(st'.regs, quotient)) == Low(k, TruncDiv(Signed(k, Read(mid.regs, rs)), Pow2(s)))
  {
    hide Low, Pow2, Signed, TruncDiv, InRange, EvalImmOp, Exec, Step, FormImm, Bias;
    var x, sra := Xlen(arch), FormImm(arch, k, AShr);
    var a: nat := Read(mid.regs, rs);
    TwoSteps(arch, X, RegReg(RegOp.Add, biased, rs, sign), RegImm(sra, quotient, biased, s), mid);
    PatternInRange(arch, mid.regs, sign);
    PatternInRange(arch, mid.regs, rs);
    LowOfLow(x, x, a + Bias(k, a, s));
    BiasedQuotient(arch, k, a, s);
    LowOfLow(k, x, EvalImmOp(arch, sra, Low(x, a + Bias(k, a, s)), s));
  }

  /** As `Computes`, from every state in which rs reads as an integer of so many bits. */
  ghost predicate ComputesOn(arch: Arch, k: nat, bits: nat, code: seq<Inst>, next: nat, rd: Register, op: BinaryOpcode,
                             rs: Register, rhs: Rhs)
    requires 1 <= bits <= k
  {
    forall X, st: State :: InRange(arch, st.regs) && Narrow(k, bits, Read(st.regs, rs)) ==>
      var st' := Exec(arch, X, code, st);
      && KeepsOthers(next, rd, st, st')
      && Low(k, Read(st'.regs, rd)) == Low(k, ValueAt(k, op, Low(k, Read(st.regs, rs)), RhsPattern(k, st.regs, rhs)))
  }

  lemma ComputesOnAny(arch: Arch, k: nat, bits: nat, code: seq<Inst>, next: nat, rd: Register, op: BinaryOpcode,
                      rs: Register, rhs: Rhs)
    requires 1 <= bits <= k && Computes(arch, k, code, next, rd, op, rs, rhs)
    ensures ComputesOn(arch, k, bits, code, next, rd, op, rs, rhs)
  {
    hide Low, Pow2, ValueAt, InRange, KeepsOthers, Exec, Narrow;
  }

  lemma SdivComputes(arch: Arch, k: nat, bits: nat, quotient: Register, rs: Register, sign: Register, biased: Register,
                     s: nat, next: nat)
    requires 1 <= s < 31 && 1 <= bits <= k && (k == 32 || k == Xlen(arch))
    requires quotient != ZERO && sign != ZERO && biased != ZERO && sign != biased && quotient != sign
    requires quotient != biased
    requires !Allocated(sign, next) && !Allocated(biased, next) && Allocated(rs, next)
    ensures ComputesOn(arch, k, bits, SdivInsts(arch, k, bits, quotient, rs, sign, biased, s), next, quotient, SDiv, rs,
      Fixed(Pow2(s)))
  {
    hide Low, Pow2, ValueAt, InRange, KeepsOthers, Exec, SdivInsts, Signed, TruncDiv, Narrow;
    SmallPower(s);
    forall X, st: State | InRange(arch, st.regs) && Narrow(k, bits, Read(st.regs, rs))
      ensures var st' := Exec(arch, X, SdivInsts(arch, k, bits, quotient, rs, sign, biased, s), st);
        && KeepsOthers(next, quotient, st, st')
        && Low(k, Read(st'.regs, quotient))
             == Low(k, ValueAt(k, SDiv, Low(k, Read(st.regs, rs)), RhsPattern(k, st.regs, Fixed(Pow2(s)))))
    {
      SdivRuns(arch, k, bits, X, quotient, rs, sign, biased, s, next, st);
      DivFixed(k, Low(k, Read(st.regs, rs)), Pow2(s));
    }
  }

  lemma SmallPower(s: nat)
    requires s < 31
    ensures 0 < Pow2(s) && IsI32(Pow2(s))
  {
    Pow32();
    PowMonotone(s + 1, 31);
  }

  lemma NegatedSdiv(arch: Arch, k: nat, bits: nat, code: seq<Inst>, tmp: Register, rd: Register, rs: Register, c: int,
                    next: nat)
    requires rd != ZERO && tmp != ZERO && !Allocated(tmp, next) && Allocated(rs, next)
    requires 1 <= bits <= k && 32 <= k <= Xlen(arch)
    requires c > 0 && IsI32(c) && ComputesOn(arch, k, bits, code, next, tmp, SDiv, rs, Fixed(c))
    ensures ComputesOn(arch, k, bits, code + [RegReg(RegOp.Sub, rd, ZERO, tmp)], next, rd, SDiv, rs, Fixed(-c))
  {
    var code' := code + [RegReg(RegOp.Sub, rd, ZERO, tmp)];
    hide Low, Pow2, ValueAt, Exec, InRange, KeepsOthers, Signed, TruncDiv, Narrow;
    forall X, st: State | InRange(arch, st.regs) && Narrow(k, bits, Read(st.regs, rs))
      ensures var st' := Exec(arch, X, code', st);
        && KeepsOthers(next, rd, st, st')
        && Low(k, Read(st'.regs, rd))
             == Low(k, ValueAt(k, SDiv, Low(k, Read(st.regs, rs)), RhsPattern(k, st.regs, Fixed(-c))))
    {
      var a := Low(k, Read(st.regs, rs));
      DivFixed(k, a, c);
      DivFixed(k, a, -c);
      TruncDivNegated(Signed(k, a), c);
      ThenNegate(arch, k, X, code, tmp, rd, next, TruncDiv(Signed(k, a), c), st);
    }
  }

  lemma TruncDivNegated(v: int, c: int)
    requires c > 0
    ensures TruncDiv(v, -c) == -TruncDiv(v, c)
  {
    var u := Abs(v);
    assert u == (-(u / c)) * (-c) + u % c;
    EuclidNegative(u, c);
  }

  lemma EuclidNegative(u: nat, c: int)
    requires c > 0
    ensures u / (-c) == -(u / c)
  {
    var q, r := u / (-c), u % (-c);
    assert u == q * (-c) + r && 0 <= r < c;
    assert q * (-c) == (-q) * c;
    DivModUnique(u, c, -q, r);
  }

  predicate SdivHandled(imm: int) {
    imm != 0 && imm != -0x8000_0000 && IsPowerOfTwo(Abs(imm))
  }

  lemma SdivByOne(k: nat)
    requires k >= 32
    ensures forall a: nat :: Low(k, ValueAt(k, SDiv, Low(k, a), Low(k, 1))) == Low(k, a)
  {
    forall a: nat ensures Low(k, ValueAt(k, SDiv, Low(k, a), Low(k, 1))) == Low(k, a) {
      DivFixed(k, Low(k, a), 1);
      LowSigned(k, Low(k, a));
      LowOfLow(k, k, a);
      hide Low, Pow2, Signed, ValueAt;
    }
  }

  lemma NegateIsSdiv(arch: Arch, k: nat, rd: Register, rs: Register, next: nat)
    requires rd != ZERO && 32 <= k <= Xlen(arch)
    ensures Computes(arch, k, [RegReg(RegOp.Sub, rd, ZERO, rs)], next, rd, SDiv, rs, Fixed(-1))
  {
    var inst := RegReg(RegOp.Sub, rd, ZERO, rs);
    hide ValueAt, Low, Pow2, Computed, Computes, Signed;
    forall regs: Regs | InRange(arch, regs)
      ensures Low(k, Computed(arch, inst, regs))
        == Low(k, ValueAt(k, SDiv, Low(k, Read(regs, rs)), RhsPattern(k, regs, Fixed(-1))))
    {
      var v := Read(regs, rs);
      NegateCode(arch, k, rd, rs, regs);
      PatternInRange(arch, regs, rs);
      DivFixed(k, Low(k, v), -1);
      LowSigned(k, Low(k, v));
      LowOfLow(k, k, v);
      LowAdd(k, 0, v, 0, Signed(k, Low(k, v)));
      TruncDivNegated(Signed(k, Low(k, v)), 1);
    }
    ComputesOne(arch, k, inst, next, SDiv, rs, Fixed(-1));
  }

  method EmitSdivConst(arch: Arch, rd: Register, rs: Register, imm: int, bits: nat, out: seq<Inst>, fn: MachineFunction)
    returns (ok: bool, out': seq<Inst>)
    requires IsI32(imm) && 1 <= bits <= Xlen(arch) && rd != ZERO && Allocated(rd, fn.nextVreg)
    requires Allocated(rs, fn.nextVreg)
    modifies fn`nextVreg
    ensures fn.nextVreg >= old(fn.nextVreg) && out <= out' && (ok <==> SdivHandled(imm))
    ensures !ok ==> out' == out && fn.nextVreg == old(fn.nextVreg)
    ensures ok ==> ComputesOn(arch, FormWidth(arch, SDiv, bits), bits, out'[|out|..], old(fn.nextVreg), rd, SDiv, rs,
      Fixed(imm))
    ensures ok && arch == RV64 && bits == 32 ==> LeavesValue(out'[|out|..], rd, SDiv, rs, imm)
    ensures Encoded(arch, out, out')
  {
    hide Computes, ComputesOn, ValueAt, Low, Pow2, SdivInsts, LeavesValue, Encoded;
    EncodedNothing(arch, out);
    ghost var next, k := fn.nextVreg, FormWidth(arch, SDiv, bits);
    if imm == 0 || imm == -0x8000_0000 {
      return false, out;
    }
    if imm == 1 {
      out' := EmitCopyOrMove(rd, rs, out);
      EncodedCopy(arch, out, out, rd, rs);
      assert out'[|out|..] == if rd == rs then [] else [Mv(rd, rs)];
      SdivByOne(k);
      CopyCode(arch, k, rd, rs, SDiv, 1, next);
      ComputesOnAny(arch, k, bits, out'[|out|..], next, rd, SDiv, rs, Fixed(1));
      DivValues(1);
      CopyLeaves(rd, SDiv, rs, 1);
      return true, out';
    }
    if imm == -1 {
      EncodedFirst(arch, out, RegReg(RegOp.Sub, rd, ZERO, rs));
      out' := out + [RegReg(RegOp.Sub, rd, ZERO, rs)];
      assert out'[|out|..] == [RegReg(RegOp.Sub, rd, ZERO, rs)];
      NegateIsSdiv(arch, k, rd, rs, next);
      ComputesOnAny(arch, k, bits, out'[|out|..], next, rd, SDiv, rs, Fixed(-1));
      NegatedLeaves(rd, SDiv, rs);
      return true, out';
    }
    var abs := Abs(imm);
    if IsPowerOfTwo(abs) {
      var shift := TrailingZeros(abs);
      PowerOfTwoShift(abs);
      ShiftFits(abs);
      var sign := fn.NewVreg();
      var biased := fn.NewVreg();
      if bits == 32 && arch == RV64 {
        out' := out + [RegImm(Sraiw, sign, rs, 31)];
      } else {
        out' := out + [RegImm(Srai, sign, rs, bits - 1)];
      }
      out' := out' + [RegImm(Srli, sign, sign, Xlen(arch) - shift)];
      out' := out' + [RegReg(RegOp.Add, biased, rs, sign)];
      var quotient := rd;
      if imm < 0 {
        quotient := fn.NewVreg();
      }
      if bits == 32 && arch == RV64 {
        out' := out' + [RegImm(Sraiw, quotient, biased, shift)];
      } else {
        out' := out' + [RegImm(Srai, quotient, biased, shift)];
      }
      ghost var code := out'[|out|..];
      SdivListed(arch, k, bits, quotient, rs, sign, biased, shift);
      assert code == SdivInsts(arch, k, bits, quotient, rs, sign, biased, shift);
      EncodedSdiv(arch, k, bits, out, quotient, rs, sign, biased, shift);
      assert out' == out + SdivInsts(arch, k, bits, quotient, rs, sign, biased, shift);
      SdivComputes(arch, k, bits, quotient, rs, sign, biased, shift, next);
      if arch == RV64 && bits == 32 {
        DividedLeaves(code, quotient, rs, sign, biased, shift, next);
      }
      if imm < 0 {
        EncodedOne(arch, out, out', RegReg(RegOp.Sub, rd, ZERO, quotient));
        out' := out' + [RegReg(RegOp.Sub, rd, ZERO, quotient)];
        assert out'[|out|..] == code + [RegReg(RegOp.Sub, rd, ZERO, quotient)];
        NegatedSdiv(arch, k, bits, code, quotient, rd, rs, abs, next);
        if arch == RV64 && bits == 32 {
          DivValues(abs);
          NegateLeaves(code, quotient, rd, SDiv, rs, abs, imm);
        }
      }
      return true, out';
    }
    return false, out;
  }

  lemma EncodedSdiv(arch: Arch, k: nat, bits: nat, out: seq<Inst>, quotient: Register, rs: Register, sign: Register,
                    biased: Register, s: nat)
    requires 1 <= s < 31 && 1 <= bits <= Xlen(arch) && k == FormWidth(arch, SDiv, bits)
    ensures Encoded(arch, out, out + SdivInsts(arch, k, bits, quotient, rs, sign, biased, s))
  {
    SdivListed(arch, k, bits, quotient, rs, sign, biased, s);
    var code := SdivInsts(arch, k, bits, quotient, rs, sign, biased, s);
    assert (out + code)[|out|..] == code;
    hide SdivInsts;
  }

  lemma SdivListed(arch: Arch, k: nat, bits: nat, quotient: Register, rs: Register, sign: Register, biased: Register,
                   s: nat)
    requires s <= Xlen(arch) && bits >= 1
    ensures SdivInsts(arch, k, bits, quotient, rs, sign, biased, s) ==
      [RegImm(FormImm(arch, k, AShr), sign, rs, bits - 1), RegImm(Srli, sign, sign, Xlen(arch) - s),
       RegReg(RegOp.Add, biased, rs, sign), RegImm(FormImm(arch, k, AShr), quotient, biased, s)]
  {
  }

  /** rem = dividend - quotient * divisor, from code for the quotient and for the product. */
  lemma RemFromDiv(arch: Arch, k: nat, bits: nat, c1: seq<Inst>, c2: seq<Inst>, q: Register, p: Register, rd: Register,
                   rs: Register,
                   imm: int, next: nat, next2: nat)
    requires IsI32(imm) && imm != 0 && rd != ZERO && q != ZERO && p != ZERO && next <= next2
    requires !Allocated(q, next) && !Allocated(p, next) && Allocated(rs, next) && Allocated(q, next2)
    requires 1 <= bits <= k && 32 <= k <= Xlen(arch) && ComputesOn(arch, k, bits, c1, next, q, SDiv, rs, Fixed(imm))
    requires Computes(arch, k, c2, next2, p, BinaryOpcode.Mul, q, Fixed(imm))
    ensures ComputesOn(arch, k, bits, c1 + c2 + [RegReg(RegOp.Sub, rd, rs, p)], next, rd, SRem, rs, Fixed(imm))
  {
    var sub := RegReg(RegOp.Sub, rd, rs, p);
    hide Low, Pow2, ValueAt, Exec, InRange, Step, Signed, TruncDiv, Narrow;
    forall X, st: State | InRange(arch, st.regs) && Narrow(k, bits, Read(st.regs, rs))
      ensures var st' := Exec(arch, X, c1 + c2 + [sub], st);
        && KeepsOthers(next, rd, st, st')
        && Low(k, Read(st'.regs, rd))
             == Low(k, ValueAt(k, SRem, Low(k, Read(st.regs, rs)), RhsPattern(k, st.regs, Fixed(imm))))
    {
      var st1 := Exec(arch, X, c1, st);
      var st2 := Exec(arch, X, c2, st1);
      ExecInRange(arch, X, c1, st);
      ExecInRange(arch, X, c2, st1);
      ExecAppend(arch, X, c1, c2, st);
      ExecSnoc(arch, X, c1 + c2, sub, st);
      StepCompute(arch, X, sub, st2);
      SubCode(arch, k, rd, rs, p, st2.regs);
      LowOfLow(k, Xlen(arch), Computed(arch, sub, st2.regs));
      RemArith(arch, k, st.regs, st1.regs, st2.regs, rs, q, p, imm);
    }
  }

  lemma RemArith(arch: Arch, k: nat, regs: Regs, regs1: Regs, regs2: Regs, rs: Register, q: Register, p: Register,
                 imm: int)
    requires IsI32(imm) && imm != 0 && InRange(arch, regs) && InRange(arch, regs1) && k >= 32
    requires Read(regs2, rs) == Read(regs, rs)
    requires Low(k, Read(regs1, q)) == Low(k, ValueAt(k, SDiv, Low(k, Read(regs, rs)), Low(k, imm)))
    requires Low(k, Read(regs2, p)) == Low(k, ValueAt(k, BinaryOpcode.Mul, Low(k, Read(regs1, q)), Low(k, imm)))
    ensures Low(k, Read(regs2, rs) - Read(regs2, p)) == Low(k, ValueAt(k, SRem, Low(k, Read(regs, rs)), Low(k, imm)))
  {
    hide Low, Pow2, ValueAt, Signed, TruncDiv;
    PatternInRange(arch, regs1, q);
    var a := Low(k, Read(regs, rs));
    var d := TruncDiv(Signed(k, a), imm);
    DivFixed(k, a, imm);
    MulFixed(k, Read(regs1, q), imm);
    LowMul(k, Read(regs1, q), imm, d, imm);
    LowSigned(k, a);
    LowOfLow(k, k, Read(regs, rs));
    LowAdd(k, Read(regs, rs), Read(regs2, p), Signed(k, a), d * imm);
  }

  method EmitSremConst(arch: Arch, rd: Register, rs: Register, imm: int, bits: nat, out: seq<Inst>, fn: MachineFunction)
    returns (ok: bool, out': seq<Inst>)
    requires IsI32(imm) && 1 <= bits <= Xlen(arch) && rd != ZERO && Allocated(rd, fn.nextVreg)
    requires Allocated(rs, fn.nextVreg)
    modifies fn`nextVreg
    ensures fn.nextVreg >= old(fn.nextVreg) && out <= out' && (ok <==> SdivHandled(imm))
    ensures !ok ==> out' == out && fn.nextVreg == old(fn.nextVreg)
    ensures ok ==> ComputesOn(arch, FormWidth(arch, SRem, bits), bits, out'[|out|..], old(fn.nextVreg), rd, SRem, rs,
      Fixed(imm))
    ensures ok && arch == RV64 && bits == 32 ==> LeavesValue(out'[|out|..], rd, SRem, rs, imm)
    ensures Encoded(arch, out, out')
  {
    hide Computes, ComputesOn, ValueAt, Low, Pow2, LeavesValue, Encoded;
    EncodedNothing(arch, out);
    ghost var next, k := fn.nextVreg, FormWidth(arch, SRem, bits);
    if imm == 0 || imm == -0x8000_0000 {
      return false, out;
    }
    var abs := Abs(imm);
    if abs == 1 {
      out' := EmitConstInt(rd, 0, out);
      EncodedCopy(arch, out, out, rd, ZERO);
      assert out'[|out|..] == [Mv(rd, ZERO)];
      SremByUnit(k, imm);
      ZeroCode(arch, k, rd, rs, SRem, imm, next);
      ComputesOnAny(arch, k, bits, out'[|out|..], next, rd, SRem, rs, Fixed(imm));
      ZeroLeaves(rd, SRem, rs, imm);
      return true, out';
    }
    if IsPowerOfTwo(abs) {
      var quotient := fn.NewVreg();
      var ok1, out1 := EmitSdivConst(arch, quotient, rs, imm, bits, out, fn);
      if !ok1 {
        return false, out;
      }
      var product := fn.NewVreg();
      ghost var next2 := fn.nextVreg;
      var ok2, out2 := EmitMulConst(arch, product, quotient, imm, bits, out1, fn);
      assert ok2;  // every divisor the division handles, the multiplication handles
      EncodedThen(arch, out, out1, out2);
      EncodedOne(arch, out, out2, RegReg(RegOp.Sub, rd, rs, product));
      out' := out2 + [RegReg(RegOp.Sub, rd, rs, product)];
      ghost var c1, c2 := out1[|out|..], out2[|out1|..];
      assert out'[|out|..] == c1 + c2 + [RegReg(RegOp.Sub, rd, rs, product)];
      ComputesEarlier(arch, k, bits, c1, next, next + 1, quotient, SDiv, rs, Fixed(imm));
      RemFromDiv(arch, k, bits, c1, c2, quotient, product, rd, rs, imm, next, next2);
      if arch == RV64 && bits == 32 {
        RemLeaves(c1, c2, quotient, product, rd, rs, imm, next, next2);
      }
      return true, out';
    }
    return false, out;
  }

  lemma ComputesEarlier(arch: Arch, k: nat, bits: nat, code: seq<Inst>, next: nat, next': nat, rd: Register,
                        op: BinaryOpcode, rs: Register, rhs: Rhs)
    requires 1 <= bits <= k && next <= next' && ComputesOn(arch, k, bits, code, next', rd, op, rs, rhs)
    ensures ComputesOn(arch, k, bits, code, next, rd, op, rs, rhs)
  {
    hide Narrow, Low, Pow2, ValueAt, Exec, InRange;
  }

  lemma SremByUnit(k: nat, imm: int)
    requires Abs(imm) == 1 && k >= 32
    ensures forall a: nat :: Low(k, ValueAt(k, SRem, Low(k, a), Low(k, imm))) == 0
  {
    hide Low, Pow2, Signed, ValueAt;
    forall a: nat ensures Low(k, ValueAt(k, SRem, Low(k, a), Low(k, imm))) == 0 {
      var v := Signed(k, Low(k, a));
      DivFixed(k, Low(k, a), imm);
      TruncDivNegated(v, 1);
      LowSmall(k, 0);
    }
  }

  // ---------------------------------------------------------------- when a sign-extended register stays one

  /** The constants and numbers for which the specialised code leaves a register that is not
      sign-extended: a negation, in 64 bits, of what reads as the least 32-bit number. */
  predicate Overflows(op: BinaryOpcode, v: int, imm: int) {
    match op
    case Mul => imm < 0 && IsPowerOfTwo(-imm) && Signed(32, v * -imm) == -0x8000_0000
    case SDiv => imm == -1 && v == -0x8000_0000
    case SRem => -0x8000_0000 < imm < -1 && IsPowerOfTwo(-imm) && v == -0x8000_0000
    case _ => false
  }

  lemma MulRange(v: int, imm: int)
    ensures var t := MulValue(v, imm);
      -0x8000_0000 <= t <= 0x8000_0000 && (IsI32(t) <==> !Overflows(BinaryOpcode.Mul, v, imm))
  {
    SignedIsI32(v * -imm);
    SignedIsI32(v * imm);
    hide Signed, IsPowerOfTwo;
  }

  lemma DivRange(v: int, imm: int)
    requires IsI32(v) && IsI32(imm) && imm != 0
    ensures var t := TruncDiv(v, imm);
      -0x8000_0000 <= t <= 0x8000_0000 && (IsI32(t) <==> !Overflows(SDiv, v, imm))
  {
    if Abs(imm) > 1 {
      QuotientShrinks(v, imm);
    } else if imm == -1 {
      TruncDivNegated(v, 1);
    }
  }

  /** Quotient times divisor lies between zero and the dividend. */
  lemma ProductBetween(v: int, c: int)
    requires c > 0
    ensures var m := TruncDiv(v, c) * c; if v >= 0 then 0 <= m <= v < m + c else m - c < v <= m <= 0
  {
    var u := Abs(v);
    QuotientProduct(u, c);
    if v < 0 {
      Negated(u / c, c);
    }
  }

  lemma QuotientProduct(u: nat, c: int)
    requires c > 0
    ensures 0 <= (u / c) * c <= u < (u / c) * c + c
  {
    assert u == (u / c) * c + u % c;
    MulMonotone(0, u / c, c);
  }

  lemma LeastDivides(s: nat)
    requires s <= 31
    ensures TruncDiv(-0x8000_0000, Pow2(s)) * Pow2(s) == -0x8000_0000
  {
    Pow32();
    PowAdd(31 - s, s);
    hide Pow2;
    DivModUnique(0x8000_0000, Pow2(s), Pow2(31 - s), 0);
    Negated(Pow2(31 - s), Pow2(s));
  }

  lemma RemRange(v: int, imm: int)
    requires IsI32(v) && SdivHandled(imm) && IsI32(imm)
    ensures var t := LeftValue(SRem, v, imm);
      -0x1_0000_0000 <= t <= 0x1_0000_0000 && (IsI32(t) <==> !Overflows(SRem, v, imm))
  {
    if Abs(imm) > 1 {
      hide IsPowerOfTwo, Signed, TruncDiv, Pow2;
      var c := Abs(imm);
      PowerOfTwoShift(c);
      ShiftFits(c);
      var m := TruncDiv(v, c) * c;
      ProductBetween(v, c);
      FitsReads(m);
      if imm < 0 {
        TruncDivNegated(v, c);
        assert TruncDiv(v, imm) * c == -m by { Negated(TruncDiv(v, c), c); }
        LeastDivides(TrailingZeros(c));
        NegatedProduct(v, c, m);
      } else {
        NotNegative(imm);
      }
    }
  }

  lemma Negated(q: int, c: int)
    ensures -q * c == -(q * c)
  {
  }

  lemma NotNegative(imm: int)
    requires imm > 0
    ensures forall v: int :: MulValue(v, imm) == Signed(32, v * imm)
  {
  }

  lemma NegatedProduct(v: int, c: int, m: int)
    requires 1 < c < 0x8000_0000 && IsPowerOfTwo(c) && IsI32(v) && m == TruncDiv(v, c) * c
    requires TruncDiv(v, -c) * c == -m && (if v >= 0 then 0 <= m <= v < m + c else m - c < v <= m <= 0)
    requires v == -0x8000_0000 ==> m == v
    ensures v == -0x8000_0000 ==> MulValue(TruncDiv(v, -c), -c) == 0x8000_0000
    ensures v != -0x8000_0000 ==> MulValue(TruncDiv(v, -c), -c) == m
  {
    hide IsPowerOfTwo, TruncDiv;
    if v == -0x8000_0000 {
      TopReads();
    } else {
      FitsReads(-m);
    }
  }

  lemma TopReads()
    ensures Signed(32, 0x8000_0000) == -0x8000_0000
  {
    Pow32();
    LowSmall(32, 0x8000_0000);
  }
}
