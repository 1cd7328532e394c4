/** Lowering of integer operators to RISC-V (src/mir/lower.rs:279-360, 419-619, 1376-1694):
    the emitted instructions compute, in the low bits, exactly what constant folding computes. */
module LowerArith {
  import opened Machine
  import opened Bits
  import opened CoreInts

  predicate IsI32(v: int) {
    -0x8000_0000 <= v < 0x8000_0000
  }

  /** A number cut down to a signed 32-bit one, as Rust's `as i32` does. */
  function ToI32(v: int): (r: int)
    ensures IsI32(r) && Low(32, r) == Low(32, v)
  {
    Pow32();
    LowSigned(32, v);
    Signed(32, v)
  }

  // ---------------------------------------------------------------- powers of two

  function IsPowerOfTwo(n: nat): bool {
    n == 1 || (n > 1 && n % 2 == 0 && IsPowerOfTwo(n / 2))
  }

  function TrailingZeros(n: nat): nat {
    if n > 1 && n % 2 == 0 then 1 + TrailingZeros(n / 2) else 0
  }

  lemma {:induction false} PowerOfTwoShift(n: nat)
    requires IsPowerOfTwo(n)
    ensures n == Pow2(TrailingZeros(n))
  {
    if n > 1 {
      PowerOfTwoShift(n / 2);
    }
  }

  lemma ShiftBound(n: nat, k: nat)
    requires IsPowerOfTwo(n) && n < Pow2(k)
    ensures TrailingZeros(n) < k && (n > 1 ==> TrailingZeros(n) >= 1)
  {
    PowerOfTwoShift(n);
    if k <= TrailingZeros(n) {
      PowMonotone(k, TrailingZeros(n));
    }
  }

  lemma ShiftFits(abs: nat)
    requires IsPowerOfTwo(abs) && abs <= 0x8000_0000
    ensures TrailingZeros(abs) < 32 && (abs > 1 ==> TrailingZeros(abs) >= 1)
    ensures (abs < 0x8000_0000 ==> TrailingZeros(abs) < 31)
  {
    Pow32();
    ShiftBound(abs, 32);
    if abs < 0x8000_0000 {
      ShiftBound(abs, 31);
    }
  }

  function Abs(v: int): nat {
    if v < 0 then -v else v
  }

  // ---------------------------------------------------------------- the operators on k-bit patterns

  /** What an operator computes on k-bit patterns, before the result is cut down to k bits. */
  function ValueAt(k: nat, op: BinaryOpcode, a: nat, b: nat): int
    requires k >= 1
  {
    match op
    case Add => a + b
    case Sub => a - b
    case Mul => a * b
    case UDiv => DivU(k, a, b)
    case SDiv => DivS(k, a, b)
    case URem => RemU(k, a, b)
    case SRem => RemS(k, a, b)
    case Shl => a * Pow2(b % k)
    case LShr => a / Pow2(b % k)
    case AShr => Signed(k, a) / Pow2(b % k)
    case And => Bitwise(AndOp, a, b)
    case Or => Bitwise(OrOp, a, b)
    case Xor => Bitwise(XorOp, a, b)
  }

  /** The operators that read their operands as two's complement numbers. */
  predicate ReadsSigned(op: BinaryOpcode) {
    op == SDiv || op == SRem || op == AShr
  }

  /** A k-bit pattern that holds a narrower integer: sign-extended where the operator reads signed
      numbers, zero-extended where it does not. */
  ghost predicate HoldsInt(k: nat, op: BinaryOpcode, x: nat, a: CoreInt)
    requires k >= 1
  {
    && a.Valid() && a.width <= k <= 64 && x < Pow2(k)
    && if ReadsSigned(op) then Signed(k, x) == Signed(a.width, a.value) else x == a.value
  }

  /** The operators whose low bits depend on low bits alone, shift amounts aside. */
  predicate Wraps(op: BinaryOpcode) {
    !ReadsSigned(op) && op != UDiv && op != URem && op != LShr
  }

  /** What is asked of a pattern that stands for the right operand. */
  ghost predicate Suits(k: nat, op: BinaryOpcode, y: nat, b: CoreInt)
    requires k >= 1
  {
    && b.Valid() && b.width <= k <= 64 && y < Pow2(k)
    && if ReadsSigned(op) then Signed(k, y) == Signed(b.width, b.value) || Signed(k, y) == b.AsI64()
       else if Wraps(op) && op != Shl then Low(b.width, y) == b.value
       else y == b.value
  }

  lemma HoldingSuits(k: nat, op: BinaryOpcode, y: nat, b: CoreInt)
    requires k >= 1 && HoldsInt(k, op, y, b)
    ensures Suits(k, op, y, b)
  {
    LowSmall(b.width, b.value);
    hide Low, Pow2, Signed;
  }

  lemma FoldSigned(k: nat, op: BinaryOpcode, a: CoreInt, b: CoreInt, x: nat, y: nat)
    requires k >= 1 && HoldsInt(k, op, x, a) && Suits(k, op, y, b) && a.width == b.width > 1
    requires (op == SDiv || op == SRem)
    requires Fold(op, a, b).Some?
    ensures Fold(op, a, b).value.value == Low(a.width, ValueAt(k, op, x, y))
  {
    hide TruncDiv, Signed, Low, Pow2, Bitwise;
    var u, v := Signed(a.width, a.value), Signed(b.width, b.value);
    match op {
      case SDiv => LowOfLow(a.width, 64, TruncDiv(u, v));
      case SRem => LowOfLow(a.width, 64, TruncRem(u, v));
    }
  }

  lemma OneBitQuotient(u: int, v: int)
    requires (u == 0 || u == -1) && (v == 1 || v == -1)
    ensures Low(1, TruncDiv(u, v)) == -u && TruncRem(u, v) == 0
  {
    OneBitLows();
    hide Low;
  }

  lemma OneBitFold(a: CoreInt, b: CoreInt)
    requires SameWidth(a, b) && a.width == 1 && b.value == 1
    ensures Fold(SDiv, a, b).Some? && Fold(SDiv, a, b).value.value == a.value
    ensures Fold(SRem, a, b).Some? && Fold(SRem, a, b).value.value == 0
  {
    assert Pow2(1) == 2;
    LowOfLow(1, 64, a.value);
    LowOfLow(1, 64, 0);
    OneBitLows();
    hide Low, Pow2;
  }

  /** One-bit integers read as 0 and 1 at compile time and as 0 and -1 in a register; quotients and
      remainders have the same low bit all the same. */
  lemma FoldOneBit(k: nat, op: BinaryOpcode, a: CoreInt, b: CoreInt, x: nat, y: nat)
    requires k >= 1 && HoldsInt(k, op, x, a) && Suits(k, op, y, b) && a.width == b.width == 1
    requires (op == SDiv || op == SRem) && Fold(op, a, b).Some?
    ensures Fold(op, a, b).value.value == Low(1, ValueAt(k, op, x, y))
  {
    assert Pow2(1) == 2;
    OneBitSigned(a.value);
    OneBitSigned(b.value);
    assert b.value == 1;
    OneBitFold(a, b);
    OneBitLows();
    OneBitQuotient(Signed(k, x), Signed(k, y));
    hide Signed, Pow2, Low, TruncDiv, Fold;
  }

  lemma OneBitLows()
    ensures Low(1, 0) == 0 && Low(1, 1) == 1 && Low(1, 0 - 1) == 1
  {
  }

  lemma OneBitSigned(v: nat)
    requires v < 2
    ensures Signed(1, v) == 0 - v
  {
  }

  /** A shift amount below the width reads the same either way. */
  lemma AmountReadsSame(b: CoreInt)
    requires b.Valid() && b.value < b.width
    ensures Signed(b.width, b.value) == b.value == b.AsI64()
  {
    AmountFits(b.width);
    LowSmall(b.width, b.value);
    hide Pow2, Low;
  }

  lemma {:induction false} AmountFits(w: nat)
    requires w >= 1
    ensures w <= Pow2(w - 1)
  {
    if w > 1 {
      AmountFits(w - 1);
    }
  }

  lemma AmountMod(y: nat, k: nat)
    requires y < k
    ensures y % k == y
  {
  }

  lemma FoldShiftRight(k: nat, a: CoreInt, b: CoreInt, x: nat, y: nat)
    requires k >= 1 && HoldsInt(k, AShr, x, a) && Suits(k, AShr, y, b) && a.width == b.width
    requires Fold(AShr, a, b).Some?
    ensures Fold(AShr, a, b).value.value == Low(a.width, ValueAt(k, AShr, x, y))
  {
    assert b.value < b.width;
    AmountReadsSame(b);
    SignedSame(k, y, b.value);
    AmountMod(y, k);
    hide Signed, Low, Pow2, HoldsInt, Suits;
    assert ValueAt(k, AShr, x, y) == Signed(k, x) / Pow2(y) by { ShiftValue(k, x, y); }
    var q := a.AsI64() / Pow2(b.value);
    LowOfLow(a.width, 64, q);
    assert Fold(AShr, a, b).value.value == Low(a.width, q);
    if a.width == 1 {
      OneBitShift(a, q);
    }
  }

  lemma ShiftValue(k: nat, x: nat, y: nat)
    requires y < k
    ensures ValueAt(k, AShr, x, y) == Signed(k, x) / Pow2(y)
  {
    AmountMod(y, k);
    hide Signed, Pow2;
  }

  lemma OneBitShift(a: CoreInt, q: int)
    requires a.Valid() && a.width == 1 && q == a.AsI64() / Pow2(0)
    ensures Low(1, q) == Low(1, Signed(1, a.value) / Pow2(0))
  {
    assert Pow2(1) == 2 && Pow2(0) == 1;
    OneBitSigned(a.value);
    OneBitLows();
  }

  /** A pattern with a non-negative reading is that reading. */
  lemma SignedSame(k: nat, y: nat, v: nat)
    requires k >= 1 && y < Pow2(k) && Signed(k, y) == v
    ensures y == v
  {
    LowSmall(k, y);
  }

  lemma FoldUnsigned(k: nat, op: BinaryOpcode, a: CoreInt, b: CoreInt)
    requires SameWidth(a, b) && a.width <= k && Fold(op, a, b).Some?
    requires op == UDiv || op == URem || op == LShr
    ensures Fold(op, a, b).value.value == Low(a.width, ValueAt(k, op, a.value, b.value))
  {
    if op == LShr {
      AmountMod(b.value, k);
    }
    hide Low, Pow2, Bitwise, Signed, TruncDiv, CheckedDiv, CheckedRem, FromSigned;
    match op {
      case UDiv =>
      case URem =>
      case LShr =>
    }
  }

  lemma FoldBits(k: nat, op: BinaryOpcode, a: CoreInt, b: CoreInt, x: nat, y: nat)
    requires SameWidth(a, b) && a.width <= k && Fold(op, a, b).Some?
    requires Low(a.width, x) == a.value && Low(a.width, y) == b.value
    requires op in {BinaryOpcode.And, BinaryOpcode.Or, BinaryOpcode.Xor}
    ensures Fold(op, a, b).value.value == Low(a.width, ValueAt(k, op, x, y))
  {
    BitwiseLow(AndOp, a.width, x, y);
    BitwiseLow(OrOp, a.width, x, y);
    BitwiseLow(XorOp, a.width, x, y);
    LowOfLow(a.width, a.width, Bitwise(AndOp, x, y));
    LowOfLow(a.width, a.width, Bitwise(OrOp, x, y));
    LowOfLow(a.width, a.width, Bitwise(XorOp, x, y));
    hide Low, Pow2, Bitwise, Signed, TruncDiv, CheckedDiv, CheckedRem, FromSigned, DivS, RemS, DivU, RemU;
    match op {
      case And =>
      case Or =>
      case Xor =>
    }
  }

  lemma FoldWrapping(k: nat, op: BinaryOpcode, a: CoreInt, b: CoreInt, x: nat, y: nat)
    requires SameWidth(a, b) && a.width <= k && Fold(op, a, b).Some?
    requires Low(a.width, x) == a.value && (if op == Shl then y == b.value else Low(a.width, y) == b.value)
    requires op in {BinaryOpcode.Add, BinaryOpcode.Sub, BinaryOpcode.Mul, BinaryOpcode.Shl}
    ensures Fold(op, a, b).value.value == Low(a.width, ValueAt(k, op, x, y))
  {
    var w := a.width;
    FoldWraps(op, a, b);
    LowOfLow(w, w, x);
    if op == Shl {
      AmountMod(b.value, k);
      LowMul(w, x, Pow2(y), a.value, Pow2(y));
    } else {
      LowOfLow(w, w, y);
      LowAdd(w, x, y, a.value, b.value);
      LowMul(w, x, y, a.value, b.value);
    }
    hide Low, Pow2, Bitwise, Signed, DivS, RemS, DivU, RemU;
    match op {
      case Add =>
      case Sub =>
      case Mul =>
      case Shl =>
    }
  }

  /** Where folding is defined on two integers, the operator on wider patterns that stand for them
      computes the same low bits. */
  lemma FoldIsValue(k: nat, op: BinaryOpcode, a: CoreInt, b: CoreInt, x: nat, y: nat)
    requires k >= 1 && HoldsInt(k, op, x, a) && Suits(k, op, y, b) && a.width == b.width && Fold(op, a, b).Some?
    ensures Fold(op, a, b).value.value == Low(a.width, ValueAt(k, op, x, y))
  {
    LowSmall(a.width, a.value);
    hide ValueAt, Low, Signed, Pow2, Fold;
    if op == AShr {
      FoldShiftRight(k, a, b, x, y);
    } else if op == SDiv || op == SRem {
      if a.width == 1 {
        FoldOneBit(k, op, a, b, x, y);
      } else {
        FoldSigned(k, op, a, b, x, y);
      }
    } else if op in {BinaryOpcode.Add, BinaryOpcode.Sub, BinaryOpcode.Mul, BinaryOpcode.Shl} {
      FoldWrapping(k, op, a, b, x, y);
    } else if op == UDiv || op == URem || op == LShr {
      FoldUnsigned(k, op, a, b);
    } else {
      FoldBits(k, op, a, b, x, y);
    }
  }

  // ---------------------------------------------------------------- what emitted code computes

  /** The second operand: a register, or a constant the code was specialised for. */
  datatype Rhs = InReg(r: Register) | Fixed(c: int)

  ghost function RhsPattern(k: nat, regs: Regs, rhs: Rhs): nat {
    match rhs
    case InReg(r) => Low(k, Read(regs, r))
    case Fixed(c) => Low(k, c)
  }

  /** Code keeps memory and every allocated register other than rd. */
  ghost predicate KeepsOthers(next: nat, rd: Register, st: State, st': State) {
    st'.mem == st.mem && forall r: Register :: Allocated(r, next) && r != rd ==> st'.regs[r] == st.regs[r]
  }

  /** From every state the code leaves the operator's result in the low k bits of rd. */
  ghost predicate Computes(arch: Arch, k: nat, code: seq<Inst>, next: nat, rd: Register, op: BinaryOpcode, rs: Register,
                           rhs: Rhs)
    requires k >= 1
  {
    forall X, st: State :: InRange(arch, st.regs) ==>
      var st' := Exec(arch, X, code, st);
      && KeepsOthers(next, rd, st, st')
      && Low(k, Read(st'.regs, rd)) == Low(k, ValueAt(k, op, Low(k, Read(st.regs, rs)), RhsPattern(k, st.regs, rhs)))
  }

  lemma Exec1(arch: Arch, X: Externals, i: Inst, st: State)
    ensures Exec(arch, X, [i], st) == Step(arch, X, i, st)
  {
    assert [i][..0] == [];
  }

  lemma ExecSnoc(arch: Arch, X: Externals, code: seq<Inst>, i: Inst, st: State)
    ensures Exec(arch, X, code + [i], st) == Step(arch, X, i, Exec(arch, X, code, st))
  {
    assert (code + [i])[..|code|] == code;
  }

  /** The register a computing instruction writes, and the value it writes there. */
  ghost function Computed(arch: Arch, inst: Inst, regs: Regs): int {
    match inst
    case RegReg(op, _, rs1, rs2) => EvalRegOp(arch, op, Pattern(arch, regs, rs1), Pattern(arch, regs, rs2))
    case RegImm(op, _, rs1, imm) => EvalImmOp(arch, op, Pattern(arch, regs, rs1), imm)
    case Mv(_, rs) => Read(regs, rs)
    case Li(_, imm) => imm
    case _ => 0
  }

  predicate IsCompute(inst: Inst) {
    inst.RegReg? || inst.RegImm? || inst.Mv? || inst.Li?
  }

  lemma StepCompute(arch: Arch, X: Externals, inst: Inst, st: State)
    requires IsCompute(inst) && inst.rd != ZERO
    ensures Step(arch, X, inst, st) == State(st.regs[inst.rd := Low(Xlen(arch), Computed(arch, inst, st.regs))], st.mem)
  {
    hide EvalRegOp, EvalImmOp;
  }

  /** One instruction that computes the operator from any in-range state. */
  lemma ComputesOne(arch: Arch, k: nat, inst: Inst, next: nat, op: BinaryOpcode, rs: Register, rhs: Rhs)
    requires IsCompute(inst) && inst.rd != ZERO && 1 <= k <= Xlen(arch)
    requires forall regs: Regs :: InRange(arch, regs) ==>
      Low(k, Computed(arch, inst, regs)) == Low(k, ValueAt(k, op, Low(k, Read(regs, rs)), RhsPattern(k, regs, rhs)))
    ensures Computes(arch, k, [inst], next, inst.rd, op, rs, rhs)
  {
    hide ValueAt, InRange, Computed, Low, Pow2, Exec, Step, RhsPattern;
    forall X, st: State | InRange(arch, st.regs)
      ensures var st' := Exec(arch, X, [inst], st);
        && KeepsOthers(next, inst.rd, st, st')
        && Low(k, Read(st'.regs, inst.rd))
             == Low(k, ValueAt(k, op, Low(k, Read(st.regs, rs)), RhsPattern(k, st.regs, rhs)))
    {
      Exec1(arch, X, inst, st);
      StepCompute(arch, X, inst, st);
      LowOfLow(k, Xlen(arch), Computed(arch, inst, st.regs));
    }
  }

  /** In range, a register's pattern is its value. */
  lemma PatternInRange(arch: Arch, regs: Regs, r: Register)
    requires InRange(arch, regs)
    ensures Pattern(arch, regs, r) == Read(regs, r) && 0 <= Read(regs, r) < Pow2(Xlen(arch))
  {
    LowSmall(Xlen(arch), Read(regs, r));
  }

  lemma Low32OfWord(arch: Arch, v: int)
    ensures Low(32, Word(arch, v)) == Low(32, v)
  {
    LowSigned(32, v);
    LowOfLow(32, Xlen(arch), Signed(32, v));
  }

  // ---------------------------------------------------------------- the machine forms

  predicate HasMachineForm(op: BinaryOpcode) {
    op != BinaryOpcode.And && op != BinaryOpcode.Or && op != BinaryOpcode.Xor
  }

  /** The width an operator on integers of some width is computed at: 32 bits for those that have a
      32-bit form, the register's width otherwise. */
  function FormWidth(arch: Arch, op: BinaryOpcode, bits: nat): (k: nat)
    ensures k >= 1 && Form(arch, k, op)
  {
    if bits == 32 && HasMachineForm(op) then 32 else Xlen(arch)
  }

  predicate Form(arch: Arch, k: nat, op: BinaryOpcode) {
    k == Xlen(arch) || (k == 32 && HasMachineForm(op))
  }

  /** The register-register instruction of an operator at k bits: the W form where the register is
      wider. */
  function FormOp(arch: Arch, k: nat, op: BinaryOpcode): RegOp {
    var w := k != Xlen(arch);
    match op
    case Add => if w then RegOp.Addw else RegOp.Add
    case Sub => if w then RegOp.Subw else RegOp.Sub
    case Mul => if w then RegOp.Mulw else RegOp.Mul
    case UDiv => if w then RegOp.Divuw else RegOp.Divu
    case SDiv => if w then RegOp.Divw else RegOp.Div
    case URem => if w then RegOp.Remuw else RegOp.Remu
    case SRem => if w then RegOp.Remw else RegOp.Rem
    case Shl => if w then RegOp.Sllw else RegOp.Sll
    case LShr => if w then RegOp.Srlw else RegOp.Srl
    case AShr => if w then RegOp.Sraw else RegOp.Sra
    case And => RegOp.And
    case Or => RegOp.Or
    case Xor => RegOp.Xor
  }

  lemma ShiftAmount(b: nat)
    ensures b % 32 == Low(32, b) % 32
  {
    PowAdd(5, 27);
    assert Pow2(5) == 32;
    LowOfLow(5, 32, b);
  }

  /** Every register-register form computes its operator in the low bits, whatever the upper halves of
      its operands hold. */
  lemma MachineFormExact(arch: Arch, k: nat, op: BinaryOpcode, a: nat, b: nat)
    requires a < Pow2(Xlen(arch)) && b < Pow2(Xlen(arch)) && Form(arch, k, op)
    ensures Low(k, EvalRegOp(arch, FormOp(arch, k, op), a, b)) == Low(k, ValueAt(k, op, Low(k, a), Low(k, b)))
  {
    hide EvalRegOp, ValueAt, FormOp, Low, Pow2;
    if k == Xlen(arch) {
      PlainFormExact(arch, op, a, b);
    } else {
      WFormExact(op, a, b);
    }
  }

  lemma PlainFormExact(arch: Arch, op: BinaryOpcode, a: nat, b: nat)
    requires a < Pow2(Xlen(arch)) && b < Pow2(Xlen(arch))
    ensures var k := Xlen(arch);
      Low(k, EvalRegOp(arch, FormOp(arch, k, op), a, b)) == Low(k, ValueAt(k, op, Low(k, a), Low(k, b)))
  {
    hide Low, Pow2, Signed, Bitwise, DivS, RemS, DivU, RemU, Word, EvalRegOp;
    var k := Xlen(arch);
    LowSmall(k, a);
    LowSmall(k, b);
    LowOfLow(k, k, ValueAt(k, op, a, b));
    RegOpIsValue(arch, op, a, b);
  }

  /** The plain form of an operator is its value at the register's width, perhaps reduced. */
  lemma RegOpIsValue(arch: Arch, op: BinaryOpcode, a: nat, b: nat)
    ensures var k := Xlen(arch);
      var r := EvalRegOp(arch, FormOp(arch, k, op), a, b);
      r == ValueAt(k, op, a, b) || r == Low(k, ValueAt(k, op, a, b))
  {
    hide Low, Pow2, Signed, Bitwise, DivS, RemS, DivU, RemU, Word;
  }

  lemma ArithFormExact64(op: BinaryOpcode, a: nat, b: nat)
    requires op == BinaryOpcode.Add || op == BinaryOpcode.Sub || op == BinaryOpcode.Mul
    ensures Low(32, EvalRegOp(RV64, FormOp(RV64, 32, op), a, b)) == Low(32, ValueAt(32, op, Low(32, a), Low(32, b)))
  {
    var x, y := Low(32, a), Low(32, b);
    LowOfLow(32, 32, a);
    LowOfLow(32, 32, b);
    hide Word, Low;
    match op {
      case Add => LowAdd(32, a, b, x, y); Low32OfWord(RV64, a + b);
      case Sub => LowAdd(32, a, b, x, y); Low32OfWord(RV64, a - b);
      case Mul => LowMul(32, a, b, x, y); Low32OfWord(RV64, a * b);
    }
  }

  lemma ShiftFormExact64(op: BinaryOpcode, a: nat, b: nat)
    requires op == Shl || op == LShr || op == AShr
    ensures Low(32, EvalRegOp(RV64, FormOp(RV64, 32, op), a, b)) == Low(32, ValueAt(32, op, Low(32, a), Low(32, b)))
  {
    hide Word, Low, Signed, Pow2, Bitwise, DivS, RemS, DivU, RemU;
    var x, y := Low(32, a), Low(32, b);
    ShiftAmount(b);
    LowOfLow(32, 32, a);
    LowSigned(32, a);
    match op {
      case Shl => LowMul(32, a, Pow2(b % 32), x, Pow2(b % 32)); Low32OfWord(RV64, a * Pow2(b % 32));
      case LShr => Low32OfWord(RV64, x / Pow2(b % 32));
      case AShr => Low32OfWord(RV64, Signed(32, a) / Pow2(b % 32));
    }
  }

  lemma DivFormExact64(op: BinaryOpcode, a: nat, b: nat)
    requires op == UDiv || op == URem || op == SDiv || op == SRem
    ensures Low(32, EvalRegOp(RV64, FormOp(RV64, 32, op), a, b)) == Low(32, ValueAt(32, op, Low(32, a), Low(32, b)))
  {
    hide Word, Low, Signed, TruncDiv, DivU, RemU, Pow2, Bitwise;
    var x, y := Low(32, a), Low(32, b);
    LowSigned(32, a);
    LowSigned(32, b);
    match op {
      case UDiv => Low32OfWord(RV64, DivU(32, x, y));
      case URem => Low32OfWord(RV64, RemU(32, x, y));
      case SDiv => Low32OfWord(RV64, DivS(32, a, b));
      case SRem => Low32OfWord(RV64, RemS(32, a, b));
    }
  }

  lemma WFormExact(op: BinaryOpcode, a: nat, b: nat)
    requires HasMachineForm(op)
    ensures Low(32, EvalRegOp(RV64, FormOp(RV64, 32, op), a, b)) == Low(32, ValueAt(32, op, Low(32, a), Low(32, b)))
  {
    hide EvalRegOp, ValueAt, FormOp;
    match op {
      case Add => ArithFormExact64(op, a, b);
      case Sub => ArithFormExact64(op, a, b);
      case Mul => ArithFormExact64(op, a, b);
      case Shl => ShiftFormExact64(op, a, b);
      case LShr => ShiftFormExact64(op, a, b);
      case AShr => ShiftFormExact64(op, a, b);
      case _ => DivFormExact64(op, a, b);
    }
  }

  predicate HasImmForm(op: BinaryOpcode) {
    op == BinaryOpcode.Add || op == Shl || op == LShr || op == AShr || !HasMachineForm(op)
  }

  predicate IsShift(op: BinaryOpcode) {
    op == Shl || op == LShr || op == AShr
  }

  /** The immediate form of an operator, where it has one. */
  function FormImm(arch: Arch, k: nat, op: BinaryOpcode): ImmOp
    requires HasImmForm(op)
  {
    var w := k != Xlen(arch);
    match op
    case Add => if w then Addiw else Addi
    case Shl => if w then Slliw else Slli
    case LShr => if w then Srliw else Srli
    case AShr => if w then Sraiw else Srai
    case And => Andi
    case Or => Ori
    case Xor => Xori
  }

  lemma AddImmIsReg(arch: Arch, k: nat, a: nat, imm: int)
    requires k == 32 || k == Xlen(arch)
    ensures Low(k, EvalImmOp(arch, FormImm(arch, k, BinaryOpcode.Add), a, imm))
            == Low(k, EvalRegOp(arch, FormOp(arch, k, BinaryOpcode.Add), a, Low(Xlen(arch), imm)))
  {
    var x := Xlen(arch);
    var b := Low(x, imm);
    LowOfLow(x, x, imm);
    LowOfLow(k, x, imm);
    LowAdd(x, a, imm, a, b);
    LowAdd(k, a, imm, a, b);
    Low32OfWord(arch, a + imm);
    Low32OfWord(arch, a + b);
    hide Word, Low;
    if k == x {
    }
  }

  lemma ShiftImmIsReg(arch: Arch, k: nat, op: BinaryOpcode, a: nat, imm: nat)
    requires IsShift(op) && imm < 64
    ensures Low(k, EvalImmOp(arch, FormImm(arch, k, op), a, imm))
      == Low(k, EvalRegOp(arch, FormOp(arch, k, op), a, Low(Xlen(arch), imm)))
  {
    hide Word, Low, Signed, Pow2, EvalImmOp, EvalRegOp, FormOp, FormImm;
    SmallAmount(arch, imm);
    ShiftImmSame(arch, k, op, a, imm);
  }

  lemma SmallAmount(arch: Arch, imm: nat)
    requires imm < 64
    ensures Low(Xlen(arch), imm) == imm
  {
    Pow32();
    PowMonotone(32, Xlen(arch));
    LowSmall(Xlen(arch), imm);
  }

  lemma ShiftImmSame(arch: Arch, k: nat, op: BinaryOpcode, a: nat, imm: nat)
    requires IsShift(op)
    ensures EvalImmOp(arch, FormImm(arch, k, op), a, imm) == EvalRegOp(arch, FormOp(arch, k, op), a, imm)
  {
    hide Word, Low, Signed, Pow2, Bitwise, DivS, RemS, DivU, RemU;
    match op {
      case Shl =>
      case LShr =>
      case AShr =>
    }
  }

  lemma BitImmIsReg(arch: Arch, k: nat, op: BinaryOpcode, a: nat, imm: int)
    requires !HasMachineForm(op)
    ensures EvalImmOp(arch, FormImm(arch, k, op), a, imm)
      == EvalRegOp(arch, FormOp(arch, k, op), a, Low(Xlen(arch), imm))
  {
    hide Bitwise, Low;
    match op {
      case And =>
      case Or =>
      case Xor =>
    }
  }

  lemma ImmFormExact(arch: Arch, k: nat, op: BinaryOpcode, a: nat, imm: int)
    requires HasImmForm(op) && Form(arch, k, op) && a < Pow2(Xlen(arch)) && (IsShift(op) ==> 0 <= imm < 64)
    ensures Low(k, EvalImmOp(arch, FormImm(arch, k, op), a, imm)) == Low(k, ValueAt(k, op, Low(k, a), Low(k, imm)))
  {
    hide EvalRegOp, EvalImmOp, ValueAt, FormImm, FormOp, Low, Pow2;
    LowOfLow(k, Xlen(arch), imm);
    LowInRange(Xlen(arch), imm);
    if op == BinaryOpcode.Add {
      AddImmIsReg(arch, k, a, imm);
    } else if IsShift(op) {
      ShiftImmIsReg(arch, k, op, a, imm);
    } else {
      BitImmIsReg(arch, k, op, a, imm);
    }
    MachineFormExact(arch, k, op, a, Low(Xlen(arch), imm));
  }

  lemma ComputesRegForm(arch: Arch, k: nat, op: BinaryOpcode, rd: Register, rs1: Register, rs2: Register, next: nat)
    requires rd != ZERO && Form(arch, k, op)
    ensures Computes(arch, k, [RegReg(FormOp(arch, k, op), rd, rs1, rs2)], next, rd, op, rs1, InReg(rs2))
  {
    var inst := RegReg(FormOp(arch, k, op), rd, rs1, rs2);
    hide EvalRegOp, ValueAt, FormOp, Low, Pow2, Computes;
    forall regs: Regs | InRange(arch, regs)
      ensures Low(k, Computed(arch, inst, regs))
        == Low(k, ValueAt(k, op, Low(k, Read(regs, rs1)), RhsPattern(k, regs, InReg(rs2))))
    {
      PatternInRange(arch, regs, rs1);
      PatternInRange(arch, regs, rs2);
      MachineFormExact(arch, k, op, Pattern(arch, regs, rs1), Pattern(arch, regs, rs2));
    }
    ComputesOne(arch, k, inst, next, op, rs1, InReg(rs2));
  }

  lemma ComputesImmForm(arch: Arch, k: nat, op: BinaryOpcode, rd: Register, rs: Register, imm: int, next: nat)
    requires rd != ZERO && HasImmForm(op) && Form(arch, k, op) && (IsShift(op) ==> 0 <= imm < 64)
    ensures Computes(arch, k, [RegImm(FormImm(arch, k, op), rd, rs, imm)], next, rd, op, rs, Fixed(imm))
  {
    var inst := RegImm(FormImm(arch, k, op), rd, rs, imm);
    hide EvalImmOp, ValueAt, FormImm, Low, Pow2, Computes;
    forall regs: Regs | InRange(arch, regs)
      ensures Low(k, Computed(arch, inst, regs))
        == Low(k, ValueAt(k, op, Low(k, Read(regs, rs)), RhsPattern(k, regs, Fixed(imm))))
    {
      PatternInRange(arch, regs, rs);
      ImmFormExact(arch, k, op, Pattern(arch, regs, rs), imm);
    }
    ComputesOne(arch, k, inst, next, op, rs, Fixed(imm));
  }

  // ---------------------------------------------------------------- normalising to a width

  lemma Scaled(q: int, p: int, r: int, m: int)
    ensures (q * p + r) * m == q * (p * m) + r * m
  {
  }

  lemma ScaleMod(a: int, p: int, m: int)
    requires p > 0 && m > 0
    ensures p * m > 0 && (a * m) % (p * m) == (a % p) * m
  {
    Scaled(a / p, p, a % p, m);
    MulMonotone(a % p + 1, p, m);
    assert (a % p + 1) * m == (a % p) * m + m;
    DivModUnique(a * m, p * m, a / p, (a % p) * m);
  }

  /** Shifting left by x - k keeps exactly the low k bits, moved to the top. */
  lemma ShiftUp(x: nat, k: nat, a: int)
    requires 1 <= k <= x
    ensures Low(x, a * Pow2(x - k)) == Low(k, a) * Pow2(x - k)
    ensures Signed(x, a * Pow2(x - k)) == Signed(k, a) * Pow2(x - k)
  {
    PowAdd(k, x - k);
    PowAdd(k - 1, x - k);
    ScaleMod(a, Pow2(k), Pow2(x - k));
    SignScales(Low(k, a), Pow2(k - 1), Pow2(k), Pow2(x - k));
    hide Pow2;
  }

  lemma SignScales(l: int, h: int, p: int, m: int)
    requires m > 0
    ensures l < h <==> l * m < h * m
    ensures (l - p) * m == l * m - p * m
  {
    if l < h {
      MulMonotone(l + 1, h, m);
    } else {
      MulMonotone(h, l, m);
    }
  }

  lemma {:induction false} MaskIsLow(k: nat, a: nat)
    ensures Bitwise(AndOp, a, Pow2(k) - 1) == Low(k, a)
    decreases k
  {
    if k == 0 {
      AndZero(a);
    } else {
      MaskIsLow(k - 1, a / 2);
      LowHalves(k, a);
      assert (Pow2(k) - 1) / 2 == Pow2(k - 1) - 1 && (Pow2(k) - 1) % 2 == 1;
    }
  }

  lemma {:induction false} AndZero(a: nat)
    ensures Bitwise(AndOp, a, 0) == 0
  {
    if a > 0 {
      AndZero(a / 2);
    }
  }

  /** Code that leaves v(pattern of src) in a fresh register, exactly and in full. */
  ghost predicate Normalises(arch: Arch, code: seq<Inst>, next: nat, rd: Register, src: Register, bits: nat,
                             signed: bool) {
    forall X, st: State :: InRange(arch, st.regs) ==>
      var st' := Exec(arch, X, code, st);
      && KeepsOthers(next, rd, st, st')
      && Read(st'.regs, rd) == Normal(arch, bits, signed, Read(st.regs, src))
  }

  /** A w-bit value zero- or sign-extended to a register. */
  function Normal(arch: Arch, bits: nat, signed: bool, v: int): nat {
    if bits == 0 then 0
    else if signed then Low(Xlen(arch), Signed(bits, v))
    else Low(bits, v)
  }

  lemma TwoSteps(arch: Arch, X: Externals, i1: Inst, i2: Inst, st: State)
    requires InRange(arch, st.regs) && IsCompute(i1) && IsCompute(i2) && i1.rd != ZERO && i2.rd != ZERO
    ensures var regs1: Regs := st.regs[i1.rd := Low(Xlen(arch), Computed(arch, i1, st.regs))];
      && InRange(arch, regs1)
      && Exec(arch, X, [i1, i2], st) == State(regs1[i2.rd := Low(Xlen(arch), Computed(arch, i2, regs1))], st.mem)
  {
    hide Computed, Low, Pow2, InRange, Step, Exec;
    var st1 := Step(arch, X, i1, st);
    assert [i1] + [i2] == [i1, i2];
    ExecSnoc(arch, X, [i1], i2, st);
    Exec1(arch, X, i1, st);
    StepInRange(arch, X, i1, st);
    StepCompute(arch, X, i1, st);
    StepCompute(arch, X, i2, st1);
  }

  lemma NormaliseByShifts(arch: Arch, rd: Register, src: Register, bits: nat, signed: bool, next: nat)
    requires 1 <= bits < Xlen(arch) && rd != ZERO
    ensures var sh := Xlen(arch) - bits;
      Normalises(arch, [RegImm(Slli, rd, src, sh), RegImm(if signed then Srai else Srli, rd, rd, sh)], next, rd, src,
        bits, signed)
  {
    var x, sh := Xlen(arch), Xlen(arch) - bits;
    var i1, i2 := RegImm(Slli, rd, src, sh), RegImm(if signed then Srai else Srli, rd, rd, sh);
    hide Low, Pow2, Signed, InRange, Exec, EvalImmOp, Normal;
    forall X, st: State | InRange(arch, st.regs)
      ensures var st' := Exec(arch, X, [i1, i2], st);
        KeepsOthers(next, rd, st, st') && Read(st'.regs, rd) == Normal(arch, bits, signed, Read(st.regs, src))
    {
      TwoSteps(arch, X, i1, i2, st);
      PatternInRange(arch, st.regs, src);
      var a := Read(st.regs, src);
      ShiftsNormalise(arch, bits, signed, a);
    }
  }

  lemma ShiftsNormalise(arch: Arch, bits: nat, signed: bool, a: nat)
    requires 1 <= bits < Xlen(arch)
    ensures var x, sh := Xlen(arch), Xlen(arch) - bits;
      var up := Low(x, EvalImmOp(arch, Slli, a, sh));
      Low(x, EvalImmOp(arch, if signed then Srai else Srli, Low(x, up), sh)) == Normal(arch, bits, signed, a)
  {
    hide Low, Pow2, Signed, EvalImmOp;
    var x, sh := Xlen(arch), Xlen(arch) - bits;
    var p, m := a * Pow2(sh), Pow2(sh);
    LowOfLow(x, x, p);
    LowOfLow(x, x, Low(x, p));
    ShiftUp(x, bits, a);
    LowSigned(x, p);
    ShiftOps(arch, a, sh);
    ShiftOps(arch, Low(x, p), sh);
    ShiftBack(Signed(bits, a), m);
    ShiftBack(Low(bits, a), m);
    if signed {
      LowOfLow(x, x, Signed(bits, a));
    } else {
      LowBits(bits, x, a);
    }
  }

  lemma ShiftOps(arch: Arch, a: nat, sh: nat)
    requires sh < Xlen(arch)
    ensures var x := Xlen(arch);
      && EvalImmOp(arch, Slli, a, sh) == Low(x, a * Pow2(sh))
      && EvalImmOp(arch, Srli, a, sh) == a / Pow2(sh) && EvalImmOp(arch, Srai, a, sh) == Low(x, Signed(x, a) / Pow2(sh))
  {
    hide Low, Pow2, Signed, Bitwise, Word;
  }

  lemma ShiftBack(v: int, m: int)
    requires m >= 1
    ensures (v * m) / m == v
  {
    DivModUnique(v * m, m, v, 0);
  }

  lemma LowBits(bits: nat, x: nat, a: nat)
    requires bits <= x
    ensures Low(x, Low(bits, a)) == Low(bits, a)
  {
    PowMonotone(bits, x);
    LowSmall(x, Low(bits, a));
  }

  lemma MaskImmEval(arch: Arch, bits: nat, a: nat)
    requires bits < 32 && a < Pow2(Xlen(arch))
    ensures var x := Xlen(arch);
      && Low(x, EvalImmOp(arch, Andi, a, Pow2(bits) - 1)) == Low(bits, a)
      && Low(x, EvalRegOp(arch, RegOp.And, a, Low(x, Pow2(bits) - 1))) == Low(bits, a)
  {
    var x := Xlen(arch);
    PowMonotone(bits, x);
    LowSmall(x, Pow2(bits) - 1);
    LowSmall(x, Low(bits, a));
    MaskIsLow(bits, a);
    hide Low, Pow2, Bitwise;
  }

  lemma MaskByAndi(arch: Arch, rd: Register, src: Register, bits: nat, next: nat)
    requires 1 <= bits < 32 && rd != ZERO
    ensures Normalises(arch, [RegImm(Andi, rd, src, Pow2(bits) - 1)], next, rd, src, bits, false)
  {
    var i := RegImm(Andi, rd, src, Pow2(bits) - 1);
    hide Low, Pow2, InRange, Exec, EvalImmOp;
    forall X, st: State | InRange(arch, st.regs)
      ensures var st' := Exec(arch, X, [i], st);
        KeepsOthers(next, rd, st, st') && Read(st'.regs, rd) == Normal(arch, bits, false, Read(st.regs, src))
    {
      Exec1(arch, X, i, st);
      StepCompute(arch, X, i, st);
      PatternInRange(arch, st.regs, src);
      MaskImmEval(arch, bits, Read(st.regs, src));
    }
  }

  lemma MaskByAnd(arch: Arch, rd: Register, mask: Register, src: Register, bits: nat, next: nat)
    requires 1 <= bits < 32 && rd != ZERO && mask != ZERO && rd != mask
    requires !Allocated(mask, next) && Allocated(src, next)
    ensures Normalises(arch, [Li(mask, Pow2(bits) - 1), RegReg(RegOp.And, rd, src, mask)], next, rd, src, bits, false)
  {
    var i1, i2 := Li(mask, Pow2(bits) - 1), RegReg(RegOp.And, rd, src, mask);
    hide Low, Pow2, InRange, Exec, EvalRegOp;
    forall X, st: State | InRange(arch, st.regs)
      ensures var st' := Exec(arch, X, [i1, i2], st);
        KeepsOthers(next, rd, st, st') && Read(st'.regs, rd) == Normal(arch, bits, false, Read(st.regs, src))
    {
      TwoSteps(arch, X, i1, i2, st);
      PatternInRange(arch, st.regs, src);
      LowOfLow(Xlen(arch), Xlen(arch), Pow2(bits) - 1);
      MaskImmEval(arch, bits, Read(st.regs, src));
    }
  }

  lemma MaskSizes(bits: nat)
    ensures Pow2(bits) - 1 <= 0x7ff <==> bits <= 11
    ensures Pow2(bits) - 1 <= 0x7fff_ffff <==> bits <= 31
  {
    Pow32();
    assert Pow2(11) == 0x800;
    if bits <= 11 { PowMonotone(bits, 11); } else { PowMonotone(12, bits); }
    if bits <= 31 { PowMonotone(bits, 31); } else { PowMonotone(32, bits); }
  }

  method EmitMaskedValue(arch: Arch, src: Register, bits: nat, out: seq<Inst>, fn: MachineFunction)
    returns (rd: Register, out': seq<Inst>)
    requires bits >= 1 && Allocated(src, fn.nextVreg)
    modifies fn`nextVreg
    ensures |out'| >= |out| && Straight(out'[|out|..])
    ensures fn.nextVreg >= old(fn.nextVreg) && out <= out' && Allocated(rd, fn.nextVreg)
    ensures bits >= Xlen(arch) ==> rd == src && out' == out && fn.nextVreg == old(fn.nextVreg)
    ensures bits < Xlen(arch) ==>
      rd == Virtual(old(fn.nextVreg)) && Normalises(arch, out'[|out|..], old(fn.nextVreg), rd, src, bits, false)
    ensures Encoded(arch, out, out')
  {
    hide Normalises, Pow2, Encoded;
    if bits >= Xlen(arch) {
      EncodedNothing(arch, out);
      return src, out;
    }
    ghost var next := fn.nextVreg;
    rd := fn.NewVreg();
    var mask := Pow2(bits) - 1;
    MaskSizes(bits);
    if mask <= 0x7ff {
      out' := out + [RegImm(Andi, rd, src, mask)];
      assert out'[|out|..] == [RegImm(Andi, rd, src, mask)];
      MaskByAndi(arch, rd, src, bits, next);
      EncodedFirst(arch, out, RegImm(Andi, rd, src, mask));
    } else if mask <= 0x7fff_ffff {
      var maskReg := fn.NewVreg();
      out' := out + [Li(maskReg, mask)];
      EncodedFirst(arch, out, Li(maskReg, mask));
      EncodedOne(arch, out, out', RegReg(RegOp.And, rd, src, maskReg));
      out' := out' + [RegReg(RegOp.And, rd, src, maskReg)];
      assert out'[|out|..] == [Li(maskReg, mask), RegReg(RegOp.And, rd, src, maskReg)];
      MaskByAnd(arch, rd, maskReg, src, bits, next);
    } else {
      var shift := Xlen(arch) - bits;
      out' := out + [RegImm(Slli, rd, src, shift)];
      EncodedFirst(arch, out, RegImm(Slli, rd, src, shift));
      EncodedOne(arch, out, out', RegImm(Srli, rd, rd, shift));
      out' := out' + [RegImm(Srli, rd, rd, shift)];
      assert out'[|out|..] == [RegImm(Slli, rd, src, shift), RegImm(Srli, rd, rd, shift)];
      NormaliseByShifts(arch, rd, src, bits, false, next);
    }
  }

  method EmitSignExtendedValue(arch: Arch, src: Register, bits: nat, out: seq<Inst>, fn: MachineFunction)
    returns (rd: Register, out': seq<Inst>)
    requires bits >= 1 && Allocated(src, fn.nextVreg)
    modifies fn`nextVreg
    ensures |out'| >= |out| && Straight(out'[|out|..])
    ensures fn.nextVreg >= old(fn.nextVreg) && out <= out' && Allocated(rd, fn.nextVreg)
    ensures bits >= Xlen(arch) ==> rd == src && out' == out && fn.nextVreg == old(fn.nextVreg)
    ensures bits < Xlen(arch) ==>
      rd == Virtual(old(fn.nextVreg)) && Normalises(arch, out'[|out|..], old(fn.nextVreg), rd, src, bits, true)
    ensures Encoded(arch, out, out')
  {
    hide Normalises, Encoded;
    if bits >= Xlen(arch) {
      EncodedNothing(arch, out);
      return src, out;
    }
    ghost var next := fn.nextVreg;
    rd := fn.NewVreg();
    var shift := Xlen(arch) - bits;
    out' := out + [RegImm(Slli, rd, src, shift)];
    EncodedFirst(arch, out, RegImm(Slli, rd, src, shift));
    EncodedOne(arch, out, out', RegImm(Srai, rd, rd, shift));
    out' := out' + [RegImm(Srai, rd, rd, shift)];
    assert out'[|out|..] == [RegImm(Slli, rd, src, shift), RegImm(Srai, rd, rd, shift)];
    NormaliseByShifts(arch, rd, src, bits, true, next);
  }
}
