/** Address arithmetic: adding a scaled index, and the lowering of getelementptr
    (src/mir/lower.rs:750-828, 1934-2030). */
module Gep {
  import opened Machine
  import opened Bits
  import opened CoreInts
  import opened LowerArith
  import opened LowerBinary

  /** An index: any operand, or a value known to be the zero-extension of a 32-bit one. */
  datatype Index = Plain(op: Operand) | ZextOf(whole: Operand, src: Operand)

  predicate UsableIndex(index: Index, vregs: VRegs, next: nat) {
    match index
    case Plain(op) => UsableOperand(op, vregs, next)
    case ZextOf(whole, src) => whole.Value? && UsableOperand(whole, vregs, next) && UsableOperand(src, vregs, next)
  }

  /** The number an index denotes: constants themselves, anything else by its register. */
  ghost function IndexValue(arch: Arch, X: Externals, vregs: VRegs, index: Index, regs: Regs): int {
    match index
    case Plain(op) => if op.ConstInt? && op.c.Valid() then op.c.AsI64() else OperandValue(arch, X, vregs, op, regs)
    case ZextOf(_, src) => Low(32, OperandValue(arch, X, vregs, src, regs))
  }

  /** The register of a zero-extended value holds the zero-extension. */
  ghost predicate IndexAgrees(arch: Arch, X: Externals, vregs: VRegs, index: Index, regs: Regs) {
    index.ZextOf? ==>
      Low(Xlen(arch), OperandValue(arch, X, vregs, index.whole, regs))
      == Low(Xlen(arch), Low(32, OperandValue(arch, X, vregs, index.src, regs)))
  }

  /** The code leaves base + stride * index in r, modulo the register width. */
  ghost predicate AddsOffset(arch: Arch, code: seq<Inst>, next: nat, r: Register, base: Register, stride: int,
                             index: Index, vregs: VRegs) {
    forall X, st: State :: InRange(arch, st.regs) && IndexAgrees(arch, X, vregs, index, st.regs) ==>
      var st' := Exec(arch, X, code, st);
      Undisturbed(next, st, st')
        && Read(st'.regs, r) == Low(Xlen(arch),
        Read(st.regs, base) + stride * IndexValue(arch, X, vregs, index, st.regs))
  }

  /** What the compiler's 32-bit arithmetic on a constant index demands: the cut-down constant and the
      product stay within 32 bits. */
  predicate ConstantFits(arch: Arch, stride: nat, index: Index) {
    index.Plain? && index.op.ConstInt? && index.op.c.Valid() ==>
      IsI32(ToI32(index.op.c.AsI64()) * stride) && (arch == RV64 ==> IsI32(index.op.c.AsI64()))
  }

  // ---------------------------------------------------------------- one and two instructions

  /** Two computing instructions into fresh registers. */
  lemma TwoSteps(arch: Arch, X: Externals, i1: Inst, i2: Inst, next: nat, st: State)
    requires IsCompute(i1) && IsCompute(i2) && i1.rd != ZERO && i2.rd != ZERO && !Allocated(i1.rd, next)
    requires !Allocated(i2.rd, next)
    ensures var st' := Exec(arch, X, [i1, i2], st);
      var mid := State(st.regs[i1.rd := Low(Xlen(arch), Computed(arch, i1, st.regs))], st.mem);
      Undisturbed(next, st, st') && Read(st'.regs, i2.rd) == Low(Xlen(arch), Computed(arch, i2, mid.regs))
  {
    hide Low, Computed, Step;
    assert [i1, i2] == [i1] + [i2];
    ExecSnoc(arch, X, [i1], i2, st);
    Exec1(arch, X, i1, st);
    StepCompute(arch, X, i1, st);
    StepCompute(arch, X, i2, Step(arch, X, i1, st));
  }

  lemma ThreeSteps(arch: Arch, X: Externals, i1: Inst, i2: Inst, i3: Inst, next: nat, st: State)
    requires IsCompute(i1) && IsCompute(i2) && IsCompute(i3) && i1.rd != ZERO && i2.rd != ZERO && i3.rd != ZERO
    requires !Allocated(i1.rd, next) && !Allocated(i2.rd, next) && !Allocated(i3.rd, next)
    ensures var st' := Exec(arch, X, [i1, i2, i3], st);
      var one := st.regs[i1.rd := Low(Xlen(arch), Computed(arch, i1, st.regs))];
      var two := one[i2.rd := Low(Xlen(arch), Computed(arch, i2, one))];
      Undisturbed(next, st, st') && Read(st'.regs, i3.rd) == Low(Xlen(arch), Computed(arch, i3, two))
  {
    hide Low, Computed, Step;
    assert [i1, i2, i3] == [i1, i2] + [i3] && [i1, i2] == [i1] + [i2];
    ExecSnoc(arch, X, [i1, i2], i3, st);
    ExecSnoc(arch, X, [i1], i2, st);
    Exec1(arch, X, i1, st);
    StepCompute(arch, X, i1, st);
    StepCompute(arch, X, i2, Step(arch, X, i1, st));
    StepCompute(arch, X, i3, Step(arch, X, i2, Step(arch, X, i1, st)));
  }

  // ---------------------------------------------------------------- arithmetic modulo the register width

  lemma SumOfLows(x: nat, a: int, b: int)
    ensures Low(x, Low(x, a) + Low(x, b)) == Low(x, a + b) && Low(x, Low(x, a) + b) == Low(x, a + b)
    ensures Low(x, Low(x, a)) == Low(x, a)
  {
    LowOfLow(x, x, a);
    LowOfLow(x, x, b);
    LowAdd(x, Low(x, a), Low(x, b), a, b);
    LowAdd(x, Low(x, a), b, a, b);
  }

  lemma ProductOfLows(x: nat, a: int, b: int)
    ensures Low(x, Low(x, a) * Low(x, b)) == Low(x, a * b) && Low(x, Low(x, a) * b) == Low(x, a * b)
  {
    LowOfLow(x, x, a);
    LowOfLow(x, x, b);
    LowMul(x, Low(x, a), Low(x, b), a, b);
    LowMul(x, Low(x, a), b, a, b);
  }

  /** The truncated product of a constant index is the exact one, modulo the register width. */
  lemma ConstantProduct(arch: Arch, stride: nat, c: CoreInt)
    requires c.Valid() && (arch == RV64 ==> IsI32(c.AsI64()))
    ensures Low(Xlen(arch), ToI32(c.AsI64()) * stride) == Low(Xlen(arch), stride * c.AsI64())
  {
    var v := c.AsI64();
    hide Low, Pow2, Signed;
    if arch == RV64 {
      Same32(v);
    } else {
      LowMul(32, ToI32(v), stride, v, stride);
    }
    assert v * stride == stride * v;
  }

  lemma Same32(v: int)
    requires IsI32(v)
    ensures ToI32(v) == v
  {
    Pow32();
    SignedUnique(32, v, v);
  }

  lemma ScaledRest(v: int, p: int)
    requires p > 0 && p * p > 0
    ensures (v * p) % (p * p) == (v % p) * p
  {
    var k, l := v / p, v % p;
    MulMonotone(l + 1, p, p);
    assert (l + 1) * p == l * p + p;
    assert (k * p + l) * p == k * (p * p) + l * p;
    assert 0 <= l * p;
    DivModUnique(v * p, p * p, k, l * p);
  }

  lemma ShiftUp(v: int)
    ensures Low(64, Low(64, v) * Pow2(32)) == Low(32, v) * Pow2(32)
  {
    PowAdd(32, 32);
    ProductOfLows(64, v, Pow2(32));
    ScaledRest(v, Pow2(32));
    hide Pow2;
  }

  lemma DivideBack(l: int, a: int, b: int)
    requires b > 0
    ensures (l * (a * b)) / b == l * a
  {
    assert l * (a * b) == (l * a) * b;
    DivModUnique(l * (a * b), b, l * a, 0);
  }

  /** Shifting up by 32 and down by 32 - s zero-extends the low half and multiplies it by 2^s. */
  lemma FusedShift(v: int, s: nat)
    requires s <= 32
    ensures Low(64, Low(64, v) * Pow2(32)) / Pow2(32 - s) == Low(32, v) * Pow2(s)
  {
    hide Pow2, Low;
    ShiftUp(v);
    PowAdd(s, 32 - s);
    DivideBack(Low(32, v), Pow2(s), Pow2(32 - s));
  }

  // ---------------------------------------------------------------- the forms of an offset

  lemma NoOffset(arch: Arch, next: nat, base: Register, stride: nat, index: Index, vregs: VRegs)
    requires Allocated(base, next)
    requires stride == 0 || (index.Plain? && index.op.ConstInt? && index.op.c.Valid()
      && ConstantFits(arch, stride, index) && ToI32(index.op.c.AsI64()) * stride == 0)
    ensures AddsOffset(arch, [], next, base, base, stride, index, vregs)
  {
    hide Low, Pow2, Exec;
    forall X, st: State | InRange(arch, st.regs) && IndexAgrees(arch, X, vregs, index, st.regs)
      ensures var st' := Exec(arch, X, [], st);
        Undisturbed(next, st, st')
          && Read(st'.regs, base) == Low(Xlen(arch),
          Read(st.regs, base) + stride * IndexValue(arch, X, vregs, index, st.regs))
    {
      assert Exec(arch, X, [], st) == st by { ExecNone(arch, X, st); }
      var v := stride * IndexValue(arch, X, vregs, index, st.regs);
      if stride != 0 {
        ConstantProduct(arch, stride, index.op.c);
        LowAdd(Xlen(arch), Read(st.regs, base), v, Read(st.regs, base), 0);
      }
      ReadSmall(arch, st.regs, base);
    }
  }

  lemma ExecNone(arch: Arch, X: Externals, st: State)
    ensures Exec(arch, X, [], st) == st
  {
  }

  lemma ReadSmall(arch: Arch, regs: Regs, r: Register)
    requires InRange(arch, regs)
    ensures Low(Xlen(arch), Read(regs, r)) == Read(regs, r)
  {
    LowSmall(Xlen(arch), Read(regs, r));
  }

  /** The code leaves base + offset in r, for a fixed offset. */
  ghost predicate AddsValue(arch: Arch, code: seq<Inst>, next: nat, r: Register, base: Register, offset: int) {
    forall X, st: State :: InRange(arch, st.regs) ==>
      var st' := Exec(arch, X, code, st);
      Undisturbed(next, st, st') && Read(st'.regs, r) == Low(Xlen(arch), Read(st.regs, base) + offset)
  }

  lemma AddsByImmediate(arch: Arch, next: nat, rd: Register, base: Register, imm: int)
    requires rd != ZERO && !Allocated(rd, next)
    ensures AddsValue(arch, [RegImm(Addi, rd, base, imm)], next, rd, base, imm)
  {
    hide Low, Pow2, Exec, InRange;
    var i := RegImm(Addi, rd, base, imm);
    forall X, st: State | InRange(arch, st.regs)
      ensures var st' := Exec(arch, X, [i], st);
        && Undisturbed(next, st, st')
        && Read(st'.regs, rd) == Low(Xlen(arch), Read(st.regs, base) + imm)
    {
      Exec1(arch, X, i, st);
      StepCompute(arch, X, i, st);
      SumOfLows(Xlen(arch), Read(st.regs, base), imm);
      SumOfLows(Xlen(arch), Read(st.regs, base) + imm, 0);
    }
  }

  lemma AddsByLoading(arch: Arch, next: nat, tmp: Register, rd: Register, base: Register, imm: int)
    requires tmp != ZERO && rd != ZERO && !Allocated(tmp, next) && !Allocated(rd, next) && Allocated(base, next)
    ensures AddsValue(arch, [Li(tmp, imm), RegReg(RegOp.Add, rd, base, tmp)], next, rd, base, imm)
  {
    hide Low, Pow2, Exec, InRange;
    var i1, i2 := Li(tmp, imm), RegReg(RegOp.Add, rd, base, tmp);
    forall X, st: State | InRange(arch, st.regs)
      ensures var st' := Exec(arch, X, [i1, i2], st);
        && Undisturbed(next, st, st')
        && Read(st'.regs, rd) == Low(Xlen(arch), Read(st.regs, base) + imm)
    {
      TwoSteps(arch, X, i1, i2, next, st);
      SumOfLows(Xlen(arch), imm, 0);
      SumOfLows(Xlen(arch), Read(st.regs, base), imm);
      SumOfLows(Xlen(arch), Read(st.regs, base) + imm, 0);
    }
  }

  /** Adding the truncated product of a constant index is adding the scaled index. */
  lemma ConstantOffset(arch: Arch, code: seq<Inst>, next: nat, rd: Register, base: Register, stride: nat, index: Index,
                       vregs: VRegs)
    requires index.Plain? && index.op.ConstInt? && index.op.c.Valid() && ConstantFits(arch, stride, index)
    requires AddsValue(arch, code, next, rd, base, ToI32(index.op.c.AsI64()) * stride)
    ensures AddsOffset(arch, code, next, rd, base, stride, index, vregs)
  {
    hide Low, Pow2, Exec, InRange, ToI32;
    ConstantProduct(arch, stride, index.op.c);
    var imm := ToI32(index.op.c.AsI64()) * stride;
    forall X, st: State | InRange(arch, st.regs)
      ensures var st' := Exec(arch, X, code, st);
        Undisturbed(next, st, st')
          && Read(st'.regs, rd) == Low(Xlen(arch),
          Read(st.regs, base) + stride * IndexValue(arch, X, vregs, index, st.regs))
    {
      LowAdd(Xlen(arch), Read(st.regs, base), imm, Read(st.regs, base), stride * index.op.c.AsI64());
    }
  }

  /** The index operand's register holds the index, modulo the register width. */
  lemma IndexRegister(arch: Arch, X: Externals, vregs: VRegs, index: Index, regs: Regs)
    requires IndexAgrees(arch, X, vregs, index, regs) && (index.Plain? ==> !index.op.ConstInt?)
    ensures Low(Xlen(arch), OperandValue(arch, X, vregs, if index.Plain? then index.op else index.whole, regs))
      == Low(Xlen(arch), IndexValue(arch, X, vregs, index, regs))
  {
    hide OperandValue, Low;
  }

  /** Scaling a register that holds the index, by a shift or a multiplication, and adding it. */
  ghost predicate Scales(arch: Arch, code: seq<Inst>, next: nat, rd: Register, base: Register, from: Register,
                         factor: int) {
    forall X, st: State :: InRange(arch, st.regs) ==>
      var st' := Exec(arch, X, code, st);
      Undisturbed(next, st, st')
        && Read(st'.regs, rd) == Low(Xlen(arch), Read(st.regs, base) + Read(st.regs, from) * factor)
  }

  lemma ShiftScales(arch: Arch, next: nat, tmp: Register, rd: Register, base: Register, from: Register, s: nat)
    requires tmp != ZERO && rd != ZERO && !Allocated(tmp, next) && !Allocated(rd, next) && Allocated(base, next)
    requires s < 32
    ensures Scales(arch, [RegImm(Slli, tmp, from, s), RegReg(RegOp.Add, rd, base, tmp)], next, rd, base, from, Pow2(s))
  {
    hide Low, Pow2, Exec, InRange;
    var i1, i2 := RegImm(Slli, tmp, from, s), RegReg(RegOp.Add, rd, base, tmp);
    var x := Xlen(arch);
    forall X, st: State | InRange(arch, st.regs)
      ensures var st' := Exec(arch, X, [i1, i2], st);
        Undisturbed(next, st, st') && Read(st'.regs, rd) == Low(x, Read(st.regs, base) + Read(st.regs, from) * Pow2(s))
    {
      TwoSteps(arch, X, i1, i2, next, st);
      var b, f := Read(st.regs, base), Read(st.regs, from);
      assert s % x == s;
      ProductOfLows(x, f, Pow2(s));
      SumOfLows(x, f * Pow2(s), 0);
      SumOfLows(x, b, f * Pow2(s));
      SumOfLows(x, b + f * Pow2(s), 0);
    }
  }

  lemma MulScales(arch: Arch, next: nat, tmp: Register, factor: Register, rd: Register, base: Register, from: Register,
                  stride: nat)
    requires tmp != ZERO && rd != ZERO && factor != ZERO && !Allocated(tmp, next) && !Allocated(rd, next)
    requires !Allocated(factor, next)
    requires Allocated(base, next) && from != factor && tmp != factor
    ensures Scales(arch, [Li(factor, stride), RegReg(RegOp.Mul, tmp, from, factor), RegReg(RegOp.Add, rd, base, tmp)],
      next, rd, base, from, stride)
  {
    hide Low, Pow2, Exec, InRange;
    var i1, i2, i3 := Li(factor, stride), RegReg(RegOp.Mul, tmp, from, factor), RegReg(RegOp.Add, rd, base, tmp);
    var x := Xlen(arch);
    forall X, st: State | InRange(arch, st.regs)
      ensures var st' := Exec(arch, X, [i1, i2, i3], st);
        Undisturbed(next, st, st') && Read(st'.regs, rd) == Low(x, Read(st.regs, base) + Read(st.regs, from) * stride)
    {
      ThreeSteps(arch, X, i1, i2, i3, next, st);
      var b, f := Read(st.regs, base), Read(st.regs, from);
      SumOfLows(x, stride, 0);
      ProductOfLows(x, f, stride);
      SumOfLows(x, f * stride, 0);
      SumOfLows(x, b, f * stride);
      SumOfLows(x, b + f * stride, 0);
    }
  }

  /** The fused form: the low half of a register, zero-extended and scaled in two shifts. */
  ghost predicate ScalesLowHalf(code: seq<Inst>, next: nat, rd: Register, base: Register, from: Register, factor: int) {
    forall X, st: State :: InRange(RV64, st.regs) ==>
      var st' := Exec(RV64, X, code, st);
      Undisturbed(next, st, st')
        && Read(st'.regs, rd) == Low(64, Read(st.regs, base) + Low(32, Read(st.regs, from)) * factor)
  }

  lemma FusedScales(next: nat, tmp: Register, rd: Register, base: Register, from: Register, s: nat)
    requires tmp != ZERO && rd != ZERO && !Allocated(tmp, next) && !Allocated(rd, next) && Allocated(base, next)
    requires 0 < s <= 32
    ensures ScalesLowHalf([RegImm(Slli, tmp, from, 32), RegImm(Srli, tmp, tmp, 32 - s),
      RegReg(RegOp.Add, rd, base, tmp)], next, rd, base, from, Pow2(s))
  {
    hide Low, Pow2, Exec, InRange;
    var i1, i2, i3 := RegImm(Slli, tmp, from, 32), RegImm(Srli, tmp, tmp, 32 - s), RegReg(RegOp.Add, rd, base, tmp);
    forall X, st: State | InRange(RV64, st.regs)
      ensures var st' := Exec(RV64, X, [i1, i2, i3], st);
        Undisturbed(next, st, st')
          && Read(st'.regs, rd) == Low(64, Read(st.regs, base) + Low(32, Read(st.regs, from)) * Pow2(s))
    {
      ThreeSteps(RV64, X, i1, i2, i3, next, st);
      var b, f := Read(st.regs, base), Read(st.regs, from);
      var up, scaled := Low(64, f) * Pow2(32), Low(32, f) * Pow2(s);
      SumOfLows(64, up, 0);
      FusedShift(f, s);
      SumOfLows(64, scaled, 0);
      SumOfLows(64, b, scaled);
      SumOfLows(64, b + scaled, 0);
    }
  }

  lemma SameSum(x: nat, b: int, stride: int, v: int, w: int)
    requires Low(x, v) == Low(x, w)
    ensures Low(x, b + v * stride) == Low(x, b + stride * w)
  {
    LowMul(x, v, stride, w, stride);
    LowAdd(x, b, v * stride, b, w * stride);
    assert w * stride == stride * w;
  }

  function RegisterOperand(index: Index): Operand {
    if index.Plain? then index.op else index.whole
  }

  /** Loading the index and scaling it. */
  lemma ScaledIndex(arch: Arch, c1: seq<Inst>, c2: seq<Inst>, n1: nat, n2: nat, from: Register, rd: Register,
                    base: Register, stride: nat, index: Index, vregs: VRegs)
    requires n1 <= n2 && Loads(arch, c1, n1, from, RegisterOperand(index), vregs)
    requires Scales(arch, c2, n2, rd, base, from, stride)
    requires Allocated(base, n1) && (index.Plain? ==> !index.op.ConstInt?)
    ensures AddsOffset(arch, c1 + c2, n1, rd, base, stride, index, vregs)
  {
    hide Low, Pow2, Exec, InRange, OperandValue, IndexAgrees, IndexValue;
    forall X, st: State | InRange(arch, st.regs) && IndexAgrees(arch, X, vregs, index, st.regs)
      ensures var st' := Exec(arch, X, c1 + c2, st);
        Undisturbed(n1, st, st')
          && Read(st'.regs, rd) == Low(Xlen(arch),
          Read(st.regs, base) + stride * IndexValue(arch, X, vregs, index, st.regs))
    {
      ExecAppend(arch, X, c1, c2, st);
      ExecInRange(arch, X, c1, st);
      IndexRegister(arch, X, vregs, index, st.regs);
      SameSum(Xlen(arch), Read(st.regs, base), stride, OperandValue(arch, X, vregs, RegisterOperand(index), st.regs),
        IndexValue(arch, X, vregs, index, st.regs));
    }
  }

  lemma FusedIndex(c1: seq<Inst>, c2: seq<Inst>, n1: nat, n2: nat, from: Register, rd: Register, base: Register,
                   stride: nat, index: Index, vregs: VRegs)
    requires index.ZextOf? && n1 <= n2 && Loads(RV64, c1, n1, from, index.src, vregs)
    requires ScalesLowHalf(c2, n2, rd, base, from, stride)
    requires Allocated(base, n1)
    ensures AddsOffset(RV64, c1 + c2, n1, rd, base, stride, index, vregs)
  {
    hide Low, Pow2, Exec, InRange, OperandValue, IndexAgrees;
    forall X, st: State | InRange(RV64, st.regs) && IndexAgrees(RV64, X, vregs, index, st.regs)
      ensures var st' := Exec(RV64, X, c1 + c2, st);
        Undisturbed(n1, st, st')
          && Read(st'.regs, rd) == Low(64, Read(st.regs, base) + stride * IndexValue(RV64, X, vregs, index, st.regs))
    {
      ExecAppend(RV64, X, c1, c2, st);
      ExecInRange(RV64, X, c1, st);
      assert IndexValue(RV64, X, vregs, index, st.regs) == Low(32, OperandValue(RV64, X, vregs, index.src, st.regs));
    }
  }

  predicate UnknownIndex(index: Index, vregs: VRegs) {
    match index
    case Plain(op) => op.Value? && op.id !in vregs
    case ZextOf(whole, src) => (whole.Value? && whole.id !in vregs) || (src.Value? && src.id !in vregs)
  }

  /** Adds stride * index to a base register. A constant index becomes an immediate; on RV64 a
      zero-extended 32-bit index is extended and scaled at once. */
  method EmitAddOffset(arch: Arch, base: Register, stride: nat, index: Index, vregs: VRegs, out: seq<Inst>,
                       fn: MachineFunction)
    returns (res: Lowered, out': seq<Inst>)
    requires Allocated(base, fn.nextVreg) && UsableIndex(index, vregs, fn.nextVreg) && stride < 0x8000_0000
    requires ConstantFits(arch, stride, index)
    modifies fn`nextVreg
    ensures fn.nextVreg >= old(fn.nextVreg) && out <= out'
    ensures res.UnknownOperand? ==> UnknownIndex(index, vregs)
    ensures res.Ok? ==>
      && Allocated(res.r, fn.nextVreg)
      && AddsOffset(arch, out'[|out|..], old(fn.nextVreg), res.r, base, stride, index, vregs)
    ensures Encoded(arch, out, out')
  {
    hide AddsOffset, AddsValue, Loads, Scales, ScalesLowHalf, OperandValue, ToI32, Encoded, IsPowerOfTwo, Pow2, Low,
      Exec, InRange, Straight;
    EncodedNothing(arch, out);
    ghost var n1 := fn.nextVreg;
    out' := out;
    if index.Plain? && index.op.ConstInt? {
      var imm := ToI32(index.op.c.AsI64()) * stride;
      if imm == 0 {
        assert out'[|out|..] == [];
        NoOffset(arch, n1, base, stride, index, vregs);
        return Ok(base), out;
      }
      if FitsImm12(imm) {
        var resultReg := fn.NewVreg();
        EncodedFirst(arch, out, RegImm(Addi, resultReg, base, imm));
        out' := out + [RegImm(Addi, resultReg, base, imm)];
        assert out'[|out|..] == [RegImm(Addi, resultReg, base, imm)];
        AddsByImmediate(arch, n1, resultReg, base, imm);
        ConstantOffset(arch, out'[|out|..], n1, resultReg, base, stride, index, vregs);
        return Ok(resultReg), out';
      }
      var tempReg := fn.NewVreg();
      out' := out + [Li(tempReg, imm)];
      var resultReg := fn.NewVreg();
      EncodedFirst(arch, out, Li(tempReg, imm));
      EncodedOne(arch, out, out', RegReg(RegOp.Add, resultReg, base, tempReg));
      out' := out' + [RegReg(RegOp.Add, resultReg, base, tempReg)];
      assert out'[|out|..] == [Li(tempReg, imm), RegReg(RegOp.Add, resultReg, base, tempReg)];
      AddsByLoading(arch, n1, tempReg, resultReg, base, imm);
      ConstantOffset(arch, out'[|out|..], n1, resultReg, base, stride, index, vregs);
      return Ok(resultReg), out';
    }
    if stride == 0 {
      assert out'[|out|..] == [];
      NoOffset(arch, n1, base, stride, index, vregs);
      return Ok(base), out;
    }
    var tempReg := fn.NewVreg();
    if IsPowerOfTwo(stride) && arch == RV64 {
      var shift := TrailingZeros(stride);
      PowerOfTwoShift(stride);
      if 0 < shift <= 32 && index.ZextOf? {
        res, out' := EmitFused(base, stride, shift, tempReg, index, vregs, out, fn);
        return;
      }
    }
    var operand := RegisterOperand(index);
    var l, out1 := LowerOperand(arch, operand, vregs, out, fn);
    if l.UnknownOperand? {
      return UnknownOperand, out1;
    }
    LoadsEarlier(arch, out1[|out|..], n1, n1 + 1, l.r, operand, vregs);
    var r;
    r, out' := EmitScaled(arch, base, stride, l.r, tempReg, index, vregs, out, out1, n1, fn);
    return Ok(r), out';
  }

  /** Adds stride times a register to the base: by a shift when the stride is a power of two. */
  method EmitScaled(arch: Arch, base: Register, stride: nat, l: Register, tempReg: Register, ghost index: Index,
                    ghost vregs: VRegs, ghost start: seq<Inst>, out: seq<Inst>, ghost n1: nat, fn: MachineFunction)
    returns (resultReg: Register, out': seq<Inst>)
    requires !(index.Plain? && index.op.ConstInt?) && 0 < stride < 0x8000_0000 && n1 < fn.nextVreg
    requires tempReg == Virtual(n1) && Allocated(base, n1) && Allocated(l, fn.nextVreg)
    requires start <= out && Loads(arch, out[|start|..], n1, l, RegisterOperand(index), vregs)
    requires Encoded(arch, start, out)
    modifies fn`nextVreg
    ensures fn.nextVreg >= old(fn.nextVreg) && start <= out' && Allocated(resultReg, fn.nextVreg)
    ensures AddsOffset(arch, out'[|start|..], n1, resultReg, base, stride, index, vregs)
    ensures Encoded(arch, start, out')
  {
    hide AddsOffset, AddsValue, Loads, Scales, ScalesLowHalf, OperandValue, Encoded, IsPowerOfTwo;
    if IsPowerOfTwo(stride) {
      var shift := TrailingZeros(stride);
      PowerOfTwoShift(stride);
      ShiftFits(stride);
      resultReg := fn.NewVreg();
      EncodedOne(arch, start, out, RegImm(Slli, tempReg, l, shift));
      EncodedOne(arch, start, out + [RegImm(Slli, tempReg, l, shift)], RegReg(RegOp.Add, resultReg, base, tempReg));
      out' := out + [RegImm(Slli, tempReg, l, shift)] + [RegReg(RegOp.Add, resultReg, base, tempReg)];
      ghost var code := [RegImm(Slli, tempReg, l, shift), RegReg(RegOp.Add, resultReg, base, tempReg)];
      ShiftScales(arch, n1, tempReg, resultReg, base, l, shift);
      assert out'[|start|..] == out[|start|..] + code;
      ScaledIndex(arch, out[|start|..], code, n1, n1, l, resultReg, base, stride, index, vregs);
    } else {
      var strideReg := fn.NewVreg();
      EncodedOne(arch, start, out, Li(strideReg, stride));
      EncodedOne(arch, start, out + [Li(strideReg, stride)], RegReg(RegOp.Mul, tempReg, l, strideReg));
      out' := out + [Li(strideReg, stride)] + [RegReg(RegOp.Mul, tempReg, l, strideReg)];
      resultReg := fn.NewVreg();
      EncodedOne(arch, start, out', RegReg(RegOp.Add, resultReg, base, tempReg));
      out' := out' + [RegReg(RegOp.Add, resultReg, base, tempReg)];
      ghost var code := [Li(strideReg, stride), RegReg(RegOp.Mul, tempReg, l, strideReg),
        RegReg(RegOp.Add, resultReg, base, tempReg)];
      MulScales(arch, n1, tempReg, strideReg, resultReg, base, l, stride);
      assert out'[|start|..] == out[|start|..] + code;
      ScaledIndex(arch, out[|start|..], code, n1, n1, l, resultReg, base, stride, index, vregs);
    }
  }

  lemma LoadsEarlier(arch: Arch, code: seq<Inst>, next: nat, next': nat, r: Register, op: Operand, vregs: VRegs)
    requires next <= next' && Loads(arch, code, next', r, op, vregs)
    ensures Loads(arch, code, next, r, op, vregs)
  {
    hide Exec, InRange, OperandValue;
  }

  method EmitFused(base: Register, stride: nat, shift: nat, tempReg: Register, index: Index, vregs: VRegs,
                   out: seq<Inst>, fn: MachineFunction)
    returns (res: Lowered, out': seq<Inst>)
    requires fn.nextVreg > 0 && tempReg == Virtual(fn.nextVreg - 1) && Allocated(base, fn.nextVreg - 1) && index.ZextOf?
    requires UsableIndex(index, vregs, fn.nextVreg - 1)
    requires 0 < shift <= 32 && stride == Pow2(shift)
    modifies fn`nextVreg
    ensures fn.nextVreg >= old(fn.nextVreg) && out <= out'
    ensures res.UnknownOperand? ==> UnknownIndex(index, vregs)
    ensures res.Ok? ==>
      && Allocated(res.r, fn.nextVreg)
      && AddsOffset(RV64, out'[|out|..], old(fn.nextVreg) - 1, res.r, base, stride, index, vregs)
    ensures Encoded(RV64, out, out')
  {
    hide AddsOffset, Loads, ScalesLowHalf, OperandValue, Pow2, Encoded;
    ghost var n1 := fn.nextVreg - 1;
    var l, out1 := LowerOperand(RV64, index.src, vregs, out, fn);
    if l.UnknownOperand? {
      return UnknownOperand, out1;
    }
    LoadsEarlier(RV64, out1[|out|..], n1, n1 + 1, l.r, index.src, vregs);
    EncodedOne(RV64, out, out1, RegImm(Slli, tempReg, l.r, 32));
    EncodedOne(RV64, out, out1 + [RegImm(Slli, tempReg, l.r, 32)], RegImm(Srli, tempReg, tempReg, 32 - shift));
    out' := out1 + [RegImm(Slli, tempReg, l.r, 32)] + [RegImm(Srli, tempReg, tempReg, 32 - shift)];
    var resultReg := fn.NewVreg();
    EncodedOne(RV64, out, out', RegReg(RegOp.Add, resultReg, base, tempReg));
    out' := out' + [RegReg(RegOp.Add, resultReg, base, tempReg)];
    ghost var code := [RegImm(Slli, tempReg, l.r, 32), RegImm(Srli, tempReg, tempReg, 32 - shift),
      RegReg(RegOp.Add, resultReg, base, tempReg)];
    assert out'[|out|..] == out1[|out|..] + code;
    FusedScales(n1, tempReg, resultReg, base, l.r, shift);
    FusedIndex(out1[|out|..], code, n1, n1, l.r, resultReg, base, stride, index, vregs);
    res := Ok(resultReg);
  }
}
