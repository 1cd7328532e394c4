/** Lowering of operands, 32-bit binary operators and integer comparisons
    (src/mir/lower.rs:118-168, 830-968, 1376-1686). */
module LowerBinary {
  import opened Machine
  import opened Bits
  import opened CoreInts
  import opened LowerArith
  import opened LowerConsts

  // ---------------------------------------------------------------- operands

  /** A value the code being lowered refers to: a constant, a symbol, or an earlier result. */
  datatype Operand = ConstInt(c: CoreInt) | ConstNull | ConstUndef | GlobalAddr(symbol: nat) | Value(id: nat)

  /** The virtual register of each value that has one. */
  type VRegs = map<nat, nat>

  datatype Lowered = Ok(r: Register) | UnknownOperand

  predicate UsableOperand(op: Operand, vregs: VRegs, next: nat) {
    match op
    case ConstInt(c) => c.Valid()
    case Value(id) => id in vregs ==> vregs[id] < next
    case _ => true
  }

  /** What an operand denotes in a machine state. */
  ghost function OperandValue(arch: Arch, X: Externals, vregs: VRegs, op: Operand, regs: Regs): int {
    match op
    case ConstInt(c) => if c.Valid() then Low(Xlen(arch), ToI32(c.AsI64())) else 0
    case ConstNull => 0
    case ConstUndef => 0
    case GlobalAddr(symbol) => Low(Xlen(arch), X.symbolAddr(symbol))
    case Value(id) => if id in vregs then regs[Virtual(vregs[id])] else 0
  }

  /** Code leaves the operand's value in r and disturbs no allocated register. */
  ghost predicate Loads(arch: Arch, code: seq<Inst>, next: nat, r: Register, op: Operand, vregs: VRegs) {
    forall X, st: State :: InRange(arch, st.regs) ==>
      var st' := Exec(arch, X, code, st);
      Undisturbed(next, st, st') && Read(st'.regs, r) == OperandValue(arch, X, vregs, op, st.regs)
  }

  ghost predicate Undisturbed(next: nat, st: State, st': State) {
    st'.mem == st.mem && forall r: Register :: Allocated(r, next) ==> st'.regs[r] == st.regs[r]
  }

  method LowerOperand(arch: Arch, op: Operand, vregs: VRegs, out: seq<Inst>, fn: MachineFunction)
    returns (res: Lowered, out': seq<Inst>)
    requires UsableOperand(op, vregs, fn.nextVreg)
    modifies fn`nextVreg
    ensures fn.nextVreg >= old(fn.nextVreg) && out <= out' && Straight(out'[|out|..])
    ensures res.UnknownOperand? <==> op.Value? && op.id !in vregs
    ensures res.Ok? ==> Allocated(res.r, fn.nextVreg) && Loads(arch, out'[|out|..], old(fn.nextVreg), res.r, op, vregs)
    ensures Encoded(arch, out, out')
  {
    hide Encoded;
    out' := out;
    EncodedNothing(arch, out);
    match op {
      case GlobalAddr(symbol) =>
        var rd := fn.NewVreg();
        EncodedFirst(arch, out, La(rd, symbol));
        out' := out' + [La(rd, symbol)];
        assert out'[|out|..] == [La(rd, symbol)];
        LoadsOne(arch, La(rd, symbol), old(fn.nextVreg), op, vregs);
        res := Ok(rd);
      case ConstInt(c) =>
        if c.value == 0 {
          LoadsNothing(arch, ZERO, old(fn.nextVreg), op, vregs) by { ZeroConstant(arch, c); }
          res := Ok(ZERO);
        } else {
          var rd := fn.NewVreg();
          EncodedFirst(arch, out, Li(rd, ToI32(c.AsI64())));
          out' := out' + [Li(rd, ToI32(c.AsI64()))];
          assert out'[|out|..] == [Li(rd, ToI32(c.AsI64()))];
          LoadsOne(arch, Li(rd, ToI32(c.AsI64())), old(fn.nextVreg), op, vregs);
          res := Ok(rd);
        }
      case ConstNull =>
        LoadsNothing(arch, ZERO, old(fn.nextVreg), op, vregs);
        res := Ok(ZERO);
      case ConstUndef =>
        LoadsNothing(arch, ZERO, old(fn.nextVreg), op, vregs);
        res := Ok(ZERO);
      case Value(id) =>
        if id in vregs {
          LoadsNothing(arch, Virtual(vregs[id]), old(fn.nextVreg), op, vregs);
          res := Ok(Virtual(vregs[id]));
        } else {
          res := UnknownOperand;
        }
    }
  }

  lemma ZeroConstant(arch: Arch, c: CoreInt)
    requires c.Valid() && c.value == 0
    ensures Low(Xlen(arch), ToI32(c.AsI64())) == 0
  {
    LowSmall(c.width, 0);
    LowSmall(32, 0);
    LowSmall(Xlen(arch), 0);
    hide Pow2;
  }

  lemma LoadsNothing(arch: Arch, r: Register, next: nat, op: Operand, vregs: VRegs)
    requires r == ZERO ==> forall X, regs :: OperandValue(arch, X, vregs, op, regs) == 0
    requires r != ZERO ==> op.Value? && op.id in vregs && r == Virtual(vregs[op.id])
    ensures Loads(arch, [], next, r, op, vregs)
  {
  }

  lemma LoadsOne(arch: Arch, inst: Inst, next: nat, op: Operand, vregs: VRegs)
    requires match op
      case GlobalAddr(symbol) => inst == La(Virtual(next), symbol)
      case ConstInt(c) => c.Valid() && inst == Li(Virtual(next), ToI32(c.AsI64()))
      case _ => false
    ensures Loads(arch, [inst], next, Virtual(next), op, vregs)
  {
    hide Low, Pow2, InRange, Exec, Signed;
    forall X, st: State | InRange(arch, st.regs)
      ensures var st' := Exec(arch, X, [inst], st);
        Undisturbed(next, st, st') && Read(st'.regs, Virtual(next)) == OperandValue(arch, X, vregs, op, st.regs)
    {
      Exec1(arch, X, inst, st);
    }
  }

  /** A constant reaches its register unchanged exactly when the target is 32 bits wide or the
      constant fits the 32-bit immediate it is cut down to. */
  lemma ConstantLoadedExactly(arch: Arch, X: Externals, vregs: VRegs, c: CoreInt, regs: Regs)
    requires c.Valid()
    ensures OperandValue(arch, X, vregs, ConstInt(c), regs) == Low(Xlen(arch), c.AsI64()) <==>
      arch == RV32 || IsI32(c.AsI64())
  {
    hide Low, Pow2, Signed;
    if arch == RV64 {
      SignedReading(c);
      CutTo32(c.AsI64());
    }
  }

  /** The 64-bit constant 2^31 is loaded as -2^31. */
  lemma ConstantLosesBits(X: Externals, vregs: VRegs, regs: Regs)
    ensures var c := CoreInt(0x8000_0000, 64);
      && c.Valid() && Low(64, c.AsI64()) == 0x8000_0000
      && OperandValue(RV64, X, vregs, ConstInt(c), regs) == 0xFFFF_FFFF_8000_0000
  {
    Pow32();
    Pow64();
    LowSmall(64, 0x8000_0000);
    LowSmall(32, 0x8000_0000);
    LowSmall(64, 0xFFFF_FFFF_8000_0000);
    LowAddMultiple(64, -0x8000_0000, 1);
  }

  lemma SignedReading(c: CoreInt)
    requires c.Valid()
    ensures -Pow2(63) <= c.AsI64() && c.AsI64() < Pow2(63)
  {
    LowSigned(c.width, c.value);
    PowMonotone(c.width - 1, 63);
    Pow64();
    hide Pow2, Signed;
  }

  lemma CutTo32(v: int)
    requires -Pow2(63) <= v && v < Pow2(63)
    ensures Low(64, ToI32(v)) == Low(64, v) <==> IsI32(v)
  {
    Pow32();
    Pow64();
    hide Pow2, Low, Signed;
    SignedUnique(64, v, v);
    SignedUnique(64, ToI32(v), ToI32(v));
    LowSigned(64, v);
    LowSigned(64, ToI32(v));
    if IsI32(v) {
      SignedUnique(32, v, v);
    }
  }

  // ---------------------------------------------------------------- agreement with folding

  function Folded(w: nat, op: BinaryOpcode, a: int, b: int): Option<CoreInt>
    requires 1 <= w <= 64
  {
    Fold(op, CoreInt(Low(w, a), w), CoreInt(Low(w, b), w))
  }

  predicate ResultFolded(w: nat, op: BinaryOpcode, a: int, b: int, result: int)
    requires 1 <= w <= 64
  {
    var f := Folded(w, op, a, b);
    f.Some? ==> Low(w, result) == f.value.value
  }

  /** A register value in the form the operator expects of an integer of so many bits. */
  ghost predicate Ready(arch: Arch, w: nat, op: BinaryOpcode, v: int)
    requires 1 <= w <= Xlen(arch)
  {
    var k := FormWidth(arch, op, w);
    HoldsInt(k, op, Low(k, v), CoreInt(Low(w, v), w))
  }

  /** Whenever folding is defined on the operand values, and rs (and the right operand's register, if
      it is meant too) is ready, the code leaves the folded result in the low bits of rd. */
  ghost predicate AgreesWithFold(arch: Arch, w: nat, both: bool, code: seq<Inst>, next: nat, rd: Register,
                                 op: BinaryOpcode, rs: Register, rhs: Rhs)
    requires 1 <= w <= Xlen(arch)
  {
    forall X, st: State :: ReadyAt(arch, w, both, op, rs, rhs, st.regs) ==>
      var st' := Exec(arch, X, code, st);
      && KeepsOthers(next, rd, st, st')
      && ResultFolded(w, op, Read(st.regs, rs), RhsPattern(w, st.regs, rhs), Read(st'.regs, rd))
  }

  ghost predicate ReadyAt(arch: Arch, w: nat, both: bool, op: BinaryOpcode, rs: Register, rhs: Rhs, regs: Regs)
    requires 1 <= w <= Xlen(arch)
  {
    && InRange(arch, regs) && Ready(arch, w, op, Read(regs, rs))
    && (both && rhs.InReg? ==> Ready(arch, w, op, Read(regs, rhs.r)))
  }

  /** The constant the code was specialised for stands for the right operand. */
  ghost predicate ConstSuits(arch: Arch, w: nat, op: BinaryOpcode, used: int, meant: int)
    requires 1 <= w <= Xlen(arch)
  {
    var k := FormWidth(arch, op, w);
    Suits(k, op, Low(k, used), CoreInt(Low(w, meant), w))
  }

  lemma FormCovers(arch: Arch, w: nat, op: BinaryOpcode)
    requires 1 <= w <= Xlen(arch)
    ensures var k := FormWidth(arch, op, w); w <= k <= Xlen(arch) && 32 <= k
  {
  }

  lemma ReadyIsNarrow(arch: Arch, w: nat, op: BinaryOpcode, v: int)
    requires 1 <= w <= Xlen(arch) && ReadsSigned(op) && Ready(arch, w, op, v)
    ensures Narrow(FormWidth(arch, op, w), w, v)
  {
    var k := FormWidth(arch, op, w);
    LowSigned(k, v);
    LowSigned(w, Low(w, v));
    hide Low, Pow2, Signed;
  }

  /** A value that is computed right at the form's width is right at the integer's. */
  lemma ValueIsFold(arch: Arch, w: nat, op: BinaryOpcode, a: int, used: int, meant: int, result: int)
    requires 1 <= w <= Xlen(arch) && Ready(arch, w, op, a) && ConstSuits(arch, w, op, used, meant)
    requires var k := FormWidth(arch, op, w); Low(k, result) == Low(k, ValueAt(k, op, Low(k, a), Low(k, used)))
    ensures ResultFolded(w, op, a, meant, result)
  {
    hide ValueAt, Fold, Low, HoldsInt, Suits;
    var k := FormWidth(arch, op, w);
    FormCovers(arch, w, op);
    if Folded(w, op, a, meant).Some? {
      FoldIsValue(k, op, CoreInt(Low(w, a), w), CoreInt(Low(w, meant), w), Low(k, a), Low(k, used));
      LowOfLow(w, k, result);
      LowOfLow(w, k, ValueAt(k, op, Low(k, a), Low(k, used)));
    }
  }

  lemma ReadySuits(arch: Arch, w: nat, op: BinaryOpcode, v: int)
    requires 1 <= w <= Xlen(arch) && Ready(arch, w, op, v)
    ensures ConstSuits(arch, w, op, v, v)
  {
    var k := FormWidth(arch, op, w);
    HoldingSuits(k, op, Low(k, v), CoreInt(Low(w, v), w));
  }

  /** Folding looks at the low bits of its operands only. */
  lemma ResultFoldedLow(w: nat, op: BinaryOpcode, a: int, a': int, b: int, b': int, result: int)
    requires 1 <= w <= 64 && Low(w, a) == Low(w, a') && Low(w, b) == Low(w, b') && ResultFolded(w, op, a, b, result)
    ensures ResultFolded(w, op, a', b', result)
  {
    hide Low, Fold;
  }

  lemma ComputesAgrees(arch: Arch, w: nat, code: seq<Inst>, next: nat, rd: Register, op: BinaryOpcode, rs: Register,
                       rhs: Rhs, meant: Rhs)
    requires 1 <= w <= Xlen(arch) && rhs.InReg? == meant.InReg?
    requires if ReadsSigned(op) then ComputesOn(arch, FormWidth(arch, op, w), w, code, next, rd, op, rs, rhs)
      else Computes(arch, FormWidth(arch, op, w), code, next, rd, op, rs, rhs)
    requires if rhs.InReg? then meant == rhs else ConstSuits(arch, w, op, rhs.c, meant.c)
    ensures AgreesWithFold(arch, w, true, code, next, rd, op, rs, meant)
  {
    hide Low, Pow2, ValueAt, Exec, InRange, Fold, KeepsOthers, Ready, ConstSuits, Narrow, ResultFolded, FormWidth;
    var k := FormWidth(arch, op, w);
    FormCovers(arch, w, op);
    forall X, st: State | ReadyAt(arch, w, true, op, rs, meant, st.regs)
      ensures var st' := Exec(arch, X, code, st);
        KeepsOthers(next, rd, st, st')
          && ResultFolded(w, op, Read(st.regs, rs), RhsPattern(w, st.regs, meant), Read(st'.regs, rd))
    {
      if ReadsSigned(op) {
        ReadyIsNarrow(arch, w, op, Read(st.regs, rs));
      }
      var used := if rhs.InReg? then Read(st.regs, rhs.r) else rhs.c;
      var value := if rhs.InReg? then used else meant.c;
      if rhs.InReg? {
        ReadySuits(arch, w, op, used);
      }
      var result := Read(Exec(arch, X, code, st).regs, rd);
      ValueIsFold(arch, w, op, Read(st.regs, rs), used, value, result);
      LowOfLow(w, w, value);
      ResultFoldedLow(w, op, Read(st.regs, rs), Read(st.regs, rs), value, RhsPattern(w, st.regs, meant), result);
    }
  }

  // ---------------------------------------------------------------- composing pieces of code

  /** Code that keeps the low bits of rs in r, and in the form the operator expects where that is
      asked (perhaps r is rs and there is no code). */
  ghost predicate Carries(arch: Arch, w: nat, op: BinaryOpcode, ready: bool, code: seq<Inst>, next: nat, r: Register,
                          rs: Register)
    requires 1 <= w <= Xlen(arch)
  {
    forall X, st: State :: InRange(arch, st.regs) ==>
      var st' := Exec(arch, X, code, st);
      && Undisturbed(next, st, st') && Low(w, Read(st'.regs, r)) == Low(w, Read(st.regs, rs))
      && (ready ==> Ready(arch, w, op, Read(st'.regs, r)))
  }

  lemma NormalLow(arch: Arch, w: nat, signed: bool, v: int)
    requires 1 <= w <= Xlen(arch)
    ensures Low(w, Normal(arch, w, signed, v)) == Low(w, v)
  {
    LowOfLow(w, w, v);
    LowOfLow(w, Xlen(arch), Signed(w, v));
    LowSigned(w, v);
    hide Low, Signed, Pow2;
  }

  lemma SignedNormal(w: nat, k: nat, v: int)
    requires 1 <= w < k
    ensures Signed(k, Low(k, Low(k, Signed(w, v)))) == Signed(w, v)
  {
    LowSigned(w, v);
    PowMonotone(w - 1, k - 1);
    LowOfLow(k, k, Signed(w, v));
    LowOfLow(k, k, Low(k, Signed(w, v)));
    hide Low, Signed, Pow2;
    SignedUnique(k, Low(k, Low(k, Signed(w, v))), Signed(w, v));
  }

  /** A normalised value is ready. */
  lemma NormalReady(arch: Arch, w: nat, op: BinaryOpcode, v: int)
    requires 1 <= w < Xlen(arch) && FormWidth(arch, op, w) == Xlen(arch)
    ensures Ready(arch, w, op, Normal(arch, w, ReadsSigned(op), v))
  {
    hide Low, Signed, Pow2, FormWidth;
    var k, n := Xlen(arch), Normal(arch, w, ReadsSigned(op), v);
    NormalLow(arch, w, ReadsSigned(op), v);
    LowInRange(w, v);
    LowInRange(k, n);
    if ReadsSigned(op) {
      LowSigned(w, v);
      SignedNormal(w, k, v);
    } else {
      PowMonotone(w, k);
      LowSmall(k, Low(w, v));
    }
  }

  lemma NormaliseCarries(arch: Arch, w: nat, op: BinaryOpcode, ready: bool, code: seq<Inst>, next: nat, r: Register,
                         rs: Register, signed: bool)
    requires 1 <= w < Xlen(arch) && !Allocated(r, next) && r != ZERO && Normalises(arch, code, next, r, rs, w, signed)
    requires ready ==> signed == ReadsSigned(op) && FormWidth(arch, op, w) == Xlen(arch)
    ensures Carries(arch, w, op, ready, code, next, r, rs)
  {
    hide Pow2, Exec, InRange, Low, Normal, Ready, FormWidth;
    forall X, st: State | InRange(arch, st.regs)
      ensures var st' := Exec(arch, X, code, st);
        && Undisturbed(next, st, st') && Low(w, Read(st'.regs, r)) == Low(w, Read(st.regs, rs))
        && (ready ==> Ready(arch, w, op, Read(st'.regs, r)))
    {
      NormalLow(arch, w, signed, Read(st.regs, rs));
      if ready {
        NormalReady(arch, w, op, Read(st.regs, rs));
      }
    }
  }

  /** At its own width every register value is ready. */
  lemma WholeReady(arch: Arch, w: nat, op: BinaryOpcode, v: int)
    requires 1 <= w <= Xlen(arch) && FormWidth(arch, op, w) == w
    ensures Ready(arch, w, op, v)
  {
    LowInRange(w, v);
    hide Low, Signed, Pow2;
  }

  lemma NothingCarries(arch: Arch, w: nat, op: BinaryOpcode, next: nat, rs: Register)
    requires 1 <= w <= Xlen(arch) && FormWidth(arch, op, w) == w
    ensures Carries(arch, w, op, true, [], next, rs, rs)
  {
    hide Pow2, InRange, Low, Ready, FormWidth;
    forall v ensures Ready(arch, w, op, v) {
      WholeReady(arch, w, op, v);
    }
  }

  /** The left operand made ready, and a constant on the right: right from every state. */
  ghost predicate AgreesAnyhow(arch: Arch, w: nat, code: seq<Inst>, next: nat, rd: Register, op: BinaryOpcode,
                               rs: Register, rhs: Rhs)
    requires 1 <= w <= Xlen(arch)
  {
    forall X, st: State :: InRange(arch, st.regs) ==>
      var st' := Exec(arch, X, code, st);
      && KeepsOthers(next, rd, st, st')
      && ResultFolded(w, op, Read(st.regs, rs), RhsPattern(w, st.regs, rhs), Read(st'.regs, rd))
  }

  lemma CarryLeft(arch: Arch, w: nat, c1: seq<Inst>, c2: seq<Inst>, n1: nat, n2: nat, rd: Register, op: BinaryOpcode,
                  r: Register, rs: Register, rhs: Rhs)
    requires 1 <= w <= Xlen(arch) && n1 <= n2 && Carries(arch, w, op, true, c1, n1, r, rs) && rhs.Fixed?
    requires AgreesWithFold(arch, w, true, c2, n2, rd, op, r, rhs)
    ensures AgreesAnyhow(arch, w, c1 + c2, n1, rd, op, rs, rhs)
  {
    hide Pow2, Exec, InRange, Low, ResultFolded, Ready;
    forall X, st: State | InRange(arch, st.regs)
      ensures var st' := Exec(arch, X, c1 + c2, st);
        KeepsOthers(n1, rd, st, st')
          && ResultFolded(w, op, Read(st.regs, rs), RhsPattern(w, st.regs, rhs), Read(st'.regs, rd))
    {
      ExecAppend(arch, X, c1, c2, st);
      ExecInRange(arch, X, c1, st);
      var mid := Exec(arch, X, c1, st);
      assert ReadyAt(arch, w, true, op, r, rhs, mid.regs);
      ResultFoldedLow(w, op, Read(mid.regs, r), Read(st.regs, rs), RhsPattern(w, st.regs, rhs),
        RhsPattern(w, st.regs, rhs), Read(Exec(arch, X, c2, mid).regs, rd));
    }
  }

  lemma CarryRight(arch: Arch, w: nat, c1: seq<Inst>, c2: seq<Inst>, n1: nat, n2: nat, rd: Register, op: BinaryOpcode,
                   rs: Register, r: Register, r2: Register)
    requires 1 <= w <= Xlen(arch) && n1 <= n2 && Carries(arch, w, op, true, c1, n1, r, r2) && Allocated(rs, n1)
    requires AgreesWithFold(arch, w, true, c2, n2, rd, op, rs, InReg(r))
    ensures AgreesWithFold(arch, w, false, c1 + c2, n1, rd, op, rs, InReg(r2))
  {
    hide Pow2, Exec, InRange, Low, ResultFolded, Ready;
    forall X, st: State | ReadyAt(arch, w, false, op, rs, InReg(r2), st.regs)
      ensures var st' := Exec(arch, X, c1 + c2, st);
        KeepsOthers(n1, rd, st, st')
          && ResultFolded(w, op, Read(st.regs, rs), RhsPattern(w, st.regs, InReg(r2)), Read(st'.regs, rd))
    {
      ExecAppend(arch, X, c1, c2, st);
      ExecInRange(arch, X, c1, st);
      assert ReadyAt(arch, w, true, op, rs, InReg(r), Exec(arch, X, c1, st).regs);
    }
  }

  lemma CarryResult(arch: Arch, w: nat, c1: seq<Inst>, c2: seq<Inst>, n1: nat, n2: nat, raw: Register, r: Register,
                    op: BinaryOpcode, rs: Register, rhs: Rhs)
    requires 1 <= w <= Xlen(arch) && n1 <= n2 && AgreesWithFold(arch, w, true, c1, n1, raw, op, rs, rhs)
    requires Carries(arch, w, op, false, c2, n2, r, raw) && !Allocated(raw, n1)
    ensures AgreesWithFold(arch, w, true, c1 + c2, n1, r, op, rs, rhs)
  {
    hide Pow2, Exec, InRange, Low, Folded, Ready;
    forall X, st: State | ReadyAt(arch, w, true, op, rs, rhs, st.regs)
      ensures var st' := Exec(arch, X, c1 + c2, st);
        && KeepsOthers(n1, r, st, st')
        && ResultFolded(w, op, Read(st.regs, rs), RhsPattern(w, st.regs, rhs), Read(st'.regs, r))
    {
      ExecAppend(arch, X, c1, c2, st);
      ExecInRange(arch, X, c1, st);
    }
  }

  lemma MoveResult(arch: Arch, w: nat, code: seq<Inst>, next: nat, r: Register, rd: Register, op: BinaryOpcode,
                   rs: Register, rhs: Rhs)
    requires 1 <= w <= Xlen(arch) && AgreesWithFold(arch, w, true, code, next, r, op, rs, rhs)
    requires !Allocated(r, next) && r != ZERO && rd != ZERO
    ensures AgreesWithFold(arch, w, true, code + [Mv(rd, r)], next, rd, op, rs, rhs)
  {
    hide Pow2, Exec, InRange, Low, Folded, KeepsOthers, Ready;
    forall X, st: State | ReadyAt(arch, w, true, op, rs, rhs, st.regs)
      ensures var st' := Exec(arch, X, code + [Mv(rd, r)], st);
        KeepsOthers(next, rd, st, st')
          && ResultFolded(w, op, Read(st.regs, rs), RhsPattern(w, st.regs, rhs), Read(st'.regs, rd))
    {
      ThenMove(arch, X, code, r, rd, next, st);
    }
  }

  lemma AgreesEarlier(arch: Arch, w: nat, code: seq<Inst>, next: nat, next': nat, rd: Register, op: BinaryOpcode,
                      rs: Register, rhs: Rhs)
    requires 1 <= w <= Xlen(arch) && next <= next' && AgreesWithFold(arch, w, true, code, next', rd, op, rs, rhs)
    ensures AgreesWithFold(arch, w, true, code, next, rd, op, rs, rhs)
  {
    hide Pow2, Exec, InRange, Low, ResultFolded, Ready;
  }

  // ---------------------------------------------------------------- a constant right operand

  predicate FitsImm12(v: int) {
    -2048 <= v <= 2047
  }

  /** The signed reading of an integer of so many bits, as far as it fits 32. */
  predicate FromConst(w: nat, imm: int) {
    IsI32(imm) && if w == 1 then 0 <= imm <= 1 else 1 < w <= 32 ==> -Pow2(w - 1) <= imm < Pow2(w - 1)
  }

  lemma ConstReading(c: CoreInt)
    requires c.Valid()
    ensures FromConst(c.width, ToI32(c.AsI64())) && (c.width <= 32 ==> ToI32(c.AsI64()) == c.AsI64())
  {
    var v := c.AsI64();
    LowSigned(c.width, c.value);
    Pow32();
    if c.width <= 32 {
      PowMonotone(c.width - 1, 31);
      if c.width == 1 {
        assert Pow2(1) == 2;
      }
      SignedUnique(32, v, v);
    }
    hide Low, Pow2, Signed;
  }

  /** A constant no wider than 32 bits reaches its register with its bits. */
  lemma ConstantDenotes(arch: Arch, X: Externals, vregs: VRegs, c: CoreInt, regs: Regs)
    requires c.Valid() && c.width <= 32
    ensures Low(c.width, OperandValue(arch, X, vregs, ConstInt(c), regs)) == c.value
  {
    ConstReading(c);
    LowOfLow(c.width, Xlen(arch), c.AsI64());
    LowSmall(c.width, c.value);
    LowSigned(c.width, c.value);
    hide Low, Pow2, Signed;
  }

  lemma SmallConst(w: nat, k: nat, imm: int)
    requires 1 <= w <= k && 32 <= k && FromConst(w, imm) && imm >= 0
    ensures Low(k, imm) == imm == Low(w, imm)
  {
    Pow32();
    PowMonotone(31, k);
    if w == 1 {
      assert Pow2(1) == 2;
    } else if w > 32 {
      PowMonotone(31, w);
    }
    hide Low;
    LowSmall(k, imm);
    LowSmall(w, imm);
  }

  lemma SignedConst(w: nat, k: nat, imm: int)
    requires 1 < w <= k && 32 <= k && FromConst(w, imm)
    ensures Signed(k, Low(k, imm)) == imm == Signed(w, Low(w, imm))
  {
    SignedOfI32(k, imm);
    Pow32();
    if w > 32 {
      PowMonotone(31, w - 1);
    }
    LowOfLow(w, w, imm);
    hide Low, Signed, Pow2;
    SignedUnique(w, Low(w, imm), imm);
  }

  /** A constant stands for the right operand of every operator but the unsigned divisions. */
  lemma ConstantSuits(arch: Arch, w: nat, op: BinaryOpcode, imm: int)
    requires 1 <= w <= Xlen(arch) && FromConst(w, imm) && op != UDiv && op != URem && (IsShift(op) ==> imm >= 0)
    ensures ConstSuits(arch, w, op, imm, imm)
  {
    hide Low, Signed, Pow2, FormWidth;
    var k := FormWidth(arch, op, w);
    FormCovers(arch, w, op);
    LowInRange(k, imm);
    LowInRange(w, imm);
    if ReadsSigned(op) {
      if w == 1 {
        SignedOfI32(k, imm);
        SmallConst(w, k, imm);
      } else {
        SignedConst(w, k, imm);
      }
    } else if op == Shl || op == LShr {
      SmallConst(w, k, imm);
    } else {
      LowOfLow(w, k, imm);
    }
  }

  /** A signed 32-bit number reinterpreted as an unsigned one, as Rust's `as u32` does. */
  function AsU32(v: int): nat
    requires IsI32(v)
  {
    if v < 0 then v + 0x1_0000_0000 else v
  }

  lemma U32Pattern(v: int)
    requires IsI32(v)
    ensures AsU32(v) < 0x1_0000_0000
  {
  }

  /** The divisor the emitted code divides by: the constant read as an unsigned 32-bit number where
      that is a power of two, and otherwise the constant as it is loaded. */
  function UsedDivisor(imm: int): int
    requires IsI32(imm)
  {
    if IsPowerOfTwo(AsU32(imm)) then AsU32(imm) else imm
  }

  /** Unsigned division by a constant whose top bit is set is lowered right at 32 bits, and at the
      register's width but for the smallest 32-bit number; the constant is never masked to its width. */
  predicate DivisorRight(arch: Arch, w: nat, imm: int) {
    imm >= 0 || w == 32 || (w == Xlen(arch) && imm != -0x8000_0000)
  }

  lemma {:induction false} PowerOfTwoHigh(n: nat)
    requires 0x8000_0000 < n < 0x1_0000_0000
    ensures !IsPowerOfTwo(n)
  {
    if IsPowerOfTwo(n) {
      PowerOfTwoShift(n);
      Pow32();
      var s := TrailingZeros(n);
      if s <= 31 {
        PowMonotone(s, 31);
      } else {
        PowMonotone(32, s);
      }
    }
  }

  lemma TopPowerOfTwo()
    ensures IsPowerOfTwo(0x8000_0000)
  {
    Pow32();
    PowIsPower(31);
  }

  /** The divisor used has the bits of the one meant exactly where division is lowered right; where it
      does not, both are positive and one of them is an integer of the width. */
  lemma DivisorBits(arch: Arch, w: nat, imm: int)
    requires 1 <= w <= Xlen(arch) && FromConst(w, imm)
    ensures var k := FormWidth(arch, UDiv, w);
      var used, meant := Low(k, UsedDivisor(imm)), Low(w, imm);
      && (used == meant <==> DivisorRight(arch, w, imm))
      && (used != meant ==> used > 0 && meant > 0)
  {
    hide Low, IsPowerOfTwo, Pow2;
    var k := FormWidth(arch, UDiv, w);
    FormCovers(arch, w, UDiv);
    if imm >= 0 {
      SmallConst(w, k, imm);
    } else if imm == -0x8000_0000 {
      TopPowerOfTwo();
      LowestWidth(w);
      LowestDivisor(w, k);
    } else {
      PowerOfTwoHigh(AsU32(imm));
      NegativeWidth(w, imm);
      NegativeDivisor(w, k, imm);
    }
  }

  lemma LowestWidth(w: nat)
    requires w >= 1 && FromConst(w, -0x8000_0000)
    ensures w >= 32
  {
    Pow32();
    if 1 < w < 32 {
      PowGrows(w - 1, 31);
    }
  }

  lemma NegativeWidth(w: nat, imm: int)
    requires w >= 1 && FromConst(w, imm) && imm < 0
    ensures w > 1
  {
  }

  lemma LowestDivisor(w: nat, k: nat)
    requires 32 <= w <= k && (k == 32 || k == 64) && (w == 32 ==> k == 32)
    ensures Low(k, 0x8000_0000) == 0x8000_0000 && Low(w, -0x8000_0000) > 0
    ensures Low(k, 0x8000_0000) == Low(w, -0x8000_0000) <==> w == 32
  {
    Pow32();
    PowMonotone(32, k);
    PowMonotone(32, w);
    if w > 32 {
      PowMonotone(33, w);
    }
    LowSmall(k, 0x8000_0000);
    LowEqual(w, -0x8000_0000, Pow2(w) - 0x8000_0000, -1);
    hide Low;
    LowSmall(w, Pow2(w) - 0x8000_0000);
  }

  lemma NegativeLow(k: nat, v: int)
    requires -Pow2(k) < v < 0
    ensures Low(k, v) == Pow2(k) + v > 0
  {
    LowEqual(k, v, Pow2(k) + v, -1);
    LowSmall(k, Pow2(k) + v);
    hide Low, Pow2;
  }

  lemma PowGrows(w: nat, k: nat)
    requires w < k
    ensures Pow2(w) < Pow2(k)
  {
    PowMonotone(w + 1, k);
  }

  lemma NegativeDivisor(w: nat, k: nat, imm: int)
    requires 1 < w <= k && 32 <= k && FromConst(w, imm) && -0x8000_0000 < imm < 0
    ensures Low(k, imm) > 0 && Low(w, imm) > 0 && (Low(k, imm) == Low(w, imm) <==> w == k)
  {
    Pow32();
    PowMonotone(32, k);
    PowGrows(w - 1, w);
    if w > 32 {
      PowMonotone(32, w);
    }
    if w < k {
      PowGrows(w, k);
    }
    hide Low, Pow2;
    NegativeLow(k, imm);
    NegativeLow(w, imm);
  }

  /** An integer on which dividing by two different positive numbers differs. */
  lemma DivisionsDiffer(p: nat, d: nat)
    requires p > 0 && d > 0 && p != d
    ensures var a := if p < d then p else d; a / p != a / d && a % p != a % d
  {
    DivModUnique(p, p, 1, 0);
    DivModUnique(d, d, 1, 0);
    if p < d {
      DivModUnique(p, d, 0, p);
    } else {
      DivModUnique(d, p, 0, d);
    }
  }

  /** Code that divides by the wrong divisor leaves a wrong result in some state. */
  lemma WrongDivision(arch: Arch, w: nat, code: seq<Inst>, next: nat, rd: Register, op: BinaryOpcode, rs: Register,
                      imm: int)
    requires 1 <= w <= Xlen(arch) && FromConst(w, imm) && (op == UDiv || op == URem) && rs != ZERO
    requires !DivisorRight(arch, w, imm)
    requires Computes(arch, FormWidth(arch, op, w), code, next, rd, op, rs, Fixed(UsedDivisor(imm)))
    ensures !AgreesWithFold(arch, w, true, code, next, rd, op, rs, Fixed(imm))
  {
    hide Low, Pow2, InRange, Exec, KeepsOthers, UsedDivisor, DivisorRight, ValueAt, FormWidth, AgreesWithFold, Computes,
      Fold;
    DivisorBits(arch, w, imm);
    FormCovers(arch, w, op);
    SameForm(arch, w);
    var k := FormWidth(arch, op, w);
    var p, d := Low(k, UsedDivisor(imm)), Low(w, imm);
    var a := if p < d then p else d;
    DivisionsDiffer(p, d);
    LowInRange(w, imm);
    var X: Externals :| true;
    var st := AllRegisters(arch, w, a);
    ComputesAt(arch, k, code, next, rd, op, rs, Fixed(UsedDivisor(imm)), X, st);
    SmallEverywhere(arch, w, a);
    FoldedDivision(w, op, a, d);
    WrongQuotient(w, k, op, a, p, d);
    var result := Read(Exec(arch, X, code, st).regs, rd);
    LowOfLow(w, k, result);
    LowOfLow(w, k, ValueAt(k, op, a, p));
    LowOfLow(w, w, imm);
    if AgreesWithFold(arch, w, true, code, next, rd, op, rs, Fixed(imm)) {
      UnsignedReady(arch, w, op, a);
      AgreesAt(arch, w, true, code, next, rd, op, rs, Fixed(imm), X, st);
    }
  }

  lemma SameForm(arch: Arch, w: nat)
    ensures FormWidth(arch, UDiv, w) == FormWidth(arch, URem, w)
  {
  }

  /** A state in which every register holds the same small number. */
  lemma AllRegisters(arch: Arch, w: nat, a: nat) returns (st: State)
    requires w <= Xlen(arch) && a < Pow2(w)
    ensures InRange(arch, st.regs) && forall r: Register :: st.regs[r] == a
  {
    PowMonotone(w, Xlen(arch));
    var regs: Regs := imap r: Register :: SameValueFor(r, a);
    st := State(regs, map[]);
  }

  function SameValueFor(r: Register, a: nat): nat {
    a
  }

  lemma SmallEverywhere(arch: Arch, w: nat, a: nat)
    requires 1 <= w <= Xlen(arch) && a < Pow2(w)
    ensures Low(w, a) == a && Low(FormWidth(arch, UDiv, w), a) == a
  {
    var k := FormWidth(arch, UDiv, w);
    FormCovers(arch, w, UDiv);
    PowMonotone(w, k);
    LowSmall(w, a);
    LowSmall(k, a);
  }

  lemma UnsignedReady(arch: Arch, w: nat, op: BinaryOpcode, a: nat)
    requires 1 <= w <= Xlen(arch) && a < Pow2(w) && (op == UDiv || op == URem)
    ensures Ready(arch, w, op, a)
  {
    SmallEverywhere(arch, w, a);
    FormCovers(arch, w, op);
    PowMonotone(w, FormWidth(arch, op, w));
    hide Low, Pow2;
  }

  lemma FoldedDivision(w: nat, op: BinaryOpcode, a: nat, d: nat)
    requires 1 <= w <= 64 && a < Pow2(w) && 0 < d < Pow2(w) && (op == UDiv || op == URem)
    ensures Fold(op, CoreInt(a, w), CoreInt(d, w)).Some?
    ensures Fold(op, CoreInt(a, w), CoreInt(d, w)).value.value == if op == UDiv then a / d else a % d
  {
    QuotientSmall(a, d);
    LowSmall(w, a / d);
    LowSmall(w, a % d);
    hide Low, Pow2;
  }

  lemma QuotientSmall(a: nat, d: nat)
    requires d > 0
    ensures 0 <= a / d <= a && 0 <= a % d <= a
  {
    assert a == (a / d) * d + a % d;
    if a / d > a {
      MulMonotone(1, d, a / d);
    }
  }

  lemma WrongQuotient(w: nat, k: nat, op: BinaryOpcode, a: nat, p: nat, d: nat)
    requires 1 <= w <= k && a < Pow2(w) && p > 0 && d > 0 && (op == UDiv || op == URem)
    requires a / p != a / d && a % p != a % d
    ensures Low(w, ValueAt(k, op, a, p)) == (if op == UDiv then a / p else a % p)
    ensures Low(w, ValueAt(k, op, a, p)) != (if op == UDiv then a / d else a % d)
  {
    QuotientSmall(a, p);
    hide Pow2, Low, Bitwise, Signed;
    LowSmall(w, a / p);
    LowSmall(w, a % p);
  }

  lemma ComputesAt(arch: Arch, k: nat, code: seq<Inst>, next: nat, rd: Register, op: BinaryOpcode, rs: Register,
                   rhs: Rhs, X: Externals, st: State)
    requires k >= 1 && Computes(arch, k, code, next, rd, op, rs, rhs) && InRange(arch, st.regs)
    ensures Low(k, Read(Exec(arch, X, code, st).regs, rd))
      == Low(k, ValueAt(k, op, Low(k, Read(st.regs, rs)), RhsPattern(k, st.regs, rhs)))
  {
    hide Exec, InRange, Low, ValueAt, KeepsOthers;
  }

  lemma AgreesAt(arch: Arch, w: nat, both: bool, code: seq<Inst>, next: nat, rd: Register, op: BinaryOpcode,
                 rs: Register, rhs: Rhs, X: Externals, st: State)
    requires 1 <= w <= Xlen(arch) && AgreesWithFold(arch, w, both, code, next, rd, op, rs, rhs)
    requires ReadyAt(arch, w, both, op, rs, rhs, st.regs)
    ensures var st' := Exec(arch, X, code, st);
      KeepsOthers(next, rd, st, st')
        && ResultFolded(w, op, Read(st.regs, rs), RhsPattern(w, st.regs, rhs), Read(st'.regs, rd))
  {
    hide Exec, KeepsOthers, ResultFolded, ReadyAt;
  }

  /** Loading the constant and using the register form. */
  lemma ComputesByLi(arch: Arch, k: nat, op: BinaryOpcode, rd: Register, rs: Register, tmp: Register, imm: int,
                     next: nat)
    requires rd != ZERO && tmp != ZERO && !Allocated(tmp, next) && Allocated(rs, next) && Form(arch, k, op)
    ensures Computes(arch, k, [Li(tmp, imm), RegReg(FormOp(arch, k, op), rd, rs, tmp)], next, rd, op, rs, Fixed(imm))
  {
    var i2 := RegReg(FormOp(arch, k, op), rd, rs, tmp);
    hide Pow2, InRange, Low, ValueAt, Exec, FormOp;
    forall X, st: State | InRange(arch, st.regs)
      ensures var st' := Exec(arch, X, [Li(tmp, imm), i2], st);
        && KeepsOthers(next, rd, st, st')
        && Low(k, Read(st'.regs, rd))
             == Low(k, ValueAt(k, op, Low(k, Read(st.regs, rs)), RhsPattern(k, st.regs, Fixed(imm))))
    {
      assert [Li(tmp, imm)] + [i2] == [Li(tmp, imm), i2];
      ExecAppend(arch, X, [Li(tmp, imm)], [i2], st);
      LiStep(arch, k, X, tmp, imm, next, st);
      RegComputesAt(arch, k, op, rd, rs, tmp, next, X, Exec(arch, X, [Li(tmp, imm)], st));
    }
  }

  lemma RegComputesAt(arch: Arch, k: nat, op: BinaryOpcode, rd: Register, rs1: Register, rs2: Register, next: nat,
                      X: Externals, st: State)
    requires rd != ZERO && Form(arch, k, op) && InRange(arch, st.regs)
    ensures var st' := Exec(arch, X, [RegReg(FormOp(arch, k, op), rd, rs1, rs2)], st);
      && KeepsOthers(next, rd, st, st')
      && Low(k, Read(st'.regs, rd))
           == Low(k, ValueAt(k, op, Low(k, Read(st.regs, rs1)), RhsPattern(k, st.regs, InReg(rs2))))
  {
    ComputesRegForm(arch, k, op, rd, rs1, rs2, next);
    hide InRange, Exec, KeepsOthers, Low, ValueAt, FormOp;
  }

  lemma LiStep(arch: Arch, k: nat, X: Externals, tmp: Register, imm: int, next: nat, st: State)
    requires tmp != ZERO && !Allocated(tmp, next) && InRange(arch, st.regs) && k <= Xlen(arch)
    ensures var mid := Exec(arch, X, [Li(tmp, imm)], st);
      InRange(arch, mid.regs) && Undisturbed(next, st, mid) && Low(k, Read(mid.regs, tmp)) == Low(k, imm)
  {
    hide Pow2, Low, InRange, Step, Exec;
    ExecInRange(arch, X, [Li(tmp, imm)], st);
    Exec1(arch, X, Li(tmp, imm), st);
    StepCompute(arch, X, Li(tmp, imm), st);
    LowOfLow(k, Xlen(arch), imm);
  }

  lemma SubIsAddNegated(k: nat, a: nat, imm: int)
    requires k >= 1
    ensures Low(k, ValueAt(k, BinaryOpcode.Add, Low(k, a), Low(k, -imm)))
      == Low(k, ValueAt(k, BinaryOpcode.Sub, Low(k, a), Low(k, imm)))
  {
    LowOfLow(k, k, -imm);
    LowOfLow(k, k, imm);
    LowAdd(k, Low(k, a), Low(k, -imm), Low(k, a), -imm);
    LowAdd(k, Low(k, a), Low(k, imm), Low(k, a), imm);
    hide Low, Pow2;
  }

  lemma ComputesBySubImm(arch: Arch, k: nat, rd: Register, rs: Register, imm: int, next: nat)
    requires rd != ZERO && Form(arch, k, BinaryOpcode.Add)
    ensures Computes(arch, k, [RegImm(FormImm(arch, k, BinaryOpcode.Add), rd, rs, -imm)], next, rd, BinaryOpcode.Sub,
      rs,
      Fixed(imm))
  {
    hide Low, Pow2, ValueAt, Computes, FormImm;
    var code := [RegImm(FormImm(arch, k, BinaryOpcode.Add), rd, rs, -imm)];
    ComputesImmForm(arch, k, BinaryOpcode.Add, rd, rs, -imm, next);
    forall a: nat
      ensures Low(k, ValueAt(k, BinaryOpcode.Add, Low(k, a), Low(k, -imm)))
        == Low(k, ValueAt(k, BinaryOpcode.Sub, Low(k, a), Low(k, imm)))
    {
      SubIsAddNegated(k, a, imm);
    }
    SameValue(arch, k, code, next, rd, BinaryOpcode.Add, BinaryOpcode.Sub, rs, Fixed(-imm), Fixed(imm));
  }

  /** Whether the specialised code for a constant does what folding does. */
  predicate ConstRight(arch: Arch, w: nat, op: BinaryOpcode, imm: int) {
    op == UDiv || op == URem ==> DivisorRight(arch, w, imm)
  }

  /** What is left to say when code computes the operator with the divisor, or constant, it uses. */
  lemma ConstAgrees(arch: Arch, w: nat, code: seq<Inst>, next: nat, rd: Register, op: BinaryOpcode, rs: Register,
                    imm: int)
    requires 1 <= w <= Xlen(arch) && FromConst(w, imm) && (IsShift(op) ==> imm >= 0)
    requires var used := if op == UDiv || op == URem then UsedDivisor(imm) else imm;
      if ReadsSigned(op) then ComputesOn(arch, FormWidth(arch, op, w), w, code, next, rd, op, rs, Fixed(used))
      else Computes(arch, FormWidth(arch, op, w), code, next, rd, op, rs, Fixed(used))
    ensures ConstRight(arch, w, op, imm) ==> AgreesWithFold(arch, w, true, code, next, rd, op, rs, Fixed(imm))
    ensures !ConstRight(arch, w, op, imm) && rs != ZERO ==>
      !AgreesWithFold(arch, w, true, code, next, rd, op, rs, Fixed(imm))
  {
    hide Computes, ComputesOn, AgreesWithFold, Low, Pow2, FormWidth, DivisorRight, UsedDivisor, ConstSuits;
    if op == UDiv || op == URem {
      if DivisorRight(arch, w, imm) {
        DivisorSuits(arch, w, op, imm);
        ComputesAgrees(arch, w, code, next, rd, op, rs, Fixed(UsedDivisor(imm)), Fixed(imm));
      } else if rs != ZERO {
        WrongDivision(arch, w, code, next, rd, op, rs, imm);
      }
    } else {
      ConstantSuits(arch, w, op, imm);
      ComputesAgrees(arch, w, code, next, rd, op, rs, Fixed(imm), Fixed(imm));
    }
  }

  lemma DivisorSuits(arch: Arch, w: nat, op: BinaryOpcode, imm: int)
    requires 1 <= w <= Xlen(arch) && FromConst(w, imm) && (op == UDiv || op == URem) && DivisorRight(arch, w, imm)
    ensures ConstSuits(arch, w, op, UsedDivisor(imm), imm)
  {
    DivisorBits(arch, w, imm);
    SameForm(arch, w);
    FormCovers(arch, w, op);
    LowInRange(FormWidth(arch, op, w), UsedDivisor(imm));
    LowInRange(w, imm);
    hide Low, Pow2, DivisorRight, UsedDivisor;
  }

  /** On RV64, from a sign-extended rs holding v, the code leaves rd sign-extended exactly when the
      constant does not overflow on v. */
  ghost predicate TrustExactly(code: seq<Inst>, rd: Register, op: BinaryOpcode, rs: Register, imm: int) {
    forall X, st: State :: InRange(RV64, st.regs) && Extended32(Read(st.regs, rs)) ==>
      (Extended32(Read(Exec(RV64, X, code, st).regs, rd)) <==> !Overflows(op, Signed(32, Read(st.regs, rs)), imm))
  }

  lemma ValueTrust(code: seq<Inst>, rd: Register, op: BinaryOpcode, rs: Register, imm: int)
    requires op == BinaryOpcode.Mul || op == SDiv || op == SRem
    requires IsI32(imm) && (op != BinaryOpcode.Mul ==> SdivHandled(imm)) && LeavesValue(code, rd, op, rs, imm)
    ensures TrustExactly(code, rd, op, rs, imm)
  {
    hide Exec, InRange, Low, Signed, Pow2, LeftValue, Overflows, TruncDiv, MulValue;
    forall X, st: State | InRange(RV64, st.regs) && Extended32(Read(st.regs, rs))
      ensures Extended32(Read(Exec(RV64, X, code, st).regs, rd)) <==> !Overflows(op, Signed(32, Read(st.regs, rs)), imm)
    {
      var v := Signed(32, Read(st.regs, rs));
      SignedIsI32(Read(st.regs, rs));
      LeftRange(op, v, imm);
      ExtendedExactly(LeftValue(op, v, imm));
    }
  }

  lemma LeftRange(op: BinaryOpcode, v: int, imm: int)
    requires op == BinaryOpcode.Mul || op == SDiv || op == SRem
    requires IsI32(v) && IsI32(imm) && (op != BinaryOpcode.Mul ==> SdivHandled(imm))
    ensures var t := LeftValue(op, v, imm);
      -0x8000_0000_0000_0000 <= t < 0x8000_0000_0000_0000 && (IsI32(t) <==> !Overflows(op, v, imm))
  {
    hide TruncDiv, MulValue, Signed, Overflows;
    match op {
      case SDiv => DivRange(v, imm);
      case SRem => RemRange(v, imm);
      case Mul => MulRange(v, imm);
    }
  }

  lemma ExtendedTrust(code: seq<Inst>, rd: Register, op: BinaryOpcode, rs: Register, imm: int)
    requires LeavesExtended(code, rd, rs) && op != BinaryOpcode.Mul && op != SDiv && op != SRem
    ensures TrustExactly(code, rd, op, rs, imm)
  {
    hide Exec, Extended32, InRange, Signed;
  }

  /** A W form at the end: sign-extended whatever came before. */
  lemma WTrust(code: seq<Inst>, inst: Inst, op: BinaryOpcode, rs: Register, imm: int)
    requires IsW(inst) && inst.rd != ZERO && NeverOverflows(op, imm)
    ensures TrustExactly(code + [inst], inst.rd, op, rs, imm)
  {
    hide Exec, Extended32, InRange, Overflows;
    forall X, st: State | InRange(RV64, st.regs) && Extended32(Read(st.regs, rs))
      ensures Extended32(Read(Exec(RV64, X, code + [inst], st).regs, inst.rd))
      ensures !Overflows(op, Signed(32, Read(st.regs, rs)), imm)
    {
      LastIsW(X, code, inst, st);
    }
  }

  ghost predicate NeverOverflows(op: BinaryOpcode, imm: int) {
    forall v: int :: !Overflows(op, v, imm)
  }

  lemma FormIsW(op: BinaryOpcode, rd: Register, rs1: Register, rs2: Register)
    requires HasMachineForm(op)
    ensures IsW(RegReg(FormOp(RV64, 32, op), rd, rs1, rs2))
  {
  }

  lemma ImmAgrees(arch: Arch, w: nat, op: BinaryOpcode, rd: Register, rs: Register, imm: int, next: nat)
    requires 1 <= w <= Xlen(arch) && FromConst(w, imm) && rd != ZERO && HasImmForm(op)
    requires IsShift(op) ==> 0 <= imm < 64
    ensures AgreesWithFold(arch, w, true, [RegImm(FormImm(arch, FormWidth(arch, op, w), op), rd, rs, imm)], next, rd,
      op,
      rs, Fixed(imm))
  {
    hide AgreesWithFold, Computes, ComputesOn, FormWidth, FromConst, FormImm;
    var k := FormWidth(arch, op, w);
    var code := [RegImm(FormImm(arch, k, op), rd, rs, imm)];
    FormCovers(arch, w, op);
    ComputesImmForm(arch, k, op, rd, rs, imm, next);
    if op == AShr {
      ComputesOnAny(arch, k, w, code, next, rd, op, rs, Fixed(imm));
    }
    ConstAgrees(arch, w, code, next, rd, op, rs, imm);
  }

  /** A constant shift of a 32-bit value by 32 to 63 on RV64: the limit is that of the whole register, the
      form that of a word. Such a shift is undefined, but its code cannot be encoded. */
  predicate ShiftedTooFar(arch: Arch, w: nat, op: BinaryOpcode, imm: int) {
    arch == RV64 && w == 32 && IsShift(op) && 32 <= imm < 64
  }

  lemma EncodedForm(arch: Arch, w: nat, op: BinaryOpcode, rd: Register, rs: Register, imm: int, out: seq<Inst>)
    requires HasImmForm(op) && if IsShift(op) then 0 <= imm < Xlen(arch) else FitsImm12(imm)
    ensures Encoded(arch, out, out + [RegImm(FormImm(arch, FormWidth(arch, op, w), op), rd, rs, imm)])
      <==> !ShiftedTooFar(arch, w, op, imm)
  {
    var inst := RegImm(FormImm(arch, FormWidth(arch, op, w), op), rd, rs, imm);
    assert (out + [inst])[|out|..] == [inst];
    assert inst in [inst];
  }

  lemma EncodedRegForm(arch: Arch, w: nat, op: BinaryOpcode, rd: Register, rs1: Register, rs2: Register,
                       before: seq<Inst>, after: seq<Inst>)
    requires Encoded(arch, before, after)
    ensures Encoded(arch, before, after + [RegReg(FormOp(arch, FormWidth(arch, op, w), op), rd, rs1, rs2)])
  {
    var inst := RegReg(FormOp(arch, FormWidth(arch, op, w), op), rd, rs1, rs2);
    assert Encodable(arch, inst);
    hide Encoded, FormOp;
    EncodedOne(arch, before, after, inst);
  }

  predicate MulDivRem(op: BinaryOpcode) {
    op == BinaryOpcode.Mul || op == UDiv || op == SDiv || op == URem || op == SRem
  }

  /** 12-bit immediates and in-range shifts. */
  method LowerByImmediate(arch: Arch, w: nat, op: BinaryOpcode, rawRd: Register, rs1: Register, imm: int,
                          out: seq<Inst>, ghost next: nat)
    returns (done: bool, out': seq<Inst>)
    requires 1 <= w <= Xlen(arch) && FromConst(w, imm) && !MulDivRem(op) && rawRd != ZERO
    ensures out <= out' && (!done ==> out' == out)
    ensures done && ConstRight(arch, w, op, imm) ==>
      AgreesWithFold(arch, w, true, out'[|out|..], next, rawRd, op, rs1, Fixed(imm))
    ensures done && !ConstRight(arch, w, op, imm) && rs1 != ZERO ==>
      !AgreesWithFold(arch, w, true, out'[|out|..], next, rawRd, op, rs1, Fixed(imm))
    ensures done && arch == RV64 && w == 32 && HasMachineForm(op) ==> TrustExactly(out'[|out|..], rawRd, op, rs1, imm)
    ensures !done ==> NeverOverflows(op, imm)
    ensures Encoded(arch, out, out') <==> !ShiftedTooFar(arch, w, op, imm)
  {
    hide AgreesWithFold, Computes, ComputesOn, Low, Pow2, ValueAt, FromConst, DivisorRight, UsedDivisor, TrustExactly,
      IsW, NeverOverflows, Overflows, Encoded;
    EncodedNothing(arch, out);
    PlainNever(op, imm);
    var k := FormWidth(arch, op, w);
    FormCovers(arch, w, op);
    if op == BinaryOpcode.Sub {
      if imm != -0x8000_0000 && FitsImm12(-imm) {
        EncodedFirst(arch, out, RegImm(FormImm(arch, k, BinaryOpcode.Add), rawRd, rs1, -imm));
        out' := out + [RegImm(FormImm(arch, k, BinaryOpcode.Add), rawRd, rs1, -imm)];
        assert out'[|out|..] == [RegImm(FormImm(arch, k, BinaryOpcode.Add), rawRd, rs1, -imm)];
        ComputesBySubImm(arch, k, rawRd, rs1, imm, next);
        ConstAgrees(arch, w, out'[|out|..], next, rawRd, op, rs1, imm);
        if arch == RV64 && w == 32 {
          ImmTrust(BinaryOpcode.Add, op, rawRd, rs1, -imm, imm);
        }
        return true, out';
      }
      return false, out;
    }
    if (if IsShift(op) then 0 <= imm < Xlen(arch) else FitsImm12(imm)) {
      EncodedForm(arch, w, op, rawRd, rs1, imm, out);
      out' := out + [RegImm(FormImm(arch, k, op), rawRd, rs1, imm)];
      assert out'[|out|..] == [RegImm(FormImm(arch, k, op), rawRd, rs1, imm)];
      ImmAgrees(arch, w, op, rawRd, rs1, imm, next);
      if arch == RV64 && w == 32 {
        ImmTrust(op, op, rawRd, rs1, imm, imm);
      }
      return true, out';
    }
    return false, out;
  }

  /** A constant that no short sequence stands for, loaded into a register of its own. */
  method LowerByLoading(arch: Arch, w: nat, op: BinaryOpcode, rawRd: Register, rs1: Register, imm: int,
                        out: seq<Inst>, fn: MachineFunction)
    returns (out': seq<Inst>)
    requires 1 <= w <= Xlen(arch) && FromConst(w, imm) && MulDivRem(op)
    requires op == BinaryOpcode.Mul ==> !MulHandled(imm)
    requires op == SDiv || op == SRem ==> !SdivHandled(imm)
    requires op == UDiv || op == URem ==> !IsPowerOfTwo(AsU32(imm))
    requires rawRd != ZERO && Allocated(rawRd, fn.nextVreg) && Allocated(rs1, fn.nextVreg)
    modifies fn`nextVreg
    ensures fn.nextVreg >= old(fn.nextVreg) && out <= out'
    ensures ConstRight(arch, w, op, imm) ==>
      AgreesWithFold(arch, w, true, out'[|out|..], old(fn.nextVreg), rawRd, op, rs1, Fixed(imm))
    ensures !ConstRight(arch, w, op, imm) && rs1 != ZERO ==>
      !AgreesWithFold(arch, w, true, out'[|out|..], old(fn.nextVreg), rawRd, op, rs1, Fixed(imm))
    ensures arch == RV64 && w == 32 && HasMachineForm(op) ==> TrustExactly(out'[|out|..], rawRd, op, rs1, imm)
    ensures Encoded(arch, out, out') <==> !ShiftedTooFar(arch, w, op, imm)
  {
    hide AgreesWithFold, Computes, ComputesOn, Low, Pow2, ValueAt, FromConst, DivisorRight, UsedDivisor, TrustExactly,
      IsW, NeverOverflows, Overflows, Encoded, MulHandled, SdivHandled, IsPowerOfTwo;
    assert IsI32(imm) by { ConstFits(w, imm); }
    var k := FormWidth(arch, op, w);
    FormCovers(arch, w, op);
    ghost var next := fn.nextVreg;
    var immReg := fn.NewVreg();
    out' := out + [Li(immReg, imm)];
    EncodedFirst(arch, out, Li(immReg, imm));
    EncodedRegForm(arch, w, op, rawRd, rs1, immReg, out, out');
    out' := out' + [RegReg(FormOp(arch, k, op), rawRd, rs1, immReg)];
    assert out'[|out|..] == [Li(immReg, imm), RegReg(FormOp(arch, k, op), rawRd, rs1, immReg)];
    ComputesByLi(arch, k, op, rawRd, rs1, immReg, imm, next);
    if op == UDiv || op == URem {
      LoadedIsUsed(imm);
    }
    if ReadsSigned(op) {
      ComputesOnAny(arch, k, w, out'[|out|..], next, rawRd, op, rs1, Fixed(imm));
    }
    ConstAgrees(arch, w, out'[|out|..], next, rawRd, op, rs1, imm);
    if arch == RV64 && w == 32 {
      LiTrust(op, rawRd, rs1, immReg, imm);
    }
  }

  /** The specialised lowering of `rs op imm`, when there is one: mul, div and rem by constants,
      12-bit immediates, and in-range shifts. It does what folding does, with one exception: an
      unsigned division or remainder by a constant whose top bit is set, at most widths. */
  method LowerByConst(arch: Arch, w: nat, op: BinaryOpcode, rawRd: Register, rs1: Register, imm: int, out: seq<Inst>,
                      fn: MachineFunction)
    returns (done: bool, out': seq<Inst>)
    requires 1 <= w <= Xlen(arch) && FromConst(w, imm)
    requires rawRd != ZERO && Allocated(rawRd, fn.nextVreg) && Allocated(rs1, fn.nextVreg)
    modifies fn`nextVreg
    ensures fn.nextVreg >= old(fn.nextVreg) && out <= out'
    ensures !done ==> out' == out && op != UDiv && op != URem
    ensures done && ConstRight(arch, w, op, imm) ==>
      AgreesWithFold(arch, w, true, out'[|out|..], old(fn.nextVreg), rawRd, op, rs1, Fixed(imm))
    ensures done && !ConstRight(arch, w, op, imm) && rs1 != ZERO ==>
      !AgreesWithFold(arch, w, true, out'[|out|..], old(fn.nextVreg), rawRd, op, rs1, Fixed(imm))
    ensures done && arch == RV64 && w == 32 && HasMachineForm(op) ==> TrustExactly(out'[|out|..], rawRd, op, rs1, imm)
    ensures !done ==> NeverOverflows(op, imm)
    ensures Encoded(arch, out, out') <==> !ShiftedTooFar(arch, w, op, imm)
  {
    hide AgreesWithFold, Computes, ComputesOn, Low, Pow2, ValueAt, FromConst, DivisorRight, UsedDivisor, TrustExactly,
      LeavesValue, LeavesExtended, IsW, NeverOverflows, Overflows, Encoded, MulHandled, SdivHandled, IsPowerOfTwo;
    assert IsI32(imm) by { ConstFits(w, imm); }
    ghost var next := fn.nextVreg;
    var k := FormWidth(arch, op, w);
    var ok := false;
    out' := out;
    match op {
      case Mul => ok, out' := EmitMulConst(arch, rawRd, rs1, imm, w, out, fn);
      case UDiv => U32Pattern(imm); ok, out' := EmitUdivConst(arch, rawRd, rs1, AsU32(imm), w, out, fn.nextVreg);
      case SDiv => ok, out' := EmitSdivConst(arch, rawRd, rs1, imm, w, out, fn);
      case URem => U32Pattern(imm); ok, out' := EmitUremConst(arch, rawRd, rs1, AsU32(imm), out, fn, k);
      case SRem => ok, out' := EmitSremConst(arch, rawRd, rs1, imm, w, out, fn);
      case _ =>
        done, out' := LowerByImmediate(arch, w, op, rawRd, rs1, imm, out, next);
        return;
    }
    done := true;
    if ok {
      ShortFormAgrees(arch, w, op, out'[|out|..], next, rawRd, rs1, imm);
    } else {
      out' := LowerByLoading(arch, w, op, rawRd, rs1, imm, out, fn);
    }
  }

  /** What the short sequences for multiplication, division and remainder promise is what is needed. */
  lemma ShortFormAgrees(arch: Arch, w: nat, op: BinaryOpcode, code: seq<Inst>, next: nat, rd: Register, rs: Register,
                        imm: int)
    requires 1 <= w <= Xlen(arch) && FromConst(w, imm) && MulDivRem(op)
    requires op == UDiv || op == URem ==> IsPowerOfTwo(AsU32(imm))
    requires op == SDiv || op == SRem ==> SdivHandled(imm)
    requires var used := if op == UDiv || op == URem then AsU32(imm) else imm;
      if ReadsSigned(op) then ComputesOn(arch, FormWidth(arch, op, w), w, code, next, rd, op, rs, Fixed(used))
      else Computes(arch, FormWidth(arch, op, w), code, next, rd, op, rs, Fixed(used))
    requires arch == RV64 && w == 32 ==>
      if op == UDiv || op == URem then LeavesExtended(code, rd, rs) else LeavesValue(code, rd, op, rs, imm)
    ensures ConstRight(arch, w, op, imm) ==> AgreesWithFold(arch, w, true, code, next, rd, op, rs, Fixed(imm))
    ensures !ConstRight(arch, w, op, imm) && rs != ZERO ==>
      !AgreesWithFold(arch, w, true, code, next, rd, op, rs, Fixed(imm))
    ensures arch == RV64 && w == 32 ==> TrustExactly(code, rd, op, rs, imm)
  {
    hide AgreesWithFold, Computes, ComputesOn, Low, Pow2, ValueAt, DivisorRight, UsedDivisor, TrustExactly,
      LeavesValue, LeavesExtended, IsPowerOfTwo, SdivHandled, FromConst;
    assert IsI32(imm) by { ConstFits(w, imm); }
    if op == UDiv || op == URem {
      PowerIsUsed(imm);
    }
    ConstAgrees(arch, w, code, next, rd, op, rs, imm);
    if arch == RV64 && w == 32 {
      if op == UDiv || op == URem {
        ExtendedTrust(code, rd, op, rs, imm);
      } else {
        ValueTrust(code, rd, op, rs, imm);
      }
    }
  }

  /** Only negative powers of two overflow, and those never get here. */
  lemma PlainNever(op: BinaryOpcode, imm: int)
    requires op != BinaryOpcode.Mul && op != SDiv && op != SRem
    ensures NeverOverflows(op, imm)
  {
  }

  lemma ImmTrust(form: BinaryOpcode, op: BinaryOpcode, rd: Register, rs: Register, imm: int, meant: int)
    requires HasImmForm(form) && rd != ZERO && op != BinaryOpcode.Mul && op != SDiv && op != SRem
    ensures HasMachineForm(form) ==>
      TrustExactly([RegImm(FormImm(RV64, 32, form), rd, rs, imm)], rd, op, rs, meant)
  {
    if HasMachineForm(form) {
      var inst := RegImm(FormImm(RV64, 32, form), rd, rs, imm);
      assert IsW(inst);
      PlainNever(op, meant);
      hide TrustExactly, IsW, NeverOverflows;
      WTrust([], inst, op, rs, meant);
      assert [] + [inst] == [inst];
    }
  }

  lemma LiTrust(op: BinaryOpcode, rd: Register, rs: Register, tmp: Register, imm: int)
    requires op == BinaryOpcode.Mul || op == SDiv || op == SRem || op == UDiv || op == URem
    requires op == BinaryOpcode.Mul ==> !MulHandled(imm)
    requires (op == SDiv || op == SRem) ==> !SdivHandled(imm)
    requires rd != ZERO
    ensures TrustExactly([Li(tmp, imm), RegReg(FormOp(RV64, 32, op), rd, rs, tmp)], rd, op, rs, imm)
  {
    var inst := RegReg(FormOp(RV64, 32, op), rd, rs, tmp);
    FormIsW(op, rd, rs, tmp);
    UnhandledNever(op, imm);
    hide TrustExactly, IsW, NeverOverflows;
    WTrust([Li(tmp, imm)], inst, op, rs, imm);
    assert [Li(tmp, imm)] + [inst] == [Li(tmp, imm), inst];
  }

  lemma UnhandledNever(op: BinaryOpcode, imm: int)
    requires op == BinaryOpcode.Mul ==> !MulHandled(imm)
    requires (op == SDiv || op == SRem) ==> !SdivHandled(imm)
    ensures NeverOverflows(op, imm)
  {
    assert imm < 0 ==> Abs(imm) == -imm;
    assert IsPowerOfTwo(1);
    hide IsPowerOfTwo, Signed;
  }

  lemma ConstFits(w: nat, imm: int)
    requires FromConst(w, imm)
    ensures IsI32(imm)
  {
  }

  lemma PowerIsUsed(imm: int)
    requires IsI32(imm) && IsPowerOfTwo(AsU32(imm))
    ensures UsedDivisor(imm) == AsU32(imm)
  {
  }

  lemma LoadedIsUsed(imm: int)
    requires IsI32(imm) && !IsPowerOfTwo(AsU32(imm))
    ensures UsedDivisor(imm) == imm
  {
  }

  // ---------------------------------------------------------------- the whole arm

  /** The code computes `lhs op rhs` as folding would, whenever folding is defined. */
  ghost predicate LowersTo(arch: Arch, w: nat, code: seq<Inst>, next: nat, rd: Register, op: BinaryOpcode, lhs: Operand,
                           rhs: Operand, vregs: VRegs)
    requires 1 <= w <= Xlen(arch)
  {
    forall X, st: State :: InRange(arch, st.regs) ==>
      var st' := Exec(arch, X, code, st);
      && KeepsOthers(next, rd, st, st')
      && ResultFolded(w, op, OperandValue(arch, X, vregs, lhs, st.regs), OperandValue(arch, X, vregs, rhs, st.regs),
           Read(st'.regs, rd))
  }

  lemma PrependLhs(arch: Arch, w: nat, c1: seq<Inst>, c2: seq<Inst>, n1: nat, n2: nat, rd: Register, op: BinaryOpcode,
                   lhs: Operand, r1: Register, rhs: Operand, imm: int, vregs: VRegs)
    requires 1 <= w <= Xlen(arch) && n1 <= n2 && Loads(arch, c1, n1, r1, lhs, vregs)
    requires AgreesAnyhow(arch, w, c2, n2, rd, op, r1, Fixed(imm))
    requires rhs.ConstInt? && rhs.c.Valid() && imm == ToI32(rhs.c.AsI64())
    ensures LowersTo(arch, w, c1 + c2, n1, rd, op, lhs, rhs, vregs)
  {
    hide Pow2, Exec, InRange, Low, Fold;
    forall X, st: State | InRange(arch, st.regs)
      ensures var st' := Exec(arch, X, c1 + c2, st);
        && KeepsOthers(n1, rd, st, st')
        && ResultFolded(w, op, OperandValue(arch, X, vregs, lhs, st.regs), OperandValue(arch, X, vregs, rhs, st.regs),
             Read(st'.regs, rd))
    {
      ExecAppend(arch, X, c1, c2, st);
      ExecInRange(arch, X, c1, st);
      LowOfLow(w, Xlen(arch), imm);
      LowOfLow(w, w, imm);
    }
  }

  /** Normalising an integer to its width where the register is wider and the operator computes at the
      register's width. */
  method NormaliseTo(arch: Arch, rs: Register, w: nat, ghost op: BinaryOpcode, signed: bool, needed: bool,
                     ghost ready: bool, out: seq<Inst>, fn: MachineFunction)
    returns (r: Register, out': seq<Inst>)
    requires Allocated(rs, fn.nextVreg) && 1 <= w <= Xlen(arch) && needed == (FormWidth(arch, op, w) == Xlen(arch))
    requires ready ==> signed == ReadsSigned(op)
    requires needed || w == 32
    modifies fn`nextVreg
    ensures fn.nextVreg >= old(fn.nextVreg) && out <= out' && Allocated(r, fn.nextVreg)
    ensures Carries(arch, w, op, ready, out'[|out|..], old(fn.nextVreg), r, rs)
    ensures r == rs || (r != ZERO && !Allocated(r, old(fn.nextVreg)))
    ensures !needed ==> r == rs && out' == out
    ensures Encoded(arch, out, out')
  {
    hide Normalises, Carries, Encoded;
    EncodedNothing(arch, out);
    r, out' := rs, out;
    assert out'[|out|..] == [];
    if needed && w < Xlen(arch) {
      if signed {
        r, out' := EmitSignExtendedValue(arch, rs, w, out, fn);
      } else {
        r, out' := EmitMaskedValue(arch, rs, w, out, fn);
      }
      NormaliseCarries(arch, w, op, ready, out'[|out|..], old(fn.nextVreg), r, rs, signed);
    } else {
      NothingCarries(arch, w, op, old(fn.nextVreg), rs);
      CarriesUnready(arch, w, op, [], old(fn.nextVreg), rs, rs);
    }
  }

  lemma CarriesUnready(arch: Arch, w: nat, op: BinaryOpcode, code: seq<Inst>, next: nat, r: Register, rs: Register)
    requires 1 <= w <= Xlen(arch) && Carries(arch, w, op, true, code, next, r, rs)
    ensures Carries(arch, w, op, false, code, next, r, rs)
  {
    hide Exec, InRange, Low, Ready;
  }

  /** The operators whose result is sign-extended rather than masked. */
  predicate ResultSigned(op: BinaryOpcode) {
    op == BinaryOpcode.Add || op == BinaryOpcode.Sub || op == BinaryOpcode.Mul || ReadsSigned(op)
  }

  /** Where the result is normalised, its copy to rd closes the sequence. */
  method FinishResult(arch: Arch, w: nat, rawRd: Register, rd: Register, needed: bool, op: BinaryOpcode,
                      ghost rs1: Register, ghost rhs: Rhs, ghost start: nat, out: seq<Inst>, ghost next: nat,
                      ghost right: bool, fn: MachineFunction)
    returns (out': seq<Inst>)
    requires 1 <= w <= Xlen(arch) && needed == (FormWidth(arch, op, w) == Xlen(arch)) && (needed || w == 32)
    requires start <= |out| && (right ==> AgreesWithFold(arch, w, true, out[start..], next, rawRd, op, rs1, rhs))
    requires next <= fn.nextVreg && Allocated(rawRd, fn.nextVreg) && rawRd != ZERO && rd != ZERO && Allocated(rd, next)
    requires if needed then !Allocated(rawRd, next) else rawRd == rd
    modifies fn`nextVreg
    ensures fn.nextVreg >= old(fn.nextVreg) && out <= out'
    ensures right ==> AgreesWithFold(arch, w, true, out'[start..], next, rd, op, rs1, rhs)
    ensures !needed ==> out' == out
    ensures Encoded(arch, out, out')
  {
    hide AgreesWithFold, Carries, Encoded;
    EncodedNothing(arch, out);
    out' := out;
    if needed {
      ghost var n2 := fn.nextVreg;
      var normalized, out1 := NormaliseTo(arch, rawRd, w, op, ResultSigned(op), true, false, out, fn);
      assert out1[start..] == out[start..] + out1[|out|..];
      EncodedCopy(arch, out, out1, rd, normalized);
      out' := EmitCopyOrMove(rd, normalized, out1);
      assert out'[start..] == out1[start..] + [Mv(rd, normalized)];
      if right {
        CarryResult(arch, w, out[start..], out1[|out|..], next, n2, rawRd, normalized, op, rs1, rhs);
        MoveResult(arch, w, out1[start..], next, normalized, rd, op, rs1, rhs);
      }
    }
  }

  /** What the lowering asks of a constant on the right: that its division is lowered right. */
  predicate RhsRight(arch: Arch, w: nat, op: BinaryOpcode, rhs: Operand) {
    rhs.ConstInt? && rhs.c.Valid() ==> ConstRight(arch, w, op, ToI32(rhs.c.AsI64()))
  }

  /** Eight bits, 200 by 200: the divisor is loaded as -56, not masked, and the quotient is zero. */
  lemma NarrowDivisionFails(arch: Arch)
    ensures var c := CoreInt(200, 8);
      && c.Valid() && ToI32(c.AsI64()) == -56 && !DivisorRight(arch, 8, -56) && UsedDivisor(-56) == -56
      && Fold(UDiv, c, c) == Some(CoreInt(1, 8))
      && EvalRegOp(arch, FormOp(arch, FormWidth(arch, UDiv, 8), UDiv), 200, Low(Xlen(arch), -56)) == 0
  {
    hide Fold, EvalRegOp, ToI32, IsPowerOfTwo, Low, FormOp;
    PowerOfTwoHigh(AsU32(-56));
    NarrowFold();
    NarrowQuotient(arch);
  }

  lemma NarrowFold()
    ensures var c := CoreInt(200, 8);
      c.Valid() && ToI32(c.AsI64()) == -56 && Fold(UDiv, c, c) == Some(CoreInt(1, 8))
  {
    hide ToI32, Low;
    assert Pow2(8) == 256 && Pow2(7) == 128;
    var c := CoreInt(200, 8);
    LowSmall(8, 200);
    ConstReading(c);
    LowSmall(8, 1);
  }

  lemma NarrowQuotient(arch: Arch)
    ensures EvalRegOp(arch, FormOp(arch, FormWidth(arch, UDiv, 8), UDiv), 200, Low(Xlen(arch), -56)) == 0
  {
    hide Low;
    Pow32();
    PowMonotone(32, Xlen(arch));
    NegativeLow(Xlen(arch), -56);
    hide Pow2, Bitwise, Signed, Word, DivS, RemS, RemU;
  }

  /** The part of the arm for a constant on the right: raw result, normalisation, copy. */
  method LowerConstRhs(arch: Arch, w: nat, op: BinaryOpcode, rs1: Register, imm: int, rd: Register, out: seq<Inst>,
                       fn: MachineFunction)
    returns (done: bool, out': seq<Inst>)
    requires 1 <= w <= Xlen(arch) && FromConst(w, imm) && Allocated(rs1, fn.nextVreg)
    requires rd != ZERO && Allocated(rd, fn.nextVreg)
    modifies fn`nextVreg
    ensures fn.nextVreg >= old(fn.nextVreg) && out <= out' && (!done ==> out' == out)
    ensures done && ConstRight(arch, w, op, imm) ==>
      AgreesWithFold(arch, w, true, out'[|out|..], old(fn.nextVreg), rd, op, rs1, Fixed(imm))
    ensures done && arch == RV64 && w == 32 && HasMachineForm(op) ==> TrustExactly(out'[|out|..], rd, op, rs1, imm)
    ensures !done ==> NeverOverflows(op, imm)
    ensures Encoded(arch, out, out') <==> !ShiftedTooFar(arch, w, op, imm)
  {
    hide AgreesWithFold, Low, Pow2, DivisorRight, FromConst, TrustExactly, NeverOverflows, Encoded, ShiftedTooFar;
    ghost var next := fn.nextVreg;
    var wide := FormWidth(arch, op, w) == Xlen(arch);
    var rawRd := rd;
    if wide {
      rawRd := fn.NewVreg();
    }
    ghost var n2, right := fn.nextVreg, ConstRight(arch, w, op, imm);
    done, out' := LowerByConst(arch, w, op, rawRd, rs1, imm, out, fn);
    if done {
      if right {
        AgreesEarlier(arch, w, out'[|out|..], next, n2, rawRd, op, rs1, Fixed(imm));
      }
      ghost var raw := out';
      out' := FinishResult(arch, w, rawRd, rd, wide, op, rs1, Fixed(imm), |out|, out', next, right, fn);
      EncodedBefore(arch, out, raw, out');
    }
  }

  /** What follows encodable code decides for both. */
  lemma EncodedBefore(arch: Arch, a: seq<Inst>, b: seq<Inst>, c: seq<Inst>)
    requires a <= b && Encoded(arch, b, c)
    ensures Encoded(arch, a, c) <==> Encoded(arch, a, b)
  {
    assert c[|a|..] == b[|a|..] + c[|b|..];
    hide Encodable;
  }

  /** The left operand is ready in rs; the code brings in the right one and computes the result. */
  ghost predicate RightLowers(arch: Arch, w: nat, code: seq<Inst>, next: nat, rd: Register, op: BinaryOpcode,
                              rs: Register, rhs: Operand, vregs: VRegs)
    requires 1 <= w <= Xlen(arch)
  {
    forall X, st: State :: InRange(arch, st.regs) && Ready(arch, w, op, Read(st.regs, rs)) ==>
      var st' := Exec(arch, X, code, st);
      && KeepsOthers(next, rd, st, st')
      && ResultFolded(w, op, Read(st.regs, rs), OperandValue(arch, X, vregs, rhs, st.regs), Read(st'.regs, rd))
  }

  /** The last instruction is a W form that writes rd. */
  predicate EndsInW(code: seq<Inst>, rd: Register) {
    code != [] && IsW(code[|code| - 1]) && code[|code| - 1].rd == rd
  }

  /** The part of the arm for a right operand in a register. */
  method LowerRegRhs(arch: Arch, w: nat, op: BinaryOpcode, rs1: Register, rhs: Operand, rd: Register, vregs: VRegs,
                     out: seq<Inst>, fn: MachineFunction)
    returns (ok: bool, out': seq<Inst>)
    requires 1 <= w <= Xlen(arch) && UsableOperand(rhs, vregs, fn.nextVreg) && Allocated(rs1, fn.nextVreg)
    requires rd != ZERO && Allocated(rd, fn.nextVreg)
    modifies fn`nextVreg
    ensures fn.nextVreg >= old(fn.nextVreg) && out <= out' && (ok <==> !(rhs.Value? && rhs.id !in vregs))
    ensures ok ==> RightLowers(arch, w, out'[|out|..], old(fn.nextVreg), rd, op, rs1, rhs, vregs)
    ensures ok && arch == RV64 && w == 32 && HasMachineForm(op) ==> EndsInW(out'[|out|..], rd)
    ensures Encoded(arch, out, out')
  {
    hide AgreesWithFold, Carries, Loads, Low, Pow2, FormOp, IsW, Encoded;
    ghost var n1 := fn.nextVreg;
    var wide := FormWidth(arch, op, w) == Xlen(arch);
    var r, out3 := LowerOperand(arch, rhs, vregs, out, fn);
    if r.UnknownOperand? {
      return false, out3;
    }
    ghost var n5 := fn.nextVreg;
    var rs2, out4 := NormaliseTo(arch, r.r, w, op, ReadsSigned(op), wide, true, out3, fn);
    var rawRd := rd;
    ghost var n6 := fn.nextVreg;
    if wide {
      rawRd := fn.NewVreg();
    }
    var inst := RegReg(FormOp(arch, FormWidth(arch, op, w), op), rawRd, rs1, rs2);
    EncodedThen(arch, out, out3, out4);
    EncodedRegForm(arch, w, op, rawRd, rs1, rs2, out, out4);
    var out5 := out4 + [inst];
    assert out5[|out4|..] == [inst];
    RegAgrees(arch, w, op, rawRd, rs1, rs2, n6);
    out' := FinishResult(arch, w, rawRd, rd, wide, op, rs1, InReg(rs2), |out4|, out5, n6, true, fn);
    EncodedThen(arch, out, out5, out');
    CarryRight(arch, w, out4[|out3|..], out'[|out4|..], n5, n6, rd, op, rs1, rs2, r.r);
    assert out'[|out3|..] == out4[|out3|..] + out'[|out4|..];
    OperandThenRight(arch, w, out3[|out|..], out'[|out3|..], n1, n5, rd, op, rs1, rhs, r.r, vregs);
    assert out'[|out|..] == out3[|out|..] + out'[|out3|..];
    if arch == RV64 && w == 32 && HasMachineForm(op) {
      FormIsW(op, rd, rs1, rs2);
    }
    return true, out';
  }

  lemma OperandThenRight(arch: Arch, w: nat, c3: seq<Inst>, c4: seq<Inst>, n4: nat, n5: nat, rd: Register,
                         op: BinaryOpcode, rs1: Register, rhs: Operand, r2: Register, vregs: VRegs)
    requires 1 <= w <= Xlen(arch) && n4 <= n5 && Allocated(rs1, n4) && Loads(arch, c3, n4, r2, rhs, vregs)
    requires AgreesWithFold(arch, w, false, c4, n5, rd, op, rs1, InReg(r2))
    ensures RightLowers(arch, w, c3 + c4, n4, rd, op, rs1, rhs, vregs)
  {
    hide Pow2, Exec, InRange, Low, Fold, Loads, AgreesWithFold, KeepsOthers, ResultFolded, OperandValue, Ready;
    forall X, st: State | InRange(arch, st.regs) && Ready(arch, w, op, Read(st.regs, rs1))
      ensures var st' := Exec(arch, X, c3 + c4, st);
        && KeepsOthers(n4, rd, st, st')
        && ResultFolded(w, op, Read(st.regs, rs1), OperandValue(arch, X, vregs, rhs, st.regs), Read(st'.regs, rd))
    {
      var st3 := Exec(arch, X, c3, st);
      ExecAppend(arch, X, c3, c4, st);
      LoadsAt(arch, c3, n4, r2, rhs, vregs, X, st);
      KeepRead(n4, rs1, st, st3);
      assert ReadyAt(arch, w, false, op, rs1, InReg(r2), st3.regs);
      AgreesAt(arch, w, false, c4, n5, rd, op, rs1, InReg(r2), X, st3);
      KeepsAfter(n4, n5, rd, st, st3, Exec(arch, X, c4, st3));
      LowOfLow(w, w, Read(st3.regs, r2));
      ResultFoldedLow(w, op, Read(st3.regs, rs1), Read(st3.regs, rs1), RhsPattern(w, st3.regs, InReg(r2)),
        OperandValue(arch, X, vregs, rhs, st.regs), Read(Exec(arch, X, c4, st3).regs, rd));
    }
  }

  /** On RV64, when the left operand is sign-extended the result is so too, exactly unless a constant on
      the right overflows on it. */
  ghost predicate ResultTrusted(code: seq<Inst>, rd: Register, op: BinaryOpcode, lhs: Operand, rhs: Operand,
                                vregs: VRegs) {
    forall X, st: State :: InRange(RV64, st.regs) && Extended32(OperandValue(RV64, X, vregs, lhs, st.regs)) ==>
      var v := Signed(32, OperandValue(RV64, X, vregs, lhs, st.regs));
      Extended32(Read(Exec(RV64, X, code, st).regs, rd)) <==> !OverflowsOn(op, v, rhs)
  }

  predicate OverflowsOn(op: BinaryOpcode, v: int, rhs: Operand) {
    rhs.ConstInt? && rhs.c.Valid() && Overflows(op, v, ToI32(rhs.c.AsI64()))
  }

  lemma PrependTrust(c1: seq<Inst>, c2: seq<Inst>, n1: nat, rd: Register, op: BinaryOpcode, lhs: Operand, r1: Register,
                     rhs: Operand, imm: int, vregs: VRegs)
    requires Loads(RV64, c1, n1, r1, lhs, vregs) && TrustExactly(c2, rd, op, r1, imm)
    requires rhs.ConstInt? && rhs.c.Valid() && imm == ToI32(rhs.c.AsI64())
    ensures ResultTrusted(c1 + c2, rd, op, lhs, rhs, vregs)
  {
    hide Exec, InRange, Extended32, OperandValue, Overflows, Loads, Signed, ToI32;
    forall X, st: State | InRange(RV64, st.regs) && Extended32(OperandValue(RV64, X, vregs, lhs, st.regs))
      ensures Extended32(Read(Exec(RV64, X, c1 + c2, st).regs, rd))
        <==> !OverflowsOn(op, Signed(32, OperandValue(RV64, X, vregs, lhs, st.regs)), rhs)
    {
      ExecAppend(RV64, X, c1, c2, st);
      LoadsAt(RV64, c1, n1, r1, lhs, vregs, X, st);
    }
  }

  lemma RegTrust(c1: seq<Inst>, c2: seq<Inst>, rd: Register, op: BinaryOpcode, lhs: Operand, rhs: Operand,
                 vregs: VRegs)
    requires rd != ZERO && EndsInW(c2, rd)
    requires rhs.ConstInt? && rhs.c.Valid() ==> NeverOverflows(op, ToI32(rhs.c.AsI64()))
    ensures ResultTrusted(c1 + c2, rd, op, lhs, rhs, vregs)
  {
    hide Exec, InRange, Extended32, OperandValue, Overflows, Signed, ToI32, IsW;
    var inst := c2[|c2| - 1];
    var init := c1 + c2[..|c2| - 1];
    assert c1 + c2 == init + [inst];
    assert IsW(inst);
    forall X, st: State
      ensures Extended32(Read(Exec(RV64, X, c1 + c2, st).regs, rd))
      ensures !OverflowsOn(op, Signed(32, OperandValue(RV64, X, vregs, lhs, st.regs)), rhs)
    {
      LastWExtends(X, init, inst, rd, st);
    }
  }

  lemma LastWExtends(X: Externals, init: seq<Inst>, inst: Inst, rd: Register, st: State)
    requires IsW(inst) && inst.rd == rd != ZERO
    ensures Extended32(Read(Exec(RV64, X, init + [inst], st).regs, rd))
  {
    LastIsW(X, init, inst, st);
  }

  predicate Grows(o: seq<Inst>, o1: seq<Inst>, o2: seq<Inst>, o3: seq<Inst>) {
    o <= o1 <= o2 <= o3
  }

  lemma GrowsAt(o: seq<Inst>, o1: seq<Inst>, o2: seq<Inst>, o3: seq<Inst>)
    requires Grows(o, o1, o2, o3)
    ensures |o| <= |o1| <= |o2| <= |o3|
    ensures o3[|o|..] == o1[|o|..] + (o2[|o1|..] + o3[|o2|..])
    ensures o3[|o|..] == o1[|o|..] + o2[|o1|..] + o3[|o2|..]
  {
  }

  /** The three pieces of code with a constant on the right, put together. */
  lemma ConstFinish(arch: Arch, w: nat, o: seq<Inst>, o1: seq<Inst>, o2: seq<Inst>, o3: seq<Inst>, n1: nat, n2: nat,
                    n3: nat, rd: Register, op: BinaryOpcode, lhs: Operand, r: Register, rs1: Register, rhs: Operand,
                    vregs: VRegs)
    requires 1 <= w <= Xlen(arch) && n1 <= n2 <= n3 && rhs.ConstInt? && rhs.c.Valid() && Grows(o, o1, o2, o3)
    requires Loads(arch, o1[|o|..], n1, r, lhs, vregs)
    requires Carries(arch, w, op, true, o2[|o1|..], n2, rs1, r)
    requires ConstRight(arch, w, op, ToI32(rhs.c.AsI64())) ==>
      AgreesWithFold(arch, w, true, o3[|o2|..], n3, rd, op, rs1, Fixed(ToI32(rhs.c.AsI64())))
    requires arch == RV64 && w == 32 && HasMachineForm(op) ==>
      rs1 == r && o2 == o1 && TrustExactly(o3[|o2|..], rd, op, rs1, ToI32(rhs.c.AsI64()))
    ensures ConstRight(arch, w, op, ToI32(rhs.c.AsI64())) ==>
      LowersTo(arch, w, o3[|o|..], n1, rd, op, lhs, rhs, vregs)
    ensures arch == RV64 && w == 32 && HasMachineForm(op) ==> ResultTrusted(o3[|o|..], rd, op, lhs, rhs, vregs)
  {
    hide AgreesWithFold, Carries, Loads, LowersTo, ConstRight, AgreesAnyhow, ToI32, TrustExactly, ResultTrusted;
    GrowsAt(o, o1, o2, o3);
    var imm := ToI32(rhs.c.AsI64());
    var c1, c2, c3 := o1[|o|..], o2[|o1|..], o3[|o2|..];
    if arch == RV64 && w == 32 && HasMachineForm(op) {
      assert c2 + c3 == c3;
      PrependTrust(c1, c3, n1, rd, op, lhs, r, rhs, imm, vregs);
    }
    if ConstRight(arch, w, op, imm) {
      CarryLeft(arch, w, c2, c3, n2, n3, rd, op, rs1, r, Fixed(imm));
      PrependLhs(arch, w, c1, c2 + c3, n1, n2, rd, op, lhs, r, rhs, imm, vregs);
    }
  }

  /** The three pieces of code with a register on the right, put together. */
  lemma RegFinish(arch: Arch, w: nat, o: seq<Inst>, o1: seq<Inst>, o2: seq<Inst>, o3: seq<Inst>, n1: nat, n2: nat,
                  n3: nat, rd: Register, op: BinaryOpcode, lhs: Operand, r: Register, rs1: Register, rhs: Operand,
                  vregs: VRegs)
    requires 1 <= w <= Xlen(arch) && n1 <= n2 <= n3 && rd != ZERO && Grows(o, o1, o2, o3)
    requires rhs.Value? && rhs.id in vregs ==> vregs[rhs.id] < n1
    requires Loads(arch, o1[|o|..], n1, r, lhs, vregs)
    requires Carries(arch, w, op, true, o2[|o1|..], n2, rs1, r)
    requires RightLowers(arch, w, o3[|o2|..], n3, rd, op, rs1, rhs, vregs)
    requires arch == RV64 && w == 32 && HasMachineForm(op) ==>
      EndsInW(o3[|o2|..], rd) && (rhs.ConstInt? && rhs.c.Valid() ==> NeverOverflows(op, ToI32(rhs.c.AsI64())))
    ensures LowersTo(arch, w, o3[|o|..], n1, rd, op, lhs, rhs, vregs)
    ensures arch == RV64 && w == 32 && HasMachineForm(op) ==> ResultTrusted(o3[|o|..], rd, op, lhs, rhs, vregs)
  {
    hide Carries, Loads, LowersTo, ToI32, NeverOverflows, ResultTrusted, EndsInW, RightLowers;
    GrowsAt(o, o1, o2, o3);
    LeftThenRight(arch, w, o1[|o|..], o2[|o1|..], o3[|o2|..], n1, n2, n3, rd, op, lhs, r, rs1, rhs, vregs);
    if arch == RV64 && w == 32 && HasMachineForm(op) {
      RegTrust(o1[|o|..] + o2[|o1|..], o3[|o2|..], rd, op, lhs, rhs, vregs);
    }
  }

  predicate TooFarFor(arch: Arch, w: nat, op: BinaryOpcode, rhs: Operand) {
    rhs.ConstInt? && rhs.c.Valid() && ShiftedTooFar(arch, w, op, ToI32(rhs.c.AsI64()))
  }

  /** A 32-bit value shifted left by the constant 40: the form picked on RV64 has no encoding. */
  lemma FarShiftNotEncodable(rd: Register, rs: Register)
    ensures var c := CoreInt(40, 32);
      && c.Valid() && TooFarFor(RV64, 32, Shl, ConstInt(c))
      && var form := FormImm(RV64, FormWidth(RV64, Shl, 32), Shl);
      form == Slliw && !Encodable(RV64, RegImm(form, rd, rs, ToI32(c.AsI64())))
  {
    Pow32();
    LowSmall(32, 40);
  }

  /** The lowering of a binary operator on integers of w bits: for every machine state in which folding
      the operand values is defined, the code leaves the folded bits at the bottom of rd. On RV64 the
      32-bit operators also leave it sign-extended, but for the negations that overflow. */
  method LowerBinaryInst(arch: Arch, w: nat, op: BinaryOpcode, lhs: Operand, rhs: Operand, rd: Register, vregs: VRegs,
                         out: seq<Inst>, fn: MachineFunction)
    returns (ok: bool, out': seq<Inst>)
    requires 1 <= w <= Xlen(arch) && (rhs.ConstInt? ==> rhs.c.width == w)
    requires UsableOperand(lhs, vregs, fn.nextVreg) && UsableOperand(rhs, vregs, fn.nextVreg)
    requires rd != ZERO && Allocated(rd, fn.nextVreg)
    modifies fn`nextVreg
    ensures fn.nextVreg >= old(fn.nextVreg) && out <= out'
    ensures ok <==> !(lhs.Value? && lhs.id !in vregs) && !(rhs.Value? && rhs.id !in vregs)
    ensures ok && RhsRight(arch, w, op, rhs) ==>
      LowersTo(arch, w, out'[|out|..], old(fn.nextVreg), rd, op, lhs, rhs, vregs)
    ensures ok && arch == RV64 && w == 32 && !op.And? && !op.Or? && !op.Xor? ==>
      ResultTrusted(out'[|out|..], rd, op, lhs, rhs, vregs)
    ensures Encoded(arch, out, out') <==> !(ok && TooFarFor(arch, w, op, rhs))
  {
    hide AgreesWithFold, Carries, Loads, LowersTo, Low, Pow2, ConstRight, FromConst, FormOp, ToI32, TrustExactly,
      NeverOverflows, ResultTrusted, EndsInW, RightLowers, Encoded, ShiftedTooFar;
    ghost var n1 := fn.nextVreg;
    var wide := FormWidth(arch, op, w) == Xlen(arch);
    var l, out1 := LowerOperand(arch, lhs, vregs, out, fn);
    if l.UnknownOperand? {
      return false, out1;
    }
    ghost var n2 := fn.nextVreg;
    var rs1, out2 := NormaliseTo(arch, l.r, w, op, ReadsSigned(op), wide, true, out1, fn);
    EncodedThen(arch, out, out1, out2);
    ghost var n3 := fn.nextVreg;
    if rhs.ConstInt? {
      var imm := ToI32(rhs.c.AsI64());
      ConstReading(rhs.c);
      var done;
      done, out' := LowerConstRhs(arch, w, op, rs1, imm, rd, out2, fn);
      EncodedThen(arch, out, out2, out');
      if done {
        assert Grows(out, out1, out2, out');
        ConstFinish(arch, w, out, out1, out2, out', n1, n2, n3, rd, op, lhs, l.r, rs1, rhs, vregs);
        return true, out';
      }
    }
    ghost var n4 := fn.nextVreg;
    ok, out' := LowerRegRhs(arch, w, op, rs1, rhs, rd, vregs, out2, fn);
    EncodedThen(arch, out, out2, out');
    if ok {
      assert Grows(out, out1, out2, out');
      RegFinish(arch, w, out, out1, out2, out', n1, n2, n4, rd, op, lhs, l.r, rs1, rhs, vregs);
    }
  }

  lemma RegAgrees(arch: Arch, w: nat, op: BinaryOpcode, rd: Register, rs1: Register, rs2: Register, next: nat)
    requires 1 <= w <= Xlen(arch) && rd != ZERO
    ensures AgreesWithFold(arch, w, true, [RegReg(FormOp(arch, FormWidth(arch, op, w), op), rd, rs1, rs2)], next, rd,
      op,
      rs1, InReg(rs2))
  {
    hide AgreesWithFold, Computes, ComputesOn, FormWidth, FormOp;
    var k := FormWidth(arch, op, w);
    var code := [RegReg(FormOp(arch, k, op), rd, rs1, rs2)];
    FormCovers(arch, w, op);
    ComputesRegForm(arch, k, op, rd, rs1, rs2, next);
    ComputesOnAny(arch, k, w, code, next, rd, op, rs1, InReg(rs2));
    ComputesAgrees(arch, w, code, next, rd, op, rs1, InReg(rs2), InReg(rs2));
  }

  lemma LoadsAt(arch: Arch, code: seq<Inst>, next: nat, r: Register, op: Operand, vregs: VRegs, X: Externals, st: State)
    requires Loads(arch, code, next, r, op, vregs) && InRange(arch, st.regs)
    ensures var st' := Exec(arch, X, code, st);
      Undisturbed(next, st, st') && InRange(arch, st'.regs)
        && Read(st'.regs, r) == OperandValue(arch, X, vregs, op, st.regs)
  {
    hide Exec, InRange, OperandValue, Undisturbed;
    ExecInRange(arch, X, code, st);
  }

  lemma CarriesAt(arch: Arch, w: nat, op: BinaryOpcode, code: seq<Inst>, next: nat, r: Register, rs: Register,
                  X: Externals, st: State)
    requires 1 <= w <= Xlen(arch) && Carries(arch, w, op, true, code, next, r, rs) && InRange(arch, st.regs)
    ensures var st' := Exec(arch, X, code, st);
      && Undisturbed(next, st, st') && InRange(arch, st'.regs) && Low(w, Read(st'.regs, r)) == Low(w, Read(st.regs, rs))
      && Ready(arch, w, op, Read(st'.regs, r))
  {
    hide Exec, InRange, Low, Undisturbed, Ready;
    ExecInRange(arch, X, code, st);
  }

  lemma ValueUndisturbed(arch: Arch, X: Externals, vregs: VRegs, op: Operand, next: nat, st: State, st': State)
    requires Undisturbed(next, st, st') && (op.Value? && op.id in vregs ==> vregs[op.id] < next)
    ensures OperandValue(arch, X, vregs, op, st'.regs) == OperandValue(arch, X, vregs, op, st.regs)
  {
    hide Low, Pow2;
  }

  lemma UndisturbedTwice(n: nat, m: nat, st: State, mid: State, st': State)
    requires n <= m && Undisturbed(n, st, mid) && Undisturbed(m, mid, st')
    ensures Undisturbed(n, st, st')
  {
  }

  lemma KeepsAfter(n: nat, m: nat, rd: Register, st: State, mid: State, st': State)
    requires n <= m && Undisturbed(n, st, mid) && KeepsOthers(m, rd, mid, st')
    ensures KeepsOthers(n, rd, st, st')
  {
  }

  lemma KeepRead(n: nat, r: Register, st: State, st': State)
    requires Undisturbed(n, st, st') && Allocated(r, n)
    ensures Read(st'.regs, r) == Read(st.regs, r)
  {
  }

  /** Operand, normalisation, and the rest: the left operand survives loading the right one. */
  lemma LeftThenRight(arch: Arch, w: nat, c1: seq<Inst>, c2: seq<Inst>, c3: seq<Inst>, n1: nat, n2: nat, n3: nat,
                      rd: Register, op: BinaryOpcode, lhs: Operand, r1: Register, rs1: Register, rhs: Operand,
                      vregs: VRegs)
    requires 1 <= w <= Xlen(arch) && n1 <= n2 <= n3
    requires rhs.Value? && rhs.id in vregs ==> vregs[rhs.id] < n1
    requires Loads(arch, c1, n1, r1, lhs, vregs) && Carries(arch, w, op, true, c2, n2, rs1, r1)
    requires RightLowers(arch, w, c3, n3, rd, op, rs1, rhs, vregs)
    ensures LowersTo(arch, w, c1 + c2 + c3, n1, rd, op, lhs, rhs, vregs)
  {
    hide Pow2, Exec, InRange, Low, Fold, Loads, Carries, KeepsOthers, ResultFolded, OperandValue, Ready;
    forall X, st: State | InRange(arch, st.regs)
      ensures var st' := Exec(arch, X, c1 + c2 + c3, st);
        && KeepsOthers(n1, rd, st, st')
        && ResultFolded(w, op, OperandValue(arch, X, vregs, lhs, st.regs), OperandValue(arch, X, vregs, rhs, st.regs),
             Read(st'.regs, rd))
    {
      var st1 := Exec(arch, X, c1, st);
      var st2 := Exec(arch, X, c2, st1);
      ExecAppend(arch, X, c1 + c2, c3, st);
      ExecAppend(arch, X, c1, c2, st);
      LoadsAt(arch, c1, n1, r1, lhs, vregs, X, st);
      CarriesAt(arch, w, op, c2, n2, rs1, r1, X, st1);
      UndisturbedTwice(n1, n2, st, st1, st2);
      ValueUndisturbed(arch, X, vregs, rhs, n1, st, st2);
      KeepsAfter(n1, n3, rd, st, st2, Exec(arch, X, c3, st2));
      ResultFoldedLow(w, op, Read(st2.regs, rs1), OperandValue(arch, X, vregs, lhs, st.regs),
        OperandValue(arch, X, vregs, rhs, st.regs), OperandValue(arch, X, vregs, rhs, st.regs),
        Read(Exec(arch, X, c3, st2).regs, rd));
    }
  }

  lemma OperandInRange(arch: Arch, X: Externals, vregs: VRegs, op: Operand, regs: Regs)
    requires InRange(arch, regs)
    ensures 0 <= OperandValue(arch, X, vregs, op, regs) < Pow2(Xlen(arch))
  {
    hide Pow2;
  }
}
