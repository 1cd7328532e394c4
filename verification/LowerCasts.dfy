/** Lowering of the integer casts (src/mir/lower.rs:2249-2306), and what lowering may trust of the
    registers that casts and phis leave (src/mir/lower.rs:343-393). */
module LowerCasts {
  import opened Bits
  import opened CoreInts
  import opened Machine
  import opened LowerArith
  import opened LowerConsts
  import opened LowerBinary
  import opened LowerICmp
  import opened EdgeLowering

  datatype CastKind = Trunc | Zext | Sext

  /** The source and the result fit a register, and the cast narrows or widens as its kind says. */
  predicate CastWidths(arch: Arch, kind: CastKind, n: nat, w: nat) {
    1 <= n <= Xlen(arch) && 1 <= w <= Xlen(arch) && (if kind.Trunc? then w <= n else n <= w)
  }

  /** What constant folding makes of the cast. */
  function FoldCast(kind: CastKind, c: CoreInt, w: nat): (r: CoreInt)
    requires c.Valid() && w <= 64 && (if kind.Trunc? then 1 <= w <= c.width else c.width <= w)
  {
    match kind
    case Trunc => c.TruncTo(w)
    case Zext => c.ZeroExtend(w)
    case Sext => c.SignExtend(w)
  }

  /** The integer of the cast's width in a register in which the source was extended. */
  function Kept(kind: CastKind, n: nat, w: nat): nat {
    if kind.Trunc? then w else n
  }

  /** The code leaves the folded cast of the operand at the bottom of rd and disturbs nothing else. */
  ghost predicate Casts(arch: Arch, code: seq<Inst>, next: nat, rd: Register, kind: CastKind, op: Operand, n: nat,
                        w: nat, vregs: VRegs)
    requires CastWidths(arch, kind, n, w)
  {
    forall X, st: State :: InRange(arch, st.regs) ==>
      var st' := Exec(arch, X, code, st);
      && KeepsOthers(next, rd, st, st')
      && Low(w, Read(st'.regs, rd)) == FoldCast(kind, Denotes(arch, X, vregs, op, n, st.regs), w).value
  }

  /** Whether 32-bit results are left sign-extended on RV64. */
  ghost predicate LeavesTrusted(code: seq<Inst>, rd: Register) {
    forall X, st: State :: InRange(RV64, st.regs) ==> Extended32(Read(Exec(RV64, X, code, st).regs, rd))
  }

  /** The register holds the operand's value extended from that many bits. */
  ghost predicate Extending(arch: Arch, code: seq<Inst>, next: nat, rd: Register, op: Operand, bits: nat, signed: bool,
                            vregs: VRegs)
    requires bits >= 1
  {
    forall X, st: State :: InRange(arch, st.regs) ==>
      var st' := Exec(arch, X, code, st);
      && KeepsOthers(next, rd, st, st')
      && Read(st'.regs, rd)
         == Low(Xlen(arch), Extended(arch, Some(bits), signed, OperandValue(arch, X, vregs, op, st.regs)))
  }

  lemma ExtendingCasts(arch: Arch, code: seq<Inst>, next: nat, rd: Register, kind: CastKind, op: Operand, n: nat,
                       w: nat, vregs: VRegs)
    requires CastWidths(arch, kind, n, w)
    requires Extending(arch, code, next, rd, op, Kept(kind, n, w), kind.Sext?, vregs)
    ensures Casts(arch, code, next, rd, kind, op, n, w, vregs)
  {
    hide Exec, InRange, Pow2, Extended, OperandValue, KeepsOthers, FoldCast;
    forall X, st: State | InRange(arch, st.regs)
      ensures var st' := Exec(arch, X, code, st);
        && KeepsOthers(next, rd, st, st')
        && Low(w, Read(st'.regs, rd)) == FoldCast(kind, Denotes(arch, X, vregs, op, n, st.regs), w).value
    {
      ExtensionFolds(arch, kind, n, w, OperandValue(arch, X, vregs, op, st.regs));
    }
  }

  /** Extending in a register is extending at compile time. */
  lemma ExtensionFolds(arch: Arch, kind: CastKind, n: nat, w: nat, v: int)
    requires CastWidths(arch, kind, n, w)
    ensures Low(n, v) < Pow2(n)
    ensures Low(w, Low(Xlen(arch), Extended(arch, Some(Kept(kind, n, w)), kind.Sext?, v)))
      == FoldCast(kind, CoreInt(Low(n, v), n), w).value
  {
    hide Low, Pow2, Signed;
    LowInRange(n, v);
    if kind.Trunc? {
      TruncFolds(Xlen(arch), n, w, v);
    } else if kind.Sext? {
      SextFolds(Xlen(arch), n, w, v);
    } else {
      ZextFolds(Xlen(arch), n, w, v);
    }
    LowOfLow(w, Xlen(arch), v);
  }

  lemma TruncFolds(x: nat, n: nat, w: nat, v: int)
    requires 1 <= w <= n <= x <= 64 && Low(n, v) < Pow2(n)
    ensures Low(w, Low(x, Low(w, v))) == CoreInt(Low(n, v), n).TruncTo(w).value == Low(w, v)
  {
    LowOfLow(w, x, Low(w, v));
    LowOfLow(w, w, v);
    LowOfLow(w, n, v);
    hide Low, Pow2;
  }

  lemma ZextFolds(x: nat, n: nat, w: nat, v: int)
    requires 1 <= n <= w <= x <= 64 && Low(n, v) < Pow2(n)
    ensures Low(w, Low(x, Low(n, v))) == CoreInt(Low(n, v), n).ZeroExtend(w).value
    ensures n == w ==> CoreInt(Low(n, v), n).ZeroExtend(w).value == Low(w, v)
  {
    LowOfLow(w, x, Low(n, v));
    LowOfLow(n, n, v);
    hide Low, Pow2;
  }

  lemma SextFolds(x: nat, n: nat, w: nat, v: int)
    requires 1 <= n <= w <= x <= 64 && Low(n, v) < Pow2(n)
    ensures Low(w, Low(x, Low(x, Signed(n, v)))) == CoreInt(Low(n, v), n).SignExtend(w).value
    ensures n == w ==> CoreInt(Low(n, v), n).SignExtend(w).value == Low(w, v)
  {
    hide Pow2, Low, Signed;
    var c := CoreInt(Low(n, v), n);
    LowSigned(n, v);
    LowOfLow(x, x, Signed(n, v));
    LowOfLow(w, x, Signed(n, v));
    SignExtendKeepsValue(c, w);
    LowSigned(w, c.SignExtend(w).value);
    LowSmall(w, c.SignExtend(w).value);
  }

  method LowerCast(arch: Arch, kind: CastKind, op: Operand, n: nat, w: nat, rd: Register, vregs: VRegs, out: seq<Inst>,
                   fn: MachineFunction)
    returns (ok: bool, out': seq<Inst>)
    requires CastWidths(arch, kind, n, w) && UsableOperand(op, vregs, fn.nextVreg)
    requires rd != ZERO && Allocated(rd, fn.nextVreg)
    modifies fn`nextVreg
    ensures fn.nextVreg >= old(fn.nextVreg) && out <= out'
    ensures ok <==> !(op.Value? && op.id !in vregs)
    ensures ok ==> Casts(arch, out'[|out|..], old(fn.nextVreg), rd, kind, op, n, w, vregs)
    ensures ok && arch == RV64 && kind.Sext? && n <= 32 ==> LeavesTrusted(out'[|out|..], rd)
    ensures Encoded(arch, out, out')
  {
    hide Casts, LeavesTrusted, Extending, Loads, Normalises, Encoded;
    ghost var n1 := fn.nextVreg;
    var src, out1 := LowerOperand(arch, op, vregs, out, fn);
    if src.UnknownOperand? {
      return false, out1;
    }
    ghost var n2 := fn.nextVreg;
    if kind.Sext? {
      if n >= Xlen(arch) {
        EncodedOne(arch, out, out1, Mv(rd, src.r));
        out' := out1 + [Mv(rd, src.r)];
        assert out'[|out1|..] == [Mv(rd, src.r)];
        MoveExtends(arch, rd, src.r, n, true, n2);
      } else {
        var shift := Xlen(arch) - n;
        out' := out1 + [RegImm(Slli, rd, src.r, shift)];
        EncodedOne(arch, out, out1, RegImm(Slli, rd, src.r, shift));
        EncodedOne(arch, out, out', RegImm(Srai, rd, rd, shift));
        out' := out' + [RegImm(Srai, rd, rd, shift)];
        assert out'[|out1|..] == [RegImm(Slli, rd, src.r, shift), RegImm(Srai, rd, rd, shift)];
        NormaliseByShifts(arch, rd, src.r, n, true, n2);
        NormalisedExtends(arch, out'[|out1|..], n2, rd, src.r, n, true);
      }
    } else {
      var masked, out2 := EmitMaskedValue(arch, src.r, Kept(kind, n, w), out1, fn);
      assert out2[|out1|..] + [Mv(rd, masked)] == (out2 + [Mv(rd, masked)])[|out1|..];
      EncodedThen(arch, out, out1, out2);
      EncodedOne(arch, out, out2, Mv(rd, masked));
      if masked != rd {
        out' := out2 + [Mv(rd, masked)];
      } else {
        out' := out2;
      }
      MaskedThenMoved(arch, out2[|out1|..], out'[|out1|..], n2, rd, src.r, masked, Kept(kind, n, w));
    }
    OperandExtends(arch, out1[|out|..], out'[|out1|..], n1, n2, rd, op, src.r, Kept(kind, n, w), kind.Sext?, vregs);
    assert out'[|out|..] == out1[|out|..] + out'[|out1|..];
    ExtendingCasts(arch, out'[|out|..], n1, rd, kind, op, n, w, vregs);
    if arch == RV64 && kind.Sext? && n <= 32 {
      ExtendingTrusted(out'[|out|..], n1, rd, op, n, vregs);
    }
    return true, out';
  }

  /** From every state rd ends up with the extension of what src held. */
  ghost predicate ExtendsReg(arch: Arch, code: seq<Inst>, next: nat, rd: Register, src: Register, bits: nat,
                             signed: bool)
    requires bits >= 1
  {
    forall X, st: State :: InRange(arch, st.regs) ==>
      var st' := Exec(arch, X, code, st);
      KeepsOthers(next, rd, st, st')
        && Read(st'.regs, rd) == Low(Xlen(arch), Extended(arch, Some(bits), signed, Read(st.regs, src)))
  }

  lemma MoveExtends(arch: Arch, rd: Register, src: Register, bits: nat, signed: bool, next: nat)
    requires rd != ZERO && bits >= Xlen(arch)
    ensures ExtendsReg(arch, [Mv(rd, src)], next, rd, src, bits, signed)
  {
    hide Low, Pow2, InRange, Exec;
    forall X, st: State | InRange(arch, st.regs)
      ensures var st' := Exec(arch, X, [Mv(rd, src)], st);
        KeepsOthers(next, rd, st, st')
          && Read(st'.regs, rd) == Low(Xlen(arch), Extended(arch, Some(bits), signed, Read(st.regs, src)))
    {
      Exec1(arch, X, Mv(rd, src), st);
      PatternInRange(arch, st.regs, src);
      LowSmall(Xlen(arch), Read(st.regs, src));
    }
  }

  lemma NormalisedExtends(arch: Arch, code: seq<Inst>, next: nat, rd: Register, src: Register, bits: nat, signed: bool)
    requires 1 <= bits < Xlen(arch) && Normalises(arch, code, next, rd, src, bits, signed)
    ensures ExtendsReg(arch, code, next, rd, src, bits, signed)
  {
    hide Low, Pow2, InRange, Exec, KeepsOthers, Normal;
    forall X, st: State | InRange(arch, st.regs)
      ensures var st' := Exec(arch, X, code, st);
        KeepsOthers(next, rd, st, st')
          && Read(st'.regs, rd) == Low(Xlen(arch), Extended(arch, Some(bits), signed, Read(st.regs, src)))
    {
      NormalFits(arch, bits, signed, Read(st.regs, src));
    }
  }

  lemma NormalFits(arch: Arch, bits: nat, signed: bool, v: int)
    requires 1 <= bits < Xlen(arch)
    ensures Low(Xlen(arch), Normal(arch, bits, signed, v)) == Normal(arch, bits, signed, v)
  {
    LowOfLow(Xlen(arch), Xlen(arch), Signed(bits, v));
    PowMonotone(bits, Xlen(arch));
    LowInRange(bits, v);
    LowSmall(Xlen(arch), Low(bits, v));
    hide Low, Pow2, Signed;
  }

  /** Masking into a fresh register and moving from there. */
  lemma MaskedThenMoved(arch: Arch, mask: seq<Inst>, code: seq<Inst>, next: nat, rd: Register, src: Register,
                        masked: Register, bits: nat)
    requires rd != ZERO && 1 <= bits <= Xlen(arch) && Allocated(rd, next)
    requires bits >= Xlen(arch) ==> masked == src && mask == []
    requires bits < Xlen(arch) ==> masked == Virtual(next) && Normalises(arch, mask, next, masked, src, bits, false)
    requires code == if masked != rd then mask + [Mv(rd, masked)] else mask
    ensures ExtendsReg(arch, code, next, rd, src, bits, false)
  {
    hide Low, Pow2, InRange, Exec, Normal, Extended;
    forall X, st: State | InRange(arch, st.regs)
      ensures var st' := Exec(arch, X, code, st);
        KeepsOthers(next, rd, st, st')
          && Read(st'.regs, rd) == Low(Xlen(arch), Extended(arch, Some(bits), false, Read(st.regs, src)))
    {
      MaskedRuns(arch, X, mask, code, next, rd, src, masked, bits, st);
    }
  }

  lemma MaskedRuns(arch: Arch, X: Externals, mask: seq<Inst>, code: seq<Inst>, next: nat, rd: Register, src: Register,
                   masked: Register, bits: nat, st: State)
    requires rd != ZERO && 1 <= bits <= Xlen(arch) && Allocated(rd, next) && InRange(arch, st.regs)
    requires bits >= Xlen(arch) ==> masked == src && mask == []
    requires bits < Xlen(arch) ==> masked == Virtual(next) && Normalises(arch, mask, next, masked, src, bits, false)
    requires code == if masked != rd then mask + [Mv(rd, masked)] else mask
    ensures var st' := Exec(arch, X, code, st);
      KeepsOthers(next, rd, st, st')
        && Read(st'.regs, rd) == Low(Xlen(arch), Extended(arch, Some(bits), false, Read(st.regs, src)))
  {
    hide Low, Pow2, InRange, Exec, Normalises, Extended;
    MaskLeaves(arch, X, mask, next, src, masked, bits, st);
    if masked != rd {
      MoveAfter(arch, X, mask, next, rd, masked, st);
    }
  }

  lemma MoveAfter(arch: Arch, X: Externals, code: seq<Inst>, next: nat, rd: Register, r: Register, st: State)
    requires rd != ZERO && rd != r && InRange(arch, st.regs) && (!Allocated(r, next) || code == [])
    requires KeepsOthers(next, r, st, Exec(arch, X, code, st))
    ensures var st' := Exec(arch, X, code + [Mv(rd, r)], st);
      KeepsOthers(next, rd, st, st') && Read(st'.regs, rd) == Read(Exec(arch, X, code, st).regs, r)
  {
    hide Low, Pow2, InRange, Exec;
    ExecSnoc(arch, X, code, Mv(rd, r), st);
    ExecInRange(arch, X, code, st);
    PatternInRange(arch, Exec(arch, X, code, st).regs, r);
    if code == [] {
      NoCode(arch, X, st);
    }
  }

  lemma MaskLeaves(arch: Arch, X: Externals, mask: seq<Inst>, next: nat, src: Register, masked: Register, bits: nat,
                   st: State)
    requires 1 <= bits <= Xlen(arch) && InRange(arch, st.regs)
    requires bits >= Xlen(arch) ==> masked == src && mask == []
    requires bits < Xlen(arch) ==> masked == Virtual(next) && Normalises(arch, mask, next, masked, src, bits, false)
    ensures var mid := Exec(arch, X, mask, st);
      KeepsOthers(next, masked, st, mid)
        && Read(mid.regs, masked) == Low(Xlen(arch), Extended(arch, Some(bits), false, Read(st.regs, src)))
  {
    hide Low, Pow2, InRange, Exec, Normal, Normalises;
    if bits < Xlen(arch) {
      NormalisesAt(arch, mask, next, masked, src, bits, X, st);
      NormalFits(arch, bits, false, Read(st.regs, src));
    } else {
      NoCode(arch, X, st);
      PatternInRange(arch, st.regs, src);
      LowSmall(Xlen(arch), Read(st.regs, src));
    }
  }

  lemma NoCode(arch: Arch, X: Externals, st: State)
    ensures Exec(arch, X, [], st) == st
  {
  }

  lemma NormalisesAt(arch: Arch, code: seq<Inst>, next: nat, rd: Register, src: Register, bits: nat, X: Externals,
                     st: State)
    requires Normalises(arch, code, next, rd, src, bits, false) && InRange(arch, st.regs)
    ensures var st' := Exec(arch, X, code, st);
      KeepsOthers(next, rd, st, st') && Read(st'.regs, rd) == Normal(arch, bits, false, Read(st.regs, src))
  {
    hide Exec, InRange, Normal, KeepsOthers;
  }

  /** Loading the operand first. */
  lemma OperandExtends(arch: Arch, c1: seq<Inst>, c2: seq<Inst>, n1: nat, n2: nat, rd: Register, op: Operand,
                       src: Register, bits: nat, signed: bool, vregs: VRegs)
    requires bits >= 1 && n1 <= n2 && Loads(arch, c1, n1, src, op, vregs)
    requires ExtendsReg(arch, c2, n2, rd, src, bits, signed)
    ensures Extending(arch, c1 + c2, n1, rd, op, bits, signed, vregs)
  {
    hide Low, InRange, Exec, Extended, OperandValue, Loads, Undisturbed, KeepsOthers;
    forall X, st: State | InRange(arch, st.regs)
      ensures var st' := Exec(arch, X, c1 + c2, st);
        KeepsOthers(n1, rd, st, st') && Read(st'.regs, rd)
          == Low(Xlen(arch), Extended(arch, Some(bits), signed, OperandValue(arch, X, vregs, op, st.regs)))
    {
      ExecAppend(arch, X, c1, c2, st);
      LoadsAt(arch, c1, n1, src, op, vregs, X, st);
      KeepsAfter(n1, n2, rd, st, Exec(arch, X, c1, st), Exec(arch, X, c1 + c2, st));
    }
  }

  /** A sign extension from 32 bits or fewer deserves the trust lowering puts in it. */
  lemma ExtendingTrusted(code: seq<Inst>, next: nat, rd: Register, op: Operand, n: nat, vregs: VRegs)
    requires 1 <= n <= 32 && Extending(RV64, code, next, rd, op, n, true, vregs)
    ensures LeavesTrusted(code, rd)
  {
    hide Low, Pow2, Signed, InRange, Exec, OperandValue, KeepsOthers, Extended32;
    forall X, st: State | InRange(RV64, st.regs) ensures Extended32(Read(Exec(RV64, X, code, st).regs, rd)) {
      NarrowExtended(n, OperandValue(RV64, X, vregs, op, st.regs));
    }
  }

  lemma NarrowExtended(n: nat, v: int)
    requires 1 <= n <= 32
    ensures Extended32(Low(64, Low(64, Signed(n, v))))
  {
    Pow32();
    PowMonotone(n - 1, 31);
    LowSigned(n, v);
    LowOfLow(64, 64, Signed(n, v));
    ExtendedExactly(Signed(n, v));
    hide Low, Pow2, Signed, Extended32;
  }

  /** A phi is sign-extended after an edge exactly when the operand it took was before. */
  lemma PhisKeepTrust(X: Externals, vregs: VRegs, copies: seq<PhiCopy>, next: nat, st: State, st': State, i: nat,
                      id: nat)
    requires PhisAssigned(RV64, X, vregs, copies, next, st, st') && i < |copies|
    requires id in vregs && vregs[id] == copies[i].dst
    ensures Trusted(RV64, X, vregs, Typed(Value(id), Some(32), true), st'.regs)
      <==> Trusted(RV64, X, vregs, Typed(copies[i].value, Some(32), true), st.regs)
  {
    hide Extended;
  }
}
