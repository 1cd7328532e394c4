/** Lowering getelementptr: walking nested types, one index at a time (src/mir/lower.rs:1934-2030). */
module GepLowering {
  import opened Machine
  import opened Bits
  import opened CoreInts
  import opened LowerArith
  import opened LowerBinary
  import opened Gep
  import Ir
  import L = Layouts
  import P = LayoutPaths

  // ---------------------------------------------------------------- the meaning of an index list

  function FieldIndex(index: Index): Option<nat> {
    if index.Plain? && index.op.ConstInt? then Some(index.op.c.value) else None
  }

  function Descend(ty: Ir.Type, index: Index): Option<Ir.Type> {
    match ty
    case ArrayType(elem, _) => Some(elem)
    case StructType(body) =>
      var k := FieldIndex(index);
      if body.Fields? && k.Some? && k.value < |body.fields| then Some(body.fields[k.value]) else None
    case _ => None
  }

  /** The type before index k; the first index steps over whole values of the base type. */
  function TypeAt(ty: Ir.Type, indices: seq<Index>, k: nat): Option<Ir.Type>
    requires k <= |indices|
    decreases k
  {
    if k <= 1 then Some(ty)
    else
      var before := TypeAt(ty, indices, k - 1);
      if before.None? then None else Descend(before.value, indices[k - 1])
  }

  /** Walking the indices from the front: any index into an array, a constant below the number of fields
      into a struct with a body. */
  function Descended(ty: Ir.Type, indices: seq<Index>): Option<Ir.Type>
    decreases |indices|
  {
    if indices == [] then Some(ty)
    else match ty
      case ArrayType(elem, _) => Descended(elem, indices[1..])
      case StructType(body) =>
        var i := indices[0];
        if body.Fields? && i.Plain? && i.op.ConstInt? && i.op.c.value < |body.fields|
          then Descended(body.fields[i.op.c.value], indices[1..]) else None
      case _ => None
  }

  /** The indices select a type exactly when they can be walked from the front, and then that one. */
  lemma {:induction false} TypeAtExactly(ty: Ir.Type, indices: seq<Index>)
    requires indices != []
    ensures TypeAt(ty, indices, |indices|) == Descended(ty, indices[1..])
    decreases |indices|
  {
    if |indices| == 1 {
      assert indices[1..] == [];
    } else {
      var all, last := indices[..|indices| - 1], indices[|indices| - 1];
      TypeAtExactly(ty, all);
      TypeAtPrefix(ty, indices, all, |all|);
      assert indices[1..] == all[1..] + [last];
      DescendedOnce(ty, all[1..], last);
    }
  }

  lemma {:induction false} TypeAtPrefix(ty: Ir.Type, indices: seq<Index>, all: seq<Index>, k: nat)
    requires all <= indices && k <= |all|
    ensures TypeAt(ty, indices, k) == TypeAt(ty, all, k)
    decreases k
  {
    if k > 1 {
      TypeAtPrefix(ty, indices, all, k - 1);
    }
  }

  lemma {:induction false} DescendedOnce(ty: Ir.Type, indices: seq<Index>, last: Index)
    ensures Descended(ty, indices + [last]) == match Descended(ty, indices)
      case None => None
      case Some(part) => Descend(part, last)
    decreases |indices|
  {
    if indices == [] {
      assert [last][1..] == [];
    } else {
      assert (indices + [last])[1..] == indices[1..] + [last];
      match ty {
        case ArrayType(elem, _) => DescendedOnce(elem, indices[1..], last);
        case StructType(body) =>
          var i := indices[0];
          if body.Fields? && i.Plain? && i.op.ConstInt? && i.op.c.value < |body.fields| {
            DescendedOnce(body.fields[i.op.c.value], indices[1..], last);
          }
        case _ =>
      }
    }
  }

  lemma {:induction false} TypeAtConcrete(t: L.Target, ty: Ir.Type, indices: seq<Index>, k: nat)
    requires k <= |indices| && L.ValidTarget(t) && P.Concrete(t, ty) && TypeAt(ty, indices, k).Some?
    ensures P.Concrete(t, TypeAt(ty, indices, k).value)
    ensures k >= 1 ==> TypeAt(ty, indices, k - 1).Some? && P.Concrete(t, TypeAt(ty, indices, k - 1).value)
    decreases k
  {
    if k > 1 {
      var before := TypeAt(ty, indices, k - 1).value;
      TypeAtConcrete(t, ty, indices, k - 1);
      DescendConcrete(t, before, indices[k - 1]);
    }
  }

  lemma DescendConcrete(t: L.Target, ty: Ir.Type, index: Index)
    requires L.ValidTarget(t) && P.Concrete(t, ty) && Descend(ty, index).Some?
    ensures P.Concrete(t, Descend(ty, index).value)
  {
    if ty.ArrayType? {
      P.ArrayShapeOf(t, ty);
    } else {
      P.FieldPlaced(t, ty, FieldIndex(index).value);
    }
  }

  function StrideOf(t: L.Target, ty: Ir.Type): nat
    requires L.ValidTarget(t) && P.Concrete(t, ty)
  {
    L.Stride(L.LayoutOf(t, ty).value.layout)
  }

  /** The displacement of one index below the first. */
  ghost function Displacement(arch: Arch, X: Externals, vregs: VRegs, t: L.Target, ty: Ir.Type, index: Index,
                              regs: Regs): int
    requires L.ValidTarget(t) && P.Concrete(t, ty) && Descend(ty, index).Some?
  {
    if ty.ArrayType? then P.ElemStride(t, ty) * IndexValue(arch, X, vregs, index, regs)
    else P.FieldOffset(t, ty, FieldIndex(index).value)
  }

  /** The displacement of the first k indices. */
  ghost function Offset(arch: Arch, X: Externals, vregs: VRegs, t: L.Target, ty: Ir.Type, indices: seq<Index>, k: nat,
                        regs: Regs): int
    requires k <= |indices| && L.ValidTarget(t) && (k > 0 ==> P.Concrete(t, ty)) && TypeAt(ty, indices, k).Some?
    decreases k
  {
    if k == 0 then 0
    else if k == 1 then StrideOf(t, ty) * IndexValue(arch, X, vregs, indices[0], regs)
    else
      TypeAtConcrete(t, ty, indices, k);
      Offset(arch, X, vregs, t, ty, indices, k - 1, regs)
        + Displacement(arch, X, vregs, t, TypeAt(ty, indices, k - 1).value, indices[k - 1], regs)
  }

  ghost predicate AllAgree(arch: Arch, X: Externals, vregs: VRegs, indices: seq<Index>, regs: Regs) {
    forall k :: 0 <= k < |indices| ==> IndexAgrees(arch, X, vregs, indices[k], regs)
  }

  /** The code leaves base plus the displacement of the first k indices in r, modulo the register width. */
  ghost predicate Walked(arch: Arch, code: seq<Inst>, next: nat, r: Register, base: Operand, vregs: VRegs, t: L.Target,
                         ty: Ir.Type, indices: seq<Index>, k: nat)
    requires k <= |indices| && L.ValidTarget(t) && (k > 0 ==> P.Concrete(t, ty)) && TypeAt(ty, indices, k).Some?
  {
    forall X, st: State :: InRange(arch, st.regs) && AllAgree(arch, X, vregs, indices, st.regs) ==>
      var st' := Exec(arch, X, code, st);
      Undisturbed(next, st, st') &&
      Read(st'.regs, r) == Low(Xlen(arch),
        OperandValue(arch, X, vregs, base, st.regs) + Offset(arch, X, vregs, t, ty, indices, k, st.regs))
  }

  /** What the compiler's own 32-bit arithmetic demands of the sizes and constants met on the way, and
      that constant field numbers exist. */
  ghost predicate StepFits(arch: Arch, t: L.Target, ty: Ir.Type, index: Index)
    requires L.ValidTarget(t) && P.Concrete(t, ty)
  {
    match ty
    case ArrayType(_, _) => P.ElemStride(t, ty) < 0x8000_0000 && ConstantFits(arch, P.ElemStride(t, ty), index)
    case StructType(_) => FieldIndex(index).Some? ==>
      FieldIndex(index).value < L.FieldCount(ty) && P.FieldOffset(t, ty, FieldIndex(index).value) < 0x8000_0000
    case _ => true
  }

  ghost predicate WalkFits(arch: Arch, t: L.Target, ty: Ir.Type, indices: seq<Index>)
    requires L.ValidTarget(t)
  {
    P.Concrete(t, ty) && indices != [] ==>
      && StrideOf(t, ty) < 0x8000_0000 && ConstantFits(arch, StrideOf(t, ty), indices[0])
      && forall k :: 1 <= k < |indices| && TypeAt(ty, indices, k).Some? ==>
           P.Concrete(t, TypeAt(ty, indices, k).value) ==>
           StepFits(arch, t, TypeAt(ty, indices, k).value, indices[k])
  }

  // ---------------------------------------------------------------- one more index

  lemma IndexValueKept(arch: Arch, X: Externals, vregs: VRegs, index: Index, next: nat, st: State, mid: State)
    requires UsableIndex(index, vregs, next) && Undisturbed(next, st, mid)
    ensures IndexValue(arch, X, vregs, index, mid.regs) == IndexValue(arch, X, vregs, index, st.regs)
    ensures IndexAgrees(arch, X, vregs, index, mid.regs) == IndexAgrees(arch, X, vregs, index, st.regs)
  {
    hide Low, Signed, Pow2;
  }

  lemma WalkScaled(arch: Arch, c1: seq<Inst>, c2: seq<Inst>, n1: nat, n2: nat, r1: Register, r2: Register,
                   base: Operand, vregs: VRegs, t: L.Target, ty: Ir.Type, indices: seq<Index>, k: nat, stride: nat)
    requires k < |indices| && L.ValidTarget(t) && P.Concrete(t, ty) && TypeAt(ty, indices, k).Some?
    requires TypeAt(ty, indices, k + 1).Some?
    requires Walked(arch, c1, n1, r1, base, vregs, t, ty, indices, k) && n1 <= n2
    requires AddsOffset(arch, c2, n2, r2, r1, stride, indices[k], vregs)
    requires UsableIndex(indices[k], vregs, n1)
    requires forall X, regs ::
      Offset(arch, X, vregs, t, ty, indices, k + 1, regs)
      == Offset(arch, X, vregs, t, ty, indices, k, regs) + stride * IndexValue(arch, X, vregs, indices[k], regs)
    ensures Walked(arch, c1 + c2, n1, r2, base, vregs, t, ty, indices, k + 1)
  {
    hide Low, Pow2, Exec, InRange, OperandValue, IndexAgrees, IndexValue, Offset, TypeAt, P.Concrete, UsableIndex;
    forall X, st: State | InRange(arch, st.regs) && AllAgree(arch, X, vregs, indices, st.regs)
      ensures var st' := Exec(arch, X, c1 + c2, st);
        Undisturbed(n1, st, st') &&
        Read(st'.regs, r2) == Low(Xlen(arch),
          OperandValue(arch, X, vregs, base, st.regs) + Offset(arch, X, vregs, t, ty, indices, k + 1, st.regs))
    {
      ExecAppend(arch, X, c1, c2, st);
      ExecInRange(arch, X, c1, st);
      var mid := Exec(arch, X, c1, st);
      IndexValueKept(arch, X, vregs, indices[k], n1, st, mid);
      SumOfLows(Xlen(arch), OperandValue(arch, X, vregs, base, st.regs)
        + Offset(arch, X, vregs, t, ty, indices, k, st.regs), stride * IndexValue(arch, X, vregs, indices[k], st.regs));
    }
  }

  lemma WalkFixed(arch: Arch, c1: seq<Inst>, c2: seq<Inst>, n1: nat, n2: nat, r1: Register, r2: Register, base: Operand,
                  vregs: VRegs, t: L.Target, ty: Ir.Type, indices: seq<Index>, k: nat, offset: nat)
    requires k < |indices| && L.ValidTarget(t) && P.Concrete(t, ty) && TypeAt(ty, indices, k).Some?
    requires TypeAt(ty, indices, k + 1).Some?
    requires Walked(arch, c1, n1, r1, base, vregs, t, ty, indices, k) && n1 <= n2
    requires AddsValue(arch, c2, n2, r2, r1, offset)
    requires forall X, regs ::
      Offset(arch, X, vregs, t, ty, indices, k + 1, regs) == Offset(arch, X, vregs, t, ty, indices, k, regs) + offset
    ensures Walked(arch, c1 + c2, n1, r2, base, vregs, t, ty, indices, k + 1)
  {
    hide Low, Pow2, Exec, InRange, OperandValue, AllAgree, Offset, TypeAt, P.Concrete;
    forall X, st: State | InRange(arch, st.regs) && AllAgree(arch, X, vregs, indices, st.regs)
      ensures var st' := Exec(arch, X, c1 + c2, st);
        Undisturbed(n1, st, st') &&
        Read(st'.regs, r2) == Low(Xlen(arch),
          OperandValue(arch, X, vregs, base, st.regs) + Offset(arch, X, vregs, t, ty, indices, k + 1, st.regs))
    {
      ExecAppend(arch, X, c1, c2, st);
      ExecInRange(arch, X, c1, st);
      SumOfLows(Xlen(arch), OperandValue(arch, X, vregs, base, st.regs)
        + Offset(arch, X, vregs, t, ty, indices, k, st.regs), offset);
    }
  }

  lemma WalkNothing(arch: Arch, code: seq<Inst>, next: nat, r: Register, base: Operand, vregs: VRegs, t: L.Target,
                    ty: Ir.Type, indices: seq<Index>)
    requires L.ValidTarget(t) && Loads(arch, code, next, r, base, vregs)
    requires UsableOperand(base, vregs, next)
    ensures Walked(arch, code, next, r, base, vregs, t, ty, indices, 0)
  {
    hide Low, Pow2, Exec, AllAgree;
    forall X, st: State | InRange(arch, st.regs)
      ensures Low(Xlen(arch), OperandValue(arch, X, vregs, base, st.regs))
        == OperandValue(arch, X, vregs, base, st.regs)
    {
      OperandInRange(arch, X, vregs, base, st.regs);
      LowSmall(Xlen(arch), OperandValue(arch, X, vregs, base, st.regs));
    }
  }

  // ---------------------------------------------------------------- the lowering

  lemma OffsetFirst(arch: Arch, X: Externals, vregs: VRegs, t: L.Target, ty: Ir.Type, indices: seq<Index>, regs: Regs)
    requires indices != [] && L.ValidTarget(t) && P.Concrete(t, ty)
    ensures Offset(arch, X, vregs, t, ty, indices, 1, regs)
      == Offset(arch, X, vregs, t, ty, indices, 0, regs)
      + StrideOf(t, ty) * IndexValue(arch, X, vregs, indices[0], regs)
  {
    hide IndexValue, StrideOf;
  }

  lemma OffsetNext(arch: Arch, X: Externals, vregs: VRegs, t: L.Target, ty: Ir.Type, indices: seq<Index>, k: nat,
                   regs: Regs)
    requires 1 <= k < |indices| && L.ValidTarget(t) && P.Concrete(t, ty) && TypeAt(ty, indices, k).Some?
    requires P.Concrete(t, TypeAt(ty, indices, k).value) && Descend(TypeAt(ty, indices, k).value, indices[k]).Some?
    ensures TypeAt(ty, indices, k + 1) == Descend(TypeAt(ty, indices, k).value, indices[k])
    ensures Offset(arch, X, vregs, t, ty, indices, k + 1, regs)
         == Offset(arch, X, vregs, t, ty, indices, k, regs)
           + Displacement(arch, X, vregs, t, TypeAt(ty, indices, k).value, indices[k], regs)
  {
    hide Displacement, Descend, P.Concrete;
  }

  lemma {:induction false} NoTypeLater(ty: Ir.Type, indices: seq<Index>, k: nat, n: nat)
    requires 1 <= k <= n <= |indices| && TypeAt(ty, indices, k).None?
    ensures TypeAt(ty, indices, n).None?
    decreases n
  {
    if k < n {
      NoTypeLater(ty, indices, k, n - 1);
    }
  }

  /** The layout of a type, from an engine of its own. */
  method TypeLayoutOf(t: L.Target, ty: Ir.Type) returns (r: L.Result<L.TypeLayout>)
    requires L.ValidTarget(t)
    ensures r == L.LayoutOf(t, ty)
  {
    var engine := new L.TypeLayoutEngine(t);
    r := engine.Query(ty);
  }

  /** Some operand has no register, the base type has no layout, or the indices leave the type. */
  ghost predicate Rejected(t: L.Target, ty: Ir.Type, base: Operand, indices: seq<Index>, vregs: VRegs)
    requires L.ValidTarget(t)
  {
    || (base.Value? && base.id !in vregs) || (exists k :: 0 <= k < |indices| && UnknownIndex(indices[k], vregs))
    || (indices != [] && (!P.Concrete(t, ty) || TypeAt(ty, indices, |indices|).None?))
  }

  /** One array step: adds the scaled index. */
  method StepArray(arch: Arch, t: L.Target, baseTy: Ir.Type, base: Operand, indices: seq<Index>, k: nat, stride: nat,
                   r: Register, vregs: VRegs, start: nat, out: seq<Inst>, ghost n1: nat, fn: MachineFunction)
    returns (res: Lowered, out': seq<Inst>)
    requires L.ValidTarget(t) && P.Concrete(t, baseTy) && k < |indices| && TypeAt(baseTy, indices, k).Some?
    requires TypeAt(baseTy, indices, k + 1).Some?
    requires start <= |out| && n1 <= fn.nextVreg
    requires Walked(arch, out[start..], n1, r, base, vregs, t, baseTy, indices, k)
    requires Allocated(r, fn.nextVreg) && UsableIndex(indices[k], vregs, n1)
    requires UsableIndex(indices[k], vregs, fn.nextVreg) && stride < 0x8000_0000
    requires ConstantFits(arch, stride, indices[k])
    requires forall X, regs ::
      Offset(arch, X, vregs, t, baseTy, indices, k + 1, regs)
      == Offset(arch, X, vregs, t, baseTy, indices, k, regs) + stride * IndexValue(arch, X, vregs, indices[k], regs)
    modifies fn`nextVreg
    ensures fn.nextVreg >= old(fn.nextVreg) && out <= out'
    ensures res.UnknownOperand? ==> UnknownIndex(indices[k], vregs)
    ensures res.Ok? ==>
      && Allocated(res.r, fn.nextVreg)
      && Walked(arch, out'[start..], n1, res.r, base, vregs, t, baseTy, indices, k + 1)
    ensures Encoded(arch, out, out')
  {
    hide Encoded, Walked, AddsOffset, Offset, TypeAt, P.Concrete, IndexValue, UsableIndex, ConstantFits;
    ghost var n2 := fn.nextVreg;
    res, out' := EmitAddOffset(arch, r, stride, indices[k], vregs, out, fn);
    if res.Ok? {
      assert out'[start..] == out[start..] + out'[|out|..];
      WalkScaled(arch, out[start..], out'[|out|..], n1, n2, r, res.r, base, vregs, t, baseTy, indices, k, stride);
    }
  }

  /** One struct step: adds the field's offset. */
  method StepField(arch: Arch, t: L.Target, baseTy: Ir.Type, base: Operand, indices: seq<Index>, k: nat, offset: nat,
                   r: Register, vregs: VRegs, start: nat, out: seq<Inst>, ghost n1: nat, fn: MachineFunction)
    returns (r': Register, out': seq<Inst>)
    requires L.ValidTarget(t) && P.Concrete(t, baseTy) && k < |indices| && TypeAt(baseTy, indices, k).Some?
    requires TypeAt(baseTy, indices, k + 1).Some?
    requires start <= |out| && n1 <= fn.nextVreg
    requires Walked(arch, out[start..], n1, r, base, vregs, t, baseTy, indices, k) && Allocated(r, fn.nextVreg)
    requires forall X, regs ::
      Offset(arch, X, vregs, t, baseTy, indices, k + 1, regs)
      == Offset(arch, X, vregs, t, baseTy, indices, k, regs) + offset
    requires offset < 0x8000_0000
    modifies fn`nextVreg
    ensures fn.nextVreg >= old(fn.nextVreg) && out <= out'
    ensures Allocated(r', fn.nextVreg) && Walked(arch, out'[start..], n1, r', base, vregs, t, baseTy, indices, k + 1)
    ensures Encoded(arch, out, out')
  {
    hide Walked, AddsValue, Offset, TypeAt, P.Concrete, Encoded;
    EncodedNothing(arch, out);
    ghost var n2 := fn.nextVreg;
    if offset == 0 {
      r', out' := r, out;
      AddsNothing(arch, n2, r);
      assert out'[start..] == out[start..] + [];
      WalkFixed(arch, out[start..], [], n1, n2, r, r, base, vregs, t, baseTy, indices, k, 0);
    } else if offset <= 2047 {
      r' := fn.NewVreg();
      EncodedFirst(arch, out, RegImm(Addi, r', r, offset));
      out' := out + [RegImm(Addi, r', r, offset)];
      AddsByImmediate(arch, n2, r', r, offset);
      assert out'[start..] == out[start..] + [RegImm(Addi, r', r, offset)];
      WalkFixed(arch, out[start..], [RegImm(Addi, r', r, offset)], n1, n2, r, r', base, vregs, t, baseTy, indices, k,
        offset);
    } else {
      var immReg := fn.NewVreg();
      out' := out + [Li(immReg, offset)];
      r' := fn.NewVreg();
      EncodedFirst(arch, out, Li(immReg, offset));
      EncodedOne(arch, out, out', RegReg(RegOp.Add, r', r, immReg));
      out' := out' + [RegReg(RegOp.Add, r', r, immReg)];
      AddsByLoading(arch, n2, immReg, r', r, offset);
      assert out'[start..] == out[start..] + [Li(immReg, offset), RegReg(RegOp.Add, r', r, immReg)];
      WalkFixed(arch, out[start..], [Li(immReg, offset), RegReg(RegOp.Add, r', r, immReg)], n1, n2, r, r', base, vregs,
        t, baseTy, indices, k, offset);
    }
  }

  lemma AddsNothing(arch: Arch, next: nat, r: Register)
    ensures AddsValue(arch, [], next, r, r, 0)
  {
    hide Pow2, Low;
    forall X, st: State | InRange(arch, st.regs)
      ensures Exec(arch, X, [], st) == st && Read(st.regs, r) == Low(Xlen(arch), Read(st.regs, r) + 0)
    {
      ReadSmall(arch, st.regs, r);
    }
  }

  lemma StillUsable(index: Index, vregs: VRegs, n: nat, m: nat)
    requires n <= m && UsableIndex(index, vregs, n)
    ensures UsableIndex(index, vregs, m)
  {
  }

  /** From every state the code leaves the address in rd and disturbs nothing else. */
  ghost predicate ComputesAddress(arch: Arch, code: seq<Inst>, next: nat, rd: Register, base: Operand, vregs: VRegs,
                                  t: L.Target, ty: Ir.Type, indices: seq<Index>)
    requires L.ValidTarget(t) && (indices != [] ==> P.Concrete(t, ty)) && TypeAt(ty, indices, |indices|).Some?
  {
    forall X, st: State :: InRange(arch, st.regs) && AllAgree(arch, X, vregs, indices, st.regs) ==>
      var st' := Exec(arch, X, code, st);
      KeepsOthers(next, rd, st, st') &&
      Read(st'.regs, rd) == Low(Xlen(arch),
        OperandValue(arch, X, vregs, base, st.regs) + Offset(arch, X, vregs, t, ty, indices, |indices|, st.regs))
  }

  lemma WalkedAt(arch: Arch, code: seq<Inst>, next: nat, r: Register, base: Operand, vregs: VRegs, t: L.Target,
                 ty: Ir.Type, indices: seq<Index>, k: nat, X: Externals, st: State)
    requires k <= |indices| && L.ValidTarget(t) && (k > 0 ==> P.Concrete(t, ty)) && TypeAt(ty, indices, k).Some?
    requires Walked(arch, code, next, r, base, vregs, t, ty, indices, k) && InRange(arch, st.regs)
    requires AllAgree(arch, X, vregs, indices, st.regs)
    ensures var st' := Exec(arch, X, code, st);
      Undisturbed(next, st, st') &&
      Read(st'.regs, r) == Low(Xlen(arch),
        OperandValue(arch, X, vregs, base, st.regs) + Offset(arch, X, vregs, t, ty, indices, k, st.regs))
  {
    hide Low, Pow2, Exec, InRange, OperandValue, AllAgree, Offset, TypeAt, P.Concrete, Undisturbed;
  }

  lemma MovedAddress(arch: Arch, code: seq<Inst>, next: nat, r: Register, rd: Register, base: Operand, vregs: VRegs,
                     t: L.Target, ty: Ir.Type, indices: seq<Index>)
    requires L.ValidTarget(t) && (indices != [] ==> P.Concrete(t, ty)) && TypeAt(ty, indices, |indices|).Some?
    requires rd != ZERO
    requires Walked(arch, code, next, r, base, vregs, t, ty, indices, |indices|)
    ensures ComputesAddress(arch, if r == rd then code else code + [Mv(rd, r)], next, rd, base, vregs, t, ty, indices)
  {
    hide Low, Pow2, Exec, Step, InRange, OperandValue, AllAgree, Offset, TypeAt, P.Concrete, Walked;
    forall X, st: State | InRange(arch, st.regs) && AllAgree(arch, X, vregs, indices, st.regs)
      ensures var st' := Exec(arch, X, if r == rd then code else code + [Mv(rd, r)], st);
        KeepsOthers(next, rd, st, st') &&
        Read(st'.regs, rd) == Low(Xlen(arch),
          OperandValue(arch, X, vregs, base, st.regs) + Offset(arch, X, vregs, t, ty, indices, |indices|, st.regs))
    {
      WalkedAt(arch, code, next, r, base, vregs, t, ty, indices, |indices|, X, st);
      if r != rd {
        ExecSnoc(arch, X, code, Mv(rd, r), st);
        StepCompute(arch, X, Mv(rd, r), Exec(arch, X, code, st));
        SumOfLows(Xlen(arch), OperandValue(arch, X, vregs, base, st.regs)
          + Offset(arch, X, vregs, t, ty, indices, |indices|, st.regs), 0);
      }
    }
  }

  /** One step of the walk below the first index. */
  method StepInto(arch: Arch, t: L.Target, baseTy: Ir.Type, ty: Ir.Type, base: Operand, indices: seq<Index>, k: nat,
                  r: Register, vregs: VRegs, start: nat, out: seq<Inst>, ghost n1: nat, fn: MachineFunction)
    returns (res: Lowered, ty': Ir.Type, out': seq<Inst>)
    requires L.ValidTarget(t) && P.Concrete(t, baseTy) && 1 <= k < |indices| && TypeAt(baseTy, indices, k) == Some(ty)
    requires P.Concrete(t, ty) && StepFits(arch, t, ty, indices[k])
    requires start <= |out| && n1 <= fn.nextVreg
    requires Walked(arch, out[start..], n1, r, base, vregs, t, baseTy, indices, k) && Allocated(r, fn.nextVreg)
    requires UsableIndex(indices[k], vregs, n1)
    modifies fn`nextVreg
    ensures fn.nextVreg >= old(fn.nextVreg) && out <= out'
    ensures res.UnknownOperand? ==> UnknownIndex(indices[k], vregs) || TypeAt(baseTy, indices, k + 1).None?
    ensures res.Ok? ==>
      && Allocated(res.r, fn.nextVreg) && TypeAt(baseTy, indices, k + 1) == Some(ty')
      && Walked(arch, out'[start..], n1, res.r, base, vregs, t, baseTy, indices, k + 1)
    ensures Encoded(arch, out, out')
  {
    EncodedNothing(arch, out);
    hide Encoded, Walked, Offset, P.Concrete, IndexValue, UsableIndex, ConstantFits, UnknownIndex, L.LayoutOf,
      P.ElemStride,
      P.FieldOffset;
    ty' := ty;
    var layout := TypeLayoutOf(t, ty);
    KnownLayout(t, ty);
    P.ShapeKnown(t, ty);
    match ty {
      case StructType(body) =>
        P.StructShapeOf(t, ty);
        var field := FieldIndex(indices[k]);
        if field.None? {
          return UnknownOperand, ty, out;
        }
        var offset := layout.value.shape.fields[field.value].offset;
        forall X, regs
          ensures TypeAt(baseTy, indices, k + 1).Some?
          ensures Offset(arch, X, vregs, t, baseTy, indices, k + 1, regs)
            == Offset(arch, X, vregs, t, baseTy, indices, k, regs) + offset
        {
          OffsetNext(arch, X, vregs, t, baseTy, indices, k, regs);
        }
        var r';
        r', out' := StepField(arch, t, baseTy, base, indices, k, offset, r, vregs, start, out, n1, fn);
        res, ty' := Ok(r'), body.fields[field.value];
      case ArrayType(elem, _) =>
        var stride := layout.value.shape.stride;
        forall X, regs
          ensures TypeAt(baseTy, indices, k + 1).Some? && Offset(arch, X, vregs, t, baseTy, indices, k + 1, regs)
            == Offset(arch, X, vregs, t, baseTy, indices, k, regs)
              + stride * IndexValue(arch, X, vregs, indices[k], regs)
        {
          OffsetNext(arch, X, vregs, t, baseTy, indices, k, regs);
        }
        StillUsable(indices[k], vregs, n1, fn.nextVreg);
        res, out' := StepArray(arch, t, baseTy, base, indices, k, stride, r, vregs, start, out, n1, fn);
        ty' := elem;
      case _ =>
        return UnknownOperand, ty, out;
    }
  }

  lemma KnownLayout(t: L.Target, ty: Ir.Type)
    requires L.ValidTarget(t)
    ensures P.Concrete(t, ty) <==> L.LayoutOf(t, ty).Ok?
  {
  }

  /** The walk over all indices of a base type that has a layout. */
  method Walk(arch: Arch, t: L.Target, baseTy: Ir.Type, base: Operand, indices: seq<Index>, first: Register,
              vregs: VRegs, start: nat, out: seq<Inst>, ghost n1: nat, fn: MachineFunction)
    returns (res: Lowered, out': seq<Inst>)
    requires L.ValidTarget(t) && P.Concrete(t, baseTy) && indices != [] && WalkFits(arch, t, baseTy, indices)
    requires n1 <= fn.nextVreg
    requires start <= |out| && Walked(arch, out[start..], n1, first, base, vregs, t, baseTy, indices, 0)
    requires Allocated(first, fn.nextVreg)
    requires forall k :: 0 <= k < |indices| ==> UsableIndex(indices[k], vregs, n1)
    modifies fn`nextVreg
    ensures fn.nextVreg >= old(fn.nextVreg) && out <= out'
    ensures res.UnknownOperand? ==>
      (exists k :: 0 <= k < |indices| && UnknownIndex(indices[k], vregs)) || TypeAt(baseTy, indices, |indices|).None?
    ensures res.Ok? ==>
      && Allocated(res.r, fn.nextVreg) && TypeAt(baseTy, indices, |indices|).Some?
      && Walked(arch, out'[start..], n1, res.r, base, vregs, t, baseTy, indices, |indices|)
    ensures Encoded(arch, out, out')
  {
    hide Encoded, Walked, Offset, P.Concrete, UsableIndex, UnknownIndex, ConstantFits, L.LayoutOf, StrideOf, StepFits,
      Descend,
      IndexValue;
    var layout := TypeLayoutOf(t, baseTy);
    KnownLayout(t, baseTy);
    StrideIs(t, baseTy);
    var stride := L.Stride(layout.value.layout);
    forall X, regs
      ensures Offset(arch, X, vregs, t, baseTy, indices, 1, regs)
        == Offset(arch, X, vregs, t, baseTy, indices, 0, regs) + stride * IndexValue(arch, X, vregs, indices[0], regs)
    {
      OffsetFirst(arch, X, vregs, t, baseTy, indices, regs);
    }
    StillUsable(indices[0], vregs, n1, fn.nextVreg);
    res, out' := StepArray(arch, t, baseTy, base, indices, 0, stride, first, vregs, start, out, n1, fn);
    var ty := baseTy;
    var k := 1;
    while k < |indices| && res.Ok?
      invariant 1 <= k <= |indices| && fn.nextVreg >= n1 && fn.nextVreg >= old(fn.nextVreg) && out <= out'
      invariant Encoded(arch, out, out')
      invariant res.Ok? ==> Allocated(res.r, fn.nextVreg) && TypeAt(baseTy, indices, k) == Some(ty) && P.Concrete(t, ty)
      invariant res.Ok? ==> Walked(arch, out'[start..], n1, res.r, base, vregs, t, baseTy, indices, k)
      invariant res.UnknownOperand? ==>
        (exists j :: 0 <= j < |indices| && UnknownIndex(indices[j], vregs)) || TypeAt(baseTy, indices, k).None?
      decreases |indices| - k, res.Ok?
    {
      ghost var was := out';
      res, ty, out' := StepInto(arch, t, baseTy, ty, base, indices, k, res.r, vregs, start, out', n1, fn);
      EncodedThen(arch, out, was, out');
      k := k + 1;
      if res.Ok? {
        TypeAtConcrete(t, baseTy, indices, k);
      }
    }
    if TypeAt(baseTy, indices, k).None? {
      NoTypeLater(baseTy, indices, k, |indices|);
    }
  }

  /** Loads the base and walks the indices, if there are any. */
  method EmitAddress(arch: Arch, t: L.Target, baseTy: Ir.Type, base: Operand, indices: seq<Index>, vregs: VRegs,
                     out: seq<Inst>, fn: MachineFunction)
    returns (res: Lowered, out': seq<Inst>)
    requires L.ValidTarget(t) && WalkFits(arch, t, baseTy, indices)
    requires UsableOperand(base, vregs, fn.nextVreg)
    requires (forall k :: 0 <= k < |indices| ==> UsableIndex(indices[k], vregs, fn.nextVreg))
    modifies fn`nextVreg
    ensures fn.nextVreg >= old(fn.nextVreg) && out <= out'
    ensures res.UnknownOperand? ==> Rejected(t, baseTy, base, indices, vregs)
    ensures res.Ok? ==> (indices != [] ==> P.Concrete(t, baseTy)) && TypeAt(baseTy, indices, |indices|).Some?
    ensures res.Ok? ==> Walked(arch, out'[|out|..], old(fn.nextVreg), res.r, base, vregs, t, baseTy, indices, |indices|)
    ensures Encoded(arch, out, out')
  {
    hide Encoded, Walked, Loads, Offset, P.Concrete, UsableIndex, UnknownIndex, ConstantFits, L.LayoutOf, WalkFits,
      UsableOperand;
    ghost var n1 := fn.nextVreg;
    res, out' := LowerOperand(arch, base, vregs, out, fn);
    if res.UnknownOperand? {
      return;
    }
    WalkNothing(arch, out'[|out|..], n1, res.r, base, vregs, t, baseTy, indices);
    if indices != [] {
      var layout := TypeLayoutOf(t, baseTy);
      KnownLayout(t, baseTy);
      if layout.Err? {
        return UnknownOperand, out';
      }
      ghost var loaded := out';
      res, out' := Walk(arch, t, baseTy, base, indices, res.r, vregs, |out|, out', n1, fn);
      EncodedThen(arch, out, loaded, out');
    }
  }

  /** The address computation of one getelementptr: base plus the displacement of its indices, modulo
      the register width, or a refusal for a reason the caller could have seen. */
  method LowerGep(arch: Arch, t: L.Target, baseTy: Ir.Type, base: Operand, indices: seq<Index>, rd: Register,
                  vregs: VRegs, out: seq<Inst>, fn: MachineFunction)
    returns (ok: bool, out': seq<Inst>)
    requires L.ValidTarget(t) && WalkFits(arch, t, baseTy, indices)
    requires UsableOperand(base, vregs, fn.nextVreg)
    requires (forall k :: 0 <= k < |indices| ==> UsableIndex(indices[k], vregs, fn.nextVreg))
    requires rd != ZERO && Allocated(rd, fn.nextVreg)
    modifies fn`nextVreg
    ensures fn.nextVreg >= old(fn.nextVreg) && out <= out'
    ensures !ok ==> Rejected(t, baseTy, base, indices, vregs)
    ensures ok ==> (indices != [] ==> P.Concrete(t, baseTy)) && TypeAt(baseTy, indices, |indices|).Some?
    ensures ok ==> ComputesAddress(arch, out'[|out|..], old(fn.nextVreg), rd, base, vregs, t, baseTy, indices)
    ensures ok && indices != [] ==>
      AddressesParts(arch, out'[|out|..], old(fn.nextVreg), rd, base, vregs, t, baseTy, indices)
    ensures Encoded(arch, out, out')
  {
    hide Encoded, Walked, Offset, P.Concrete, UsableIndex, ComputesAddress, AddressesParts, WalkFits, UsableOperand,
      Rejected;
    ghost var n1 := fn.nextVreg;
    var res;
    res, out' := EmitAddress(arch, t, baseTy, base, indices, vregs, out, fn);
    ok := res.Ok?;
    if !ok {
      return;
    }
    ghost var code := out'[|out|..];
    MovedAddress(arch, code, n1, res.r, rd, base, vregs, t, baseTy, indices);
    if res.r != rd {
      EncodedOne(arch, out, out', Mv(rd, res.r));
      out' := out' + [Mv(rd, res.r)];
      assert out'[|out|..] == code + [Mv(rd, res.r)];
    }
    if indices != [] {
      AddressIsPart(arch, out'[|out|..], n1, rd, base, vregs, t, baseTy, indices);
    }
  }

  lemma StrideIs(t: L.Target, ty: Ir.Type)
    requires L.ValidTarget(t) && P.Concrete(t, ty)
    ensures StrideOf(t, ty) == L.Stride(L.LayoutOf(t, ty).value.layout)
  {
  }

  // ---------------------------------------------------------------- the layout's own offset

  lemma {:induction false} PathAppends(t: L.Target, ty: Ir.Type, path: seq<nat>, i: nat)
    requires L.ValidTarget(t) && P.Concrete(t, ty) && P.SubType(ty, path + [i]).Some?
    ensures P.SubType(ty, path).Some? && P.Concrete(t, P.SubType(ty, path).value)
    ensures P.SubType(P.SubType(ty, path).value, [i]) == P.SubType(ty, path + [i])
    ensures P.PathOffset(t, ty, path + [i])
      == P.PathOffset(t, ty, path) + P.PathOffset(t, P.SubType(ty, path).value, [i])
    decreases |path|
  {
    hide L.LayoutOf;
    if path == [] {
      assert path + [i] == [i];
    } else {
      assert (path + [i])[1..] == path[1..] + [i];
      var part, start := P.PathStep(t, ty, path + [i]);
      PathAppends(t, part, path[1..], i);
    }
  }

  /** The indices after the first k, as numbers. */
  ghost predicate Follows(arch: Arch, X: Externals, vregs: VRegs, indices: seq<Index>, regs: Regs, path: seq<nat>) {
    |path| == |indices| - 1 && forall k :: 0 <= k < |path| ==>
      IndexValue(arch, X, vregs, indices[k + 1], regs) == path[k]
      && (indices[k + 1].Plain? && indices[k + 1].op.ConstInt? ==> indices[k + 1].op.c.Valid())
  }

  lemma StepIsPath(arch: Arch, X: Externals, vregs: VRegs, t: L.Target, ty: Ir.Type, index: Index, regs: Regs, i: nat)
    requires L.ValidTarget(t) && P.Concrete(t, ty) && IndexValue(arch, X, vregs, index, regs) == i
    requires P.SubType(ty, [i]).Some?
    requires index.Plain? && index.op.ConstInt? ==> index.op.c.Valid()
    requires ty.StructType? ==> FieldIndex(index).Some?
    ensures Descend(ty, index) == P.SubType(ty, [i])
    ensures Displacement(arch, X, vregs, t, ty, index, regs) == P.PathOffset(t, ty, [i])
  {
    assert [i][1..] == [];
    hide L.LayoutOf;
    if ty.StructType? {
      NonNegative(index.op.c);
      P.FieldPlaced(t, ty, i);
      assert P.PathOffset(t, ty, [i]) == P.FieldOffset(t, ty, i) + P.PathOffset(t, ty.body.fields[i], []);
    } else {
      P.ArrayShapeOf(t, ty);
      assert P.PathOffset(t, ty, [i]) == i * P.ElemStride(t, ty) + P.PathOffset(t, ty.elem, []);
      assert i * P.ElemStride(t, ty) == P.ElemStride(t, ty) * i;
    }
  }

  lemma NonNegative(c: CoreInt)
    requires c.Valid() && c.AsI64() >= 0
    ensures c.AsI64() == c.value
  {
    LowSmall(c.width, c.value);
  }

  /** When the index values name a part of the type, the displacement is the layout's own offset of
      that part, after whole steps over the base type. */
  lemma {:induction false} GepIsPathOffset(arch: Arch, X: Externals, vregs: VRegs, t: L.Target, ty: Ir.Type,
                                           indices: seq<Index>, regs: Regs, path: seq<nat>, k: nat)
    requires L.ValidTarget(t) && P.Concrete(t, ty) && Follows(arch, X, vregs, indices, regs, path) && k <= |path|
    requires P.SubType(ty, path[..k]).Some?
    requires TypeAt(ty, indices, |indices|).Some?
    ensures TypeAt(ty, indices, k + 1) == P.SubType(ty, path[..k])
    ensures Offset(arch, X, vregs, t, ty, indices, k + 1, regs)
      == StrideOf(t, ty) * IndexValue(arch, X, vregs, indices[0], regs) + P.PathOffset(t, ty, path[..k])
    decreases k
  {
    hide L.LayoutOf, IndexValue, P.Concrete;
    if k == 0 {
      assert path[..0] == [];
      OffsetFirst(arch, X, vregs, t, ty, indices, regs);
    } else {
      assert path[..k] == path[..k - 1] + [path[k - 1]];
      PathAppends(t, ty, path[..k - 1], path[k - 1]);
      GepIsPathOffset(arch, X, vregs, t, ty, indices, regs, path, k - 1);
      var here := TypeAt(ty, indices, k).value;
      TypeContinues(ty, indices, k);
      StepIsPath(arch, X, vregs, t, here, indices[k], regs, path[k - 1]);
      OffsetNext(arch, X, vregs, t, ty, indices, k, regs);
    }
  }

  /** Whatever part of the type the index values name, the code leaves in rd the base, plus whole steps
      over the base type, plus the layout's own offset of that part, modulo the register width. */
  ghost predicate AddressesParts(arch: Arch, code: seq<Inst>, next: nat, rd: Register, base: Operand, vregs: VRegs,
                                 t: L.Target, ty: Ir.Type, indices: seq<Index>)
    requires L.ValidTarget(t) && P.Concrete(t, ty) && indices != []
  {
    forall X, st: State, path :: InRange(arch, st.regs) && Names(arch, X, vregs, ty, indices, st.regs, path) ==>
      AddressesPart(arch, X, code, next, rd, base, vregs, t, ty, indices, st, path)
  }

  /** The values of the indices after the first are the path of a part of the type. */
  ghost predicate Names(arch: Arch, X: Externals, vregs: VRegs, ty: Ir.Type, indices: seq<Index>, regs: Regs,
                        path: seq<nat>) {
    AllAgree(arch, X, vregs, indices, regs) && Follows(arch, X, vregs, indices, regs, path) && P.SubType(ty, path).Some?
  }

  ghost predicate AddressesPart(arch: Arch, X: Externals, code: seq<Inst>, next: nat, rd: Register, base: Operand,
                                vregs: VRegs, t: L.Target, ty: Ir.Type, indices: seq<Index>, st: State, path: seq<nat>)
    requires L.ValidTarget(t) && P.Concrete(t, ty) && indices != [] && P.SubType(ty, path).Some?
  {
    var st' := Exec(arch, X, code, st);
    && KeepsOthers(next, rd, st, st')
    && Read(st'.regs, rd) == Low(Xlen(arch), OperandValue(arch, X, vregs, base, st.regs)
                                           + StrideOf(t, ty) * IndexValue(arch, X, vregs, indices[0], st.regs)
                                             + P.PathOffset(t, ty, path))
  }

  lemma AddressIsPart(arch: Arch, code: seq<Inst>, next: nat, rd: Register, base: Operand, vregs: VRegs, t: L.Target,
                      ty: Ir.Type, indices: seq<Index>)
    requires L.ValidTarget(t) && P.Concrete(t, ty) && indices != [] && TypeAt(ty, indices, |indices|).Some?
    requires ComputesAddress(arch, code, next, rd, base, vregs, t, ty, indices)
    ensures AddressesParts(arch, code, next, rd, base, vregs, t, ty, indices)
  {
    hide Exec, InRange, OperandValue, IndexValue, Offset, TypeAt, P.Concrete, P.PathOffset, P.SubType, Low, KeepsOthers,
      StrideOf, AllAgree;
    forall X, st: State, path | InRange(arch, st.regs) && Names(arch, X, vregs, ty, indices, st.regs, path)
      ensures AddressesPart(arch, X, code, next, rd, base, vregs, t, ty, indices, st, path)
    {
      assert path[..|path|] == path;
      GepIsPathOffset(arch, X, vregs, t, ty, indices, st.regs, path, |path|);
    }
  }

  /** A walk that reaches the end has a field number wherever it meets a struct. */
  lemma TypeContinues(ty: Ir.Type, indices: seq<Index>, k: nat)
    requires 1 <= k < |indices| && TypeAt(ty, indices, |indices|).Some?
    ensures TypeAt(ty, indices, k).Some? && (TypeAt(ty, indices, k).value.StructType? ==> FieldIndex(indices[k]).Some?)
  {
    if TypeAt(ty, indices, k).None? {
      NoTypeLater(ty, indices, k, |indices|);
    }
    if TypeAt(ty, indices, k + 1).None? {
      NoTypeLater(ty, indices, k + 1, |indices|);
    }
  }
}
