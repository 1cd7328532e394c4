/** Value numbering (src/ir/opt/global_gvn.rs:11-36, 185-221): keys, what they denote, and when an
    instruction may be exchanged for an earlier one with its key. */
module Gvn {
  import opened CoreInts
  import opened Ir
  import opened Semantics
  import opened Ssa
  import opened Typing
  import opened Rewrites
  import opened Clearing

  // ---------------------------------------------------------------- keys

  datatype CanonValue = CConst(width: nat, value: nat) | CNull | CUndef(ty: Type) | CValue(v: ValueId)

  datatype ExprKey =
    | BinaryKey(op: BinaryOpcode, lhs: CanonValue, rhs: CanonValue)
    | ICmpKey(code: ICmpCode, lhs: CanonValue, rhs: CanonValue)
    | TruncKey(value: CanonValue, ty: Type)
    | ZextKey(value: CanonValue, ty: Type)
    | SextKey(value: CanonValue, ty: Type)
    | PtrToIntKey(value: CanonValue, ty: Type)
    | GepKey(baseTy: Type, base: CanonValue, indices: seq<CanonValue>)
    | SelectKey(cond: CanonValue, thenVal: CanonValue, elseVal: CanonValue)

  function CanonGvn(consts: seq<ConstData>, v: ValueId): CanonValue {
    if v.ConstValue? && v.id < |consts| then
      match consts[v.id]
      case IntConst(c, _) => CConst(c.width, c.value)
      case NullConst(_) => CNull
      case UndefConst(ty) => CUndef(ty)
      case OtherConst(_) => CValue(v)
    else CValue(v)
  }

  function CanonAll(consts: seq<ConstData>, vs: seq<ValueId>): (r: seq<CanonValue>)
    ensures |r| == |vs|
  {
    seq(|vs|, k requires 0 <= k < |vs| => CanonGvn(consts, vs[k]))
  }

  function Rank(c: CanonValue): nat {
    match c
    case CConst(_, _) => 0
    case CNull => 1
    case CUndef(_) => 2
    case CValue(_) => 3
  }

  /** The order commutative operands are put in; `text` stands for the order of the values' debug
      text, which the compiler compares. */
  predicate CmpCanonGvn(text: ValueId -> int, a: CanonValue, b: CanonValue) {
    if Rank(a) != Rank(b) then Rank(a) <= Rank(b)
    else if a.CConst? && b.CConst? then a.width < b.width || (a.width == b.width && a.value <= b.value)
    else if a.CValue? && b.CValue? then text(a.v) <= text(b.v)
    else true
  }

  predicate IsCommutative(op: BinaryOpcode) {
    op == Add || op == Mul || op == And || op == Or || op == Xor
  }

  function KeyOf(text: ValueId -> int, consts: seq<ConstData>, d: InstData): Option<ExprKey> {
    match d.kind
    case Binary(op, lhs, rhs) =>
      var l, r := CanonGvn(consts, lhs), CanonGvn(consts, rhs);
      Some(if IsCommutative(op) && !CmpCanonGvn(text, l, r) then BinaryKey(op, r, l) else BinaryKey(op, l, r))
    case ICmp(code, lhs, rhs) =>
      var l, r := CanonGvn(consts, lhs), CanonGvn(consts, rhs);
      Some(if (code == Eq || code == Ne) && !CmpCanonGvn(text, l, r) then ICmpKey(code, r, l) else ICmpKey(code, l, r))
    case Trunc(value) => Some(TruncKey(CanonGvn(consts, value), d.ty))
    case Zext(value) => Some(ZextKey(CanonGvn(consts, value), d.ty))
    case Sext(value) => Some(SextKey(CanonGvn(consts, value), d.ty))
    case PtrToInt(ptr) => Some(PtrToIntKey(CanonGvn(consts, ptr), d.ty))
    case GetElementPtr(ty, base, indices) => Some(GepKey(ty, CanonGvn(consts, base), CanonAll(consts, indices)))
    case Select(c, t, e) => Some(SelectKey(CanonGvn(consts, c), CanonGvn(consts, t), CanonGvn(consts, e)))
    case _ => None
  }

  // ---------------------------------------------------------------- which instructions share a key

  predicate IsUndef(consts: seq<ConstData>, v: ValueId) {
    v.ConstValue? && v.id < |consts| && consts[v.id].UndefConst?
  }

  /** Two undefined operands have one type, as the operands of one instruction do. */
  predicate OneTyped(consts: seq<ConstData>, kind: InstKind) {
    forall a, b :: a in Args(kind) && b in Args(kind) && IsUndef(consts, a) && IsUndef(consts, b) ==>
      consts[a.id] == consts[b.id]
  }

  /** The same value, or constants that are the same integer of one width, both null, or undefined of
      one type. */
  predicate SameOperand(consts: seq<ConstData>, a: ValueId, b: ValueId) {
    a == b
    || (a.ConstValue? && b.ConstValue? && a.id < |consts| && b.id < |consts| && SameConst(consts[a.id], consts[b.id]))
  }

  predicate SameConst(c: ConstData, d: ConstData) {
    match c
    case IntConst(n, _) => d.IntConst? && d.c.width == n.width && d.c.value == n.value
    case NullConst(_) => d.NullConst?
    case UndefConst(ty) => d == UndefConst(ty)
    case OtherConst(_) => false
  }

  predicate SameOperands(consts: seq<ConstData>, xs: seq<ValueId>, ys: seq<ValueId>) {
    |xs| == |ys| && forall k :: 0 <= k < |xs| ==> SameOperand(consts, xs[k], ys[k])
  }

  /** The same pure operator on the same operands, in the other order too where order does not matter.
      An allocation computes the same as nothing else. */
  predicate SameComputation(consts: seq<ConstData>, d: InstData, e: InstData) {
    match d.kind
    case Binary(op, l, r) =>
      e.kind.Binary? && e.kind.op == op
      && (SameOperands(consts, [l, r], [e.kind.lhs, e.kind.rhs])
          || ((op.Add? || op.Mul? || op.And? || op.Or? || op.Xor?)
              && SameOperands(consts, [l, r], [e.kind.rhs, e.kind.lhs])))
    case ICmp(code, l, r) =>
      e.kind.ICmp? && e.kind.code == code
      && (SameOperands(consts, [l, r], [e.kind.lhs, e.kind.rhs])
          || ((code.Eq? || code.Ne?) && SameOperands(consts, [l, r], [e.kind.rhs, e.kind.lhs])))
    case GetElementPtr(ty, base, indices) =>
      e.kind.GetElementPtr? && e.kind.baseTy == ty && SameOperand(consts, base, e.kind.base)
      && SameOperands(consts, indices, e.kind.indices)
    case Select(c, t, f) =>
      e.kind.Select? && SameOperands(consts, [c, t, f], [e.kind.condVal, e.kind.thenVal, e.kind.elseVal])
    case PtrToInt(v) => e.kind.PtrToInt? && e.ty == d.ty && SameOperand(consts, v, e.kind.ptr)
    case Trunc(v) => e.kind.Trunc? && e.ty == d.ty && SameOperand(consts, v, e.kind.value)
    case Zext(v) => e.kind.Zext? && e.ty == d.ty && SameOperand(consts, v, e.kind.value)
    case Sext(v) => e.kind.Sext? && e.ty == d.ty && SameOperand(consts, v, e.kind.value)
    case _ => false
  }

  /** No two values have the same debug text. */
  ghost predicate TextsDiffer(text: ValueId -> int) {
    forall v, w :: text(v) == text(w) ==> v == w
  }

  /** Exactly the pure instructions but allocations have a key. */
  lemma KeyedExactly(text: ValueId -> int, consts: seq<ConstData>, d: InstData)
    ensures KeyOf(text, consts, d).Some? <==> IsPure(d.kind) && !d.kind.Alloca?
  {
  }

  /** Two of them have the same key exactly when they compute the same. */
  lemma SameKeyExactly(text: ValueId -> int, consts: seq<ConstData>, d: InstData, e: InstData)
    requires TextsDiffer(text) && OneTyped(consts, d.kind) && OneTyped(consts, e.kind)
    requires IsPure(d.kind) && !d.kind.Alloca? && IsPure(e.kind) && !e.kind.Alloca?
    ensures KeyOf(text, consts, d).Some? && KeyOf(text, consts, e).Some?
    ensures KeyOf(text, consts, d) == KeyOf(text, consts, e) <==> SameComputation(consts, d, e)
  {
    if d.kind.Binary? && e.kind.Binary? {
      SameBinary(text, consts, d, e);
    } else if d.kind.ICmp? && e.kind.ICmp? {
      SameICmp(text, consts, d, e);
    } else {
      SameInOrder(text, consts, d, e);
    }
    hide CanonGvn, CmpCanonGvn, SameComputation, SameOperand, OneTyped;
  }

  lemma SameOperandExactly(consts: seq<ConstData>, a: ValueId, b: ValueId)
    ensures SameOperand(consts, a, b) <==> CanonGvn(consts, a) == CanonGvn(consts, b)
    ensures IsUndef(consts, a) <==> CanonGvn(consts, a).CUndef?
  {
  }

  lemma SameOperandsExactly(consts: seq<ConstData>, xs: seq<ValueId>, ys: seq<ValueId>)
    ensures SameOperands(consts, xs, ys) <==> CanonAll(consts, xs) == CanonAll(consts, ys)
  {
    hide CanonGvn, SameOperand;
    forall k | 0 <= k < |xs| && k < |ys|
      ensures SameOperand(consts, xs[k], ys[k]) <==> CanonAll(consts, xs)[k] == CanonAll(consts, ys)[k]
    {
      SameOperandExactly(consts, xs[k], ys[k]);
    }
  }

  lemma SamePair(consts: seq<ConstData>, a: ValueId, b: ValueId, c: ValueId, d: ValueId)
    ensures SameOperands(consts, [a, b], [c, d])
      <==> CanonGvn(consts, a) == CanonGvn(consts, c) && CanonGvn(consts, b) == CanonGvn(consts, d)
  {
    SameOperandExactly(consts, a, c);
    SameOperandExactly(consts, b, d);
    hide CanonGvn, SameOperand;
    var xs, ys := [a, b], [c, d];
    assert SameOperands(consts, xs, ys) ==> SameOperand(consts, xs[0], ys[0]) && SameOperand(consts, xs[1], ys[1]);
  }

  /** Canonical operands of one instruction are put in one order however they come. */
  lemma OneOrder(text: ValueId -> int, consts: seq<ConstData>, kind: InstKind)
    requires TextsDiffer(text) && (kind.Binary? || kind.ICmp?) && OneTyped(consts, kind)
    ensures var l, r := CanonGvn(consts, kind.lhs), CanonGvn(consts, kind.rhs);
      l != r ==> (CmpCanonGvn(text, l, r) <==> !CmpCanonGvn(text, r, l))
  {
    assert kind.lhs == Args(kind)[0] && kind.rhs == Args(kind)[1];
    SameOperandExactly(consts, kind.lhs, kind.rhs);
    SameOperandExactly(consts, kind.rhs, kind.lhs);
    hide CanonGvn;
  }

  lemma SameBinary(text: ValueId -> int, consts: seq<ConstData>, d: InstData, e: InstData)
    requires TextsDiffer(text) && OneTyped(consts, d.kind) && OneTyped(consts, e.kind)
    requires d.kind.Binary? && e.kind.Binary?
    ensures KeyOf(text, consts, d) == KeyOf(text, consts, e) <==> SameComputation(consts, d, e)
  {
    hide CanonGvn, CmpCanonGvn, OneTyped, SameOperands;
    OneOrder(text, consts, d.kind);
    OneOrder(text, consts, e.kind);
    SamePair(consts, d.kind.lhs, d.kind.rhs, e.kind.lhs, e.kind.rhs);
    SamePair(consts, d.kind.lhs, d.kind.rhs, e.kind.rhs, e.kind.lhs);
  }

  lemma SameICmp(text: ValueId -> int, consts: seq<ConstData>, d: InstData, e: InstData)
    requires TextsDiffer(text) && OneTyped(consts, d.kind) && OneTyped(consts, e.kind)
    requires d.kind.ICmp? && e.kind.ICmp?
    ensures KeyOf(text, consts, d) == KeyOf(text, consts, e) <==> SameComputation(consts, d, e)
  {
    hide CanonGvn, CmpCanonGvn, OneTyped, SameOperands;
    OneOrder(text, consts, d.kind);
    OneOrder(text, consts, e.kind);
    SamePair(consts, d.kind.lhs, d.kind.rhs, e.kind.lhs, e.kind.rhs);
    SamePair(consts, d.kind.lhs, d.kind.rhs, e.kind.rhs, e.kind.lhs);
  }

  lemma SameInOrder(text: ValueId -> int, consts: seq<ConstData>, d: InstData, e: InstData)
    requires !(d.kind.Binary? && e.kind.Binary?) && !(d.kind.ICmp? && e.kind.ICmp?)
    requires IsPure(d.kind) && !d.kind.Alloca? && IsPure(e.kind) && !e.kind.Alloca?
    ensures KeyOf(text, consts, d) == KeyOf(text, consts, e) <==> SameComputation(consts, d, e)
  {
    hide CanonGvn, CmpCanonGvn, SameOperand, SameOperands, CanonAll;
    if d.kind.GetElementPtr? && e.kind.GetElementPtr? {
      SameOperandExactly(consts, d.kind.base, e.kind.base);
      SameOperandsExactly(consts, d.kind.indices, e.kind.indices);
    } else if d.kind.Select? && e.kind.Select? {
      SameTriple(consts, d.kind, e.kind);
      var xs := [d.kind.condVal, d.kind.thenVal, d.kind.elseVal];
      var ys := [e.kind.condVal, e.kind.thenVal, e.kind.elseVal];
      assert xs[0] == d.kind.condVal && xs[1] == d.kind.thenVal && xs[2] == d.kind.elseVal;
      assert ys[0] == e.kind.condVal && ys[1] == e.kind.thenVal && ys[2] == e.kind.elseVal;
    } else if d.kind.PtrToInt? && e.kind.PtrToInt? {
      SameOperandExactly(consts, d.kind.ptr, e.kind.ptr);
    } else if (d.kind.Trunc? && e.kind.Trunc?) || (d.kind.Zext? && e.kind.Zext?) || (d.kind.Sext? && e.kind.Sext?) {
      SameOperandExactly(consts, d.kind.value, e.kind.value);
    }
  }

  lemma SameTriple(consts: seq<ConstData>, k: InstKind, n: InstKind)
    requires k.Select? && n.Select?
    ensures var xs, ys := [k.condVal, k.thenVal, k.elseVal], [n.condVal, n.thenVal, n.elseVal];
      SameOperands(consts, xs, ys) <==> forall i :: 0 <= i < 3 ==> CanonGvn(consts, xs[i]) == CanonGvn(consts, ys[i])
  {
    var xs, ys := [k.condVal, k.thenVal, k.elseVal], [n.condVal, n.thenVal, n.elseVal];
    hide CanonGvn, SameOperand;
    forall i | 0 <= i < 3
      ensures SameOperand(consts, xs[i], ys[i]) <==> CanonGvn(consts, xs[i]) == CanonGvn(consts, ys[i])
    {
      SameOperandExactly(consts, xs[i], ys[i]);
    }
  }

  // ---------------------------------------------------------------- what a key denotes

  ghost function CanonVal(W: World, consts: seq<ConstData>, c: CanonValue, env: Env): Val {
    match c
    case CConst(w, v) => IntVal(CoreInt(v, w))
    case CNull => PtrVal(0)
    case CUndef(ty) => W.undef(ty)
    case CValue(v) => Value(W, consts, v, env)
  }

  ghost function CanonVals(W: World, consts: seq<ConstData>, cs: seq<CanonValue>, env: Env): (r: seq<Val>)
    ensures |r| == |cs|
  {
    seq(|cs|, k requires 0 <= k < |cs| => CanonVal(W, consts, cs[k], env))
  }

  ghost function EvalKey(W: World, consts: seq<ConstData>, key: ExprKey, env: Env): Val {
    match key
    case BinaryKey(op, l, r) => Binop(W, op, CanonVal(W, consts, l, env), CanonVal(W, consts, r, env))
    case ICmpKey(code, l, r) => Cmp(W, code, CanonVal(W, consts, l, env), CanonVal(W, consts, r, env))
    case TruncKey(v, ty) => Cast(TruncOp(ty), CanonVal(W, consts, v, env))
    case ZextKey(v, ty) => Cast(ZextOp(ty), CanonVal(W, consts, v, env))
    case SextKey(v, ty) => Cast(SextOp(ty), CanonVal(W, consts, v, env))
    case PtrToIntKey(v, ty) => Cast(PtrToIntOp(ty), CanonVal(W, consts, v, env))
    case GepKey(ty, base, indices) => W.gep(ty, [CanonVal(W, consts, base, env)] + CanonVals(W, consts, indices, env))
    case SelectKey(c, t, e) => if Truthy(CanonVal(W, consts, c, env)) then CanonVal(W, consts, t, env)
      else CanonVal(W, consts, e, env)
  }

  lemma CanonKeepsValue(W: World, consts: seq<ConstData>, v: ValueId, env: Env)
    ensures CanonVal(W, consts, CanonGvn(consts, v), env) == Value(W, consts, v, env)
  {
  }

  lemma BinopCommutes(W: World, op: BinaryOpcode, a: Val, b: Val)
    requires IsCommutative(op)
    ensures Binop(W, op, a, b) == Binop(W, op, b, a)
  {
    if BothInts(a, b) {
      FoldCommutes(op, a.c, b.c);
    }
    hide Fold;
  }

  /** A key denotes the value its instruction computes, reordered operands included. */
  lemma KeyDenotes(W: World, text: ValueId -> int, consts: seq<ConstData>, i: InstId, d: InstData, env: Env)
    requires KeyOf(text, consts, d).Some?
    ensures IsPure(d.kind)
    ensures EvalKey(W, consts, KeyOf(text, consts, d).value, env)
      == Apply(W, OperatorOf(i, d), Values(W, consts, Args(d.kind), env))
  {
    hide Binop, Cmp, Cast, CanonGvn, CanonVal, Value, CmpCanonGvn;
    var args := Args(d.kind);
    forall k | 0 <= k < |args|
      ensures CanonVal(W, consts, CanonGvn(consts, args[k]), env) == Value(W, consts, args[k], env)
    {
      CanonKeepsValue(W, consts, args[k], env);
    }
    match d.kind {
      case Binary(op, lhs, rhs) =>
        assert args[0] == lhs && args[1] == rhs;
        if IsCommutative(op) {
          BinopCommutes(W, op, Value(W, consts, lhs, env), Value(W, consts, rhs, env));
        }
      case ICmp(code, lhs, rhs) =>
        assert args[0] == lhs && args[1] == rhs;
        CmpSymmetric(W, code, Value(W, consts, lhs, env), Value(W, consts, rhs, env));
      case GetElementPtr(_, base, indices) =>
        assert args[0] == base && args[1..] == indices;
        assert Values(W, consts, args, env)
          == [CanonVal(W, consts, CanonGvn(consts, base), env)] + CanonVals(W, consts, CanonAll(consts, indices), env);
      case Select(c, t, e) => assert args[0] == c && args[1] == t && args[2] == e;
      case Trunc(v) => assert args[0] == v;
      case Zext(v) => assert args[0] == v;
      case Sext(v) => assert args[0] == v;
      case PtrToInt(v) => assert args[0] == v;
    }
  }

  lemma CmpSymmetric(W: World, code: ICmpCode, a: Val, b: Val)
    ensures code == Eq || code == Ne ==> Cmp(W, code, a, b) == Cmp(W, code, b, a)
  {
  }

  // ---------------------------------------------------------------- bodies a substitution apart

  predicate SamePlaceAndRole(a: InstData, b: InstData) {
    b.parent == a.parent && IsPure(b.kind) == IsPure(a.kind) && Droppable(b.kind) == Droppable(a.kind)
  }

  /** The same instructions in the same places, perhaps with other operands, running alike. */
  ghost predicate Rewritten(a: Body, b: Body) {
    && b == a.(insts := b.insts) && b.insts.Keys == a.insts.Keys
    && (forall i :: i in a.insts ==> SamePlaceAndRole(a.insts[i], b.insts[i]))
    && SameEdges(a, b)
    && (forall W, obs, mem, n: nat :: Execute(W, b, obs, mem, n) == Execute(W, a, obs, mem, n))
    && (forall W, obs, mem, n: nat, k: nat :: Inside(W, b, obs, mem, n, k) == Inside(W, a, obs, mem, n, k))
    && (forall W, c, k: nat, env: Env :: Reachable(a, c) && EquationsHold(W, b, c, k, env) ==>
         EquationsHold(W, a, c, k, env))
  }

  lemma RewrittenReflexive(a: Body)
    ensures Rewritten(a, a)
  {
  }

  lemma RewrittenTransitive(a: Body, b: Body, c: Body)
    requires Rewritten(a, b) && Rewritten(b, c)
    ensures Rewritten(a, c)
  {
    hide EquationsHold, Execute, Inside, Edge, Droppable, IsPure;
    assert SameEdges(a, c);
    SamePaths(a, b);
    hide Reachable, Dominates;
    forall W, d, k: nat, env: Env | Reachable(a, d) && EquationsHold(W, c, d, k, env)
      ensures EquationsHold(W, a, d, k, env)
    {
      assert EquationsHold(W, b, d, k, env);
    }
    forall W, obs, mem, n: nat, k: nat ensures Inside(W, c, obs, mem, n, k) == Inside(W, a, obs, mem, n, k) {
      assert Inside(W, b, obs, mem, n, k) == Inside(W, a, obs, mem, n, k);
    }
    forall W, obs, mem, n: nat ensures Execute(W, c, obs, mem, n) == Execute(W, a, obs, mem, n) {
      assert Execute(W, b, obs, mem, n) == Execute(W, a, obs, mem, n);
    }
  }

  lemma RewrittenBefore(a: Body, b: Body, o: InstId, c: BlockId, k: int)
    requires Rewritten(a, b)
    ensures Before(b, o, c, k) <==> Before(a, o, c, k)
    ensures Reachable(b, c) <==> Reachable(a, c)
  {
    SamePaths(a, b);
    hide EquationsHold, Execute, Edge, Droppable, IsPure, Reachable, Dominates;
  }

  /** Up to and including an instruction, no equation mentions it; so there the equations before
      and after exchanging it are the same ones. */
  lemma EquationsUpTo(W: World, body: Body, w: InstId, v: ValueId, b: BlockId, k: nat, env: Env)
    requires SSA(body) && Interchangeable(body, w, v) && IsEquation(body, w) && b in body.blocks && Reachable(body, b)
    requires k < |body.blocks[b].insts| && body.blocks[b].insts[k] == w
    requires EquationsHold(W, SubstituteAll(body, InstValue(w), v), b, k + 1, env)
    ensures EquationsHold(W, body, b, k + 1, env)
  {
    hide Interchangeable, Reachable, Dominates, SSA, Holds, WellPlaced;
    var body' := SubstituteAll(body, InstValue(w), v);
    SubstEdges(body, InstValue(w), v);
    forall d | IsEquation(body, d) && Before(body, d, b, k + 1) ensures Holds(W, body, d, env) {
      NotMentioned(body, w, b, k, d);
      SubstEquation(body, w, v, d);
      SubstBefore(body, InstValue(w), v, d, b, k + 1);
      UnmentionedHolds(W, body, w, v, d, env);
      assert Holds(W, body', d, env);
    }
  }

  lemma SubstEquation(body: Body, w: InstId, v: ValueId, d: InstId)
    requires IsEquation(body, d)
    ensures IsEquation(SubstituteAll(body, InstValue(w), v), d)
  {
    OperatorSubst(d, body.insts[d], InstValue(w), v);
    hide IsPure;
    var kind, kind' := body.insts[d].kind, SubstituteAll(body, InstValue(w), v).insts[d].kind;
    if kind.Phi? {
      assert kind'.incomings.Keys == kind.incomings.Keys;
      assert kind.incomings != map[] ==> kind'.incomings != map[] by {
        if kind.incomings != map[] {
          var idx :| idx in kind.incomings;
          assert idx in kind'.incomings;
        }
      }
    }
  }

  lemma NotMentioned(body: Body, w: InstId, b: BlockId, k: nat, d: InstId)
    requires SSA(body) && b in body.blocks && Reachable(body, b) && k < |body.blocks[b].insts|
    requires body.blocks[b].insts[k] == w
    requires IsEquation(body, d) && Before(body, d, b, k + 1)
    ensures !Mentions(body.insts[d].kind, InstValue(w))
  {
    if Mentions(body.insts[d].kind, InstValue(w)) {
      if d == w {
        SelfMention(body, b, k, w);
      } else {
        BeforeOneLess(body, d, b, k);
        NotOverwritten(body, b, k, d, w);
      }
    }
  }

  lemma SwapAbsent(args: seq<ValueId>, from: ValueId, to: ValueId)
    requires from !in args
    ensures SwapAll(args, from, to) == args
  {
  }

  lemma UnmentionedHolds(W: World, body: Body, w: InstId, v: ValueId, d: InstId, env: Env)
    requires Attached(body, d) && !Mentions(body.insts[d].kind, InstValue(w))
    ensures Holds(W, SubstituteAll(body, InstValue(w), v), d, env) == Holds(W, body, d, env)
  {
    var kind := body.insts[d].kind;
    OperatorSubst(d, body.insts[d], InstValue(w), v);
    hide Apply, OperatorOf;
    if kind.Phi? {
      var kind' := SubstituteAll(body, InstValue(w), v).insts[d].kind;
      assert kind'.incomings.Keys == kind.incomings.Keys;
      forall idx | idx in kind.incomings ensures kind'.incomings[idx].value == kind.incomings[idx].value {
        assert Mentions(kind, kind.incomings[idx].value);
      }
    } else {
      ArgsSubst(kind, InstValue(w), v);
      SwapAbsent(Args(kind), InstValue(w), v);
    }
  }

  /** Everything available at an instruction's own place is available wherever the instruction is. */
  lemma BeforeChain(body: Body, d: InstId, w: InstId, bw: BlockId, kw: nat, b: BlockId, k: nat)
    requires WellPlaced(body) && bw in body.blocks && kw < |body.blocks[bw].insts| && body.blocks[bw].insts[kw] == w
    requires Before(body, d, bw, kw + 1) && Before(body, w, b, k) && Reachable(body, b)
    ensures Before(body, d, b, k)
  {
    hide OperandsExist;
    assert Contains(body.blocks[bw], w);
    var home := body.insts[d].parent.value;
    if bw == b {
      InstNotPhi(body, bw, kw);
      var j :| 0 <= j < k && j < |body.blocks[b].insts| && body.blocks[b].insts[j] == w;
      assert j == kw;
    } else if home == bw {
    } else {
      DominatesTransitive(body, home, bw, b);
      if home == b {
        var path :| PathTo(body, path, b);
        NoMutualDominance(body, bw, b, path);
      }
    }
  }

  /** Equations of the substituted body imply those of the original. */
  lemma EquationsTransfer(W: World, body: Body, w: InstId, v: ValueId, bw: BlockId, kw: nat, b: BlockId, k: nat,
                          env: Env)
    requires SSA(body) && Interchangeable(body, w, v) && IsEquation(body, w) && bw in body.blocks && Reachable(body, bw)
    requires kw < |body.blocks[bw].insts| && body.blocks[bw].insts[kw] == w
    requires Reachable(body, b) && EquationsHold(W, SubstituteAll(body, InstValue(w), v), b, k, env)
    ensures EquationsHold(W, body, b, k, env)
  {
    var body' := SubstituteAll(body, InstValue(w), v);
    SubstEdges(body, InstValue(w), v);
    hide Reachable, Dominates, Holds, WellPlaced, BlockOk, Interchangeable;
    forall d | IsEquation(body, d) && Before(body, d, b, k) ensures Holds(W, body, d, env) {
      SubstEquation(body, w, v, d);
      SubstBefore(body, InstValue(w), v, d, b, k);
      assert Holds(W, body', d, env);
      if Mentions(body.insts[d].kind, InstValue(w)) {
        MentionedBefore(body, d, w, b, k);
        AgreesHere(W, body, w, v, bw, kw, b, k, env);
        MentionedHolds(W, body, w, v, d, env);
      } else {
        UnmentionedHolds(W, body, w, v, d, env);
      }
    }
  }

  lemma AgreesHere(W: World, body: Body, w: InstId, v: ValueId, bw: BlockId, kw: nat, b: BlockId, k: nat, env: Env)
    requires SSA(body) && Interchangeable(body, w, v) && IsEquation(body, w) && bw in body.blocks && Reachable(body, bw)
    requires kw < |body.blocks[bw].insts| && body.blocks[bw].insts[kw] == w
    requires Reachable(body, b) && Before(body, w, b, k)
    requires EquationsHold(W, SubstituteAll(body, InstValue(w), v), b, k, env)
    ensures env[w] == Value(W, body.consts, v, env)
  {
    var body' := SubstituteAll(body, InstValue(w), v);
    SubstEdges(body, InstValue(w), v);
    OwnPlace(body, w, bw, kw);
    hide Reachable, Dominates, Holds, BlockOk;
    forall d | IsEquation(body', d) && Before(body', d, bw, kw + 1) ensures Holds(W, body', d, env) {
      SubstBefore(body, InstValue(w), v, d, bw, kw + 1);
      BeforeChain(body, d, w, bw, kw, b, k);
      SubstBefore(body, InstValue(w), v, d, b, k);
    }
    hide SSA;
    EquationsUpTo(W, body, w, v, bw, kw, env);
  }

  lemma OwnPlace(body: Body, w: InstId, b: BlockId, k: nat)
    requires WellPlaced(body) && b in body.blocks && k < |body.blocks[b].insts| && body.blocks[b].insts[k] == w
    ensures Before(body, w, b, k + 1)
  {
    hide OperandsExist, Dominates;
    assert Contains(body.blocks[b], w);
  }

  lemma MentionedHolds(W: World, body: Body, w: InstId, v: ValueId, d: InstId, env: Env)
    requires Attached(body, d) && env[w] == Value(W, body.consts, v, env)
    ensures Holds(W, SubstituteAll(body, InstValue(w), v), d, env) == Holds(W, body, d, env)
  {
    var kind := body.insts[d].kind;
    OperatorSubst(d, body.insts[d], InstValue(w), v);
    hide Apply, OperatorOf;
    if kind.Phi? {
      var kind' := SubstituteAll(body, InstValue(w), v).insts[d].kind;
      assert kind'.incomings.Keys == kind.incomings.Keys;
      forall idx | idx in kind.incomings
        ensures Value(W, body.consts, kind'.incomings[idx].value, env)
          == Value(W, body.consts, kind.incomings[idx].value, env)
      {
      }
    } else {
      ArgsSubst(kind, InstValue(w), v);
      SubstArgVals(W, body.consts, Args(kind), w, v, env);
    }
  }

  lemma SubstInside(W: World, body: Body, obs: set<InstId>, w: InstId, v: ValueId, mem: Memory, n: nat, k: nat)
    requires SSA(body) && AgreesIn(W, body, w, v)
    ensures Inside(W, SubstituteAll(body, InstValue(w), v), obs, mem, n, k) == Inside(W, body, obs, mem, n, k)
  {
    hide SSA, AgreesIn, OnKnownCourse, InsideBlock, SubstituteAll, Execute;
    SubstRuns(W, body, obs, w, v, mem, n);
    SsaKnown(W, body, obs, mem, n);
    var (place, st) := Execute(W, body, obs, mem, n);
    SubstInsideBlock(W, body, obs, w, v, place, st, k);
  }

  lemma SubstInsideBlock(W: World, body: Body, obs: set<InstId>, w: InstId, v: ValueId, place: Place, st: State, k: nat)
    requires SSA(body) && AgreesIn(W, body, w, v) && OnKnownCourse(W, body, place, st.env)
    ensures InsideBlock(W, SubstituteAll(body, InstValue(w), v), obs, place, st, k)
      == InsideBlock(W, body, obs, place, st, k)
  {
    hide KnownAt, SSA, AgreesIn, Reachable, Edge, PhiEnv, PhiTrace, StepInst;
    if place.At? && place.b in body.blocks && k <= |body.blocks[place.b].insts| {
      if place.from.Some? {
        SubstPhis(W, body, w, v, place.from.value, place.b, st.env);
      }
      EntersKnown(W, body, obs, place, st);
      SubstList(W, body, obs, w, v, place.b, k, EnterBlock(W, body, obs, body.blocks[place.b].phis, place.from, st));
    }
  }

  lemma SubstRewritten(body: Body, w: InstId, v: ValueId, bw: BlockId, kw: nat)
    requires SSA(body) && Interchangeable(body, w, v) && IsEquation(body, w) && bw in body.blocks && Reachable(body, bw)
    requires kw < |body.blocks[bw].insts| && body.blocks[bw].insts[kw] == w
    ensures Rewritten(body, SubstituteAll(body, InstValue(w), v))
  {
    var body' := SubstituteAll(body, InstValue(w), v);
    SubstEdges(body, InstValue(w), v);
    hide SSA, Interchangeable, IsEquation, Reachable, EquationsHold, Execute, Inside, SameEdges;
    forall W, obs, mem, n: nat ensures Execute(W, body', obs, mem, n) == Execute(W, body, obs, mem, n) {
      InterchangeableAgrees(W, body, w, v);
      SubstRuns(W, body, obs, w, v, mem, n);
    }
    forall W, obs, mem, n: nat, k: nat ensures Inside(W, body', obs, mem, n, k) == Inside(W, body, obs, mem, n, k) {
      InterchangeableAgrees(W, body, w, v);
      SubstInside(W, body, obs, w, v, mem, n, k);
    }
    forall W, c, k: nat, env: Env | Reachable(body, c) && EquationsHold(W, body', c, k, env)
      ensures EquationsHold(W, body, c, k, env)
    {
      EquationsTransfer(W, body, w, v, bw, kw, c, k, env);
    }
    forall i | i in body.insts
      ensures body'.insts[i].parent == body.insts[i].parent && IsPure(body'.insts[i].kind) == IsPure(body.insts[i].kind)
      ensures Droppable(body'.insts[i].kind) == Droppable(body.insts[i].kind)
    {
      SubstRoles(body.insts[i], InstValue(w), v);
    }
  }

  lemma SubstRoles(d: InstData, from: ValueId, to: ValueId)
    ensures IsPure(Subst(d.kind, from, to)) == IsPure(d.kind) && Droppable(Subst(d.kind, from, to)) == Droppable(d.kind)
  {
  }

  // ---------------------------------------------------------------- the table

  /** Wherever the leader has its value, that value is what the key denotes. */
  ghost predicate Leads(body: Body, key: ExprKey, leader: InstId) {
    forall W, b, k: nat, env: Env ::
      Reachable(body, b) && Before(body, leader, b, k) && EquationsHold(W, body, b, k, env) ==>
      env[leader] == EvalKey(W, body.consts, key, env)
  }

  type Table = map<ExprKey, ValueId>

  ghost predicate TableOk(body: Body, table: Table, b: BlockId, k: nat) {
    forall key :: key in table ==>
      table[key].InstValue? && Leads(body, key, table[key].inst) && Before(body, table[key].inst, b, k)
  }

  lemma TableLater(body: Body, table: Table, b: BlockId, k: nat, k': nat)
    requires TableOk(body, table, b, k) && k <= k'
    ensures TableOk(body, table, b, k')
  {
    hide Leads, Dominates;
  }

  lemma LeadsRewritten(a: Body, b: Body, key: ExprKey, leader: InstId)
    requires Rewritten(a, b) && Leads(a, key, leader)
    ensures Leads(b, key, leader)
  {
    forall W, c, k: nat, env: Env | Reachable(b, c) && Before(b, leader, c, k) && EquationsHold(W, b, c, k, env)
      ensures env[leader] == EvalKey(W, b.consts, key, env)
    {
      RewrittenBefore(a, b, leader, c, k);
      hide Reachable, Before, EquationsHold, EvalKey;
      assert EquationsHold(W, a, c, k, env);
    }
  }

  lemma TableRewritten(a: Body, b: Body, table: Table, c: BlockId, k: nat)
    requires Rewritten(a, b) && TableOk(a, table, c, k)
    ensures TableOk(b, table, c, k)
  {
    hide Rewritten, Leads, Before;
    forall key | key in table ensures Leads(b, key, table[key].inst) && Before(b, table[key].inst, c, k) {
      LeadsRewritten(a, b, key, table[key].inst);
      RewrittenBefore(a, b, table[key].inst, c, k);
    }
  }

  /** An instruction leads its own key. */
  lemma NewLeader(text: ValueId -> int, body: Body, b: BlockId, k: nat, i: InstId, key: ExprKey)
    requires SSA(body) && b in body.blocks && k < |body.blocks[b].insts| && body.blocks[b].insts[k] == i
    requires i in body.insts && KeyOf(text, body.consts, body.insts[i]) == Some(key)
    ensures Leads(body, key, i) && Before(body, i, b, k + 1) && IsEquation(body, i)
  {
    hide OperandsExist, BlockOk;
    assert Contains(body.blocks[b], i);
    ListedHere(body, b, i);
    OwnPlace(body, i, b, k);
    PureIfKeyed(text, body.consts, body.insts[i]);
    hide Before, KeyOf, Reachable, Apply, EvalKey, SSA;
    forall W, c, j: nat, env: Env | Reachable(body, c) && Before(body, i, c, j) && EquationsHold(W, body, c, j, env)
      ensures env[i] == EvalKey(W, body.consts, key, env)
    {
      assert Holds(W, body, i, env);
      KeyDenotes(W, text, body.consts, i, body.insts[i], env);
    }
  }

  lemma PureIfKeyed(text: ValueId -> int, consts: seq<ConstData>, d: InstData)
    requires KeyOf(text, consts, d).Some?
    ensures IsPure(d.kind) && Droppable(d.kind) && !d.kind.Phi?
  {
  }

  /** An instruction whose key the table holds can be exchanged for the table's entry. */
  lemma FollowerInterchangeable(text: ValueId -> int, body: Body, table: Table, b: BlockId, k: nat, w: InstId,
                                key: ExprKey)
    requires SSA(body) && TableOk(body, table, b, k) && key in table && b in body.blocks && Reachable(body, b)
    requires k < |body.blocks[b].insts| && body.blocks[b].insts[k] == w && w in body.insts
    requires KeyOf(text, body.consts, body.insts[w]) == Some(key)
    ensures Interchangeable(body, w, table[key]) && IsEquation(body, w) && Knows(body, table[key])
  {
    var leader := table[key].inst;
    NewLeader(text, body, b, k, w, key);
    TableLater(body, table, b, k, k + 1);
    EarlierIsOther(body, leader, b, k);
    hide KeyOf, EvalKey, Dominates, EquationsHold;
    forall c, j: nat | Reachable(body, c) && Before(body, w, c, j) ensures Available(body, table[key], c, j) {
      BeforeChain(body, leader, w, b, k, c, j);
    }
    hide SSA, Reachable;
    forall W, c, j: nat, env: Env | Reachable(body, c) && Before(body, w, c, j) && EquationsHold(W, body, c, j, env)
      ensures env[w] == Value(W, body.consts, table[key], env)
    {
      assert Available(body, table[key], c, j);
    }
  }

  lemma EarlierIsOther(body: Body, o: InstId, b: BlockId, k: nat)
    requires WellPlaced(body) && b in body.blocks && k < |body.blocks[b].insts| && Before(body, o, b, k)
    ensures o != body.blocks[b].insts[k]
  {
    hide OperandsExist, Dominates;
    assert Contains(body.blocks[b], body.blocks[b].insts[k]);
    InstNotPhi(body, b, k);
  }
}
