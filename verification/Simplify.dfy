/** Algebraic simplification of one instruction: what it may be replaced by, and why the replacement
    denotes the same value (src/ir/opt/algebraic.rs:60-448). */
module Simplify {
  import opened Bits
  import opened CoreInts
  import opened Ir
  import opened Semantics
  import opened Ssa
  import opened Typing

  // ---------------------------------------------------------------- reading constants

  /** Null reads as a 32-bit zero and undef as a one-bit zero. */
  function AsIntConst(consts: seq<ConstData>, v: ValueId): Option<CoreInt> {
    if v.ConstValue? && v.id < |consts| then
      match consts[v.id]
      case IntConst(c, _) => Some(c)
      case NullConst(_) => Some(New(0, 32))
      case UndefConst(_) => Some(New(0, 1))
      case OtherConst(_) => None
    else None
  }

  predicate IsZeroConst(consts: seq<ConstData>, v: ValueId) {
    v.ConstValue? && v.id < |consts| &&
    match consts[v.id]
    case IntConst(c, _) => c.value == 0
    case NullConst(_) => true
    case _ => false
  }

  predicate IsOneConst(consts: seq<ConstData>, v: ValueId) {
    v.ConstValue? && v.id < |consts| && consts[v.id].IntConst? && consts[v.id].c.value == 1
  }

  function OnesMask(bits: nat): nat {
    Pow2(if bits >= 64 then 64 else bits) - 1
  }

  predicate IsAllOnesConst(consts: seq<ConstData>, v: ValueId, ty: Type) {
    && v.ConstValue? && v.id < |consts| && consts[v.id].IntConst? && ty.IntType?
    && Bitwise(AndOp, consts[v.id].c.value, OnesMask(ty.bits)) == OnesMask(ty.bits)
  }

  // ---------------------------------------------------------------- one instruction

  /** A value that exists already, or a new constant of the instruction's type. */
  datatype Outcome = Existing(v: ValueId) | Fresh(data: ConstData)

  function MakeConst(value: nat, ty: Type): Option<Outcome> {
    if ty.IntType? && 1 <= ty.bits <= 64 then Some(Fresh(IntConst(New(value, ty.bits), ty))) else None
  }

  /** Two constant operands have the same width, as the folding operators demand of their callers. */
  ghost predicate Matching(consts: seq<ConstData>, lhs: ValueId, rhs: ValueId) {
    var a, b := AsIntConst(consts, lhs), AsIntConst(consts, rhs);
    a.Some? && b.Some? ==> SameWidth(a.value, b.value)
  }

  function SimplifyBinary(consts: seq<ConstData>, op: BinaryOpcode, lhs: ValueId, rhs: ValueId,
                          ty: Type): Option<Outcome>
    requires Matching(consts, lhs, rhs)
  {
    var a, b := AsIntConst(consts, lhs), AsIntConst(consts, rhs);
    if a.Some? && b.Some? then
      var r := Fold(op, a.value, b.value);
      if r.Some? then Some(Fresh(IntConst(r.value, ty))) else None
    else SimplifyHalf(consts, op, lhs, rhs, ty)
  }

  /** With at most one constant operand. */
  function SimplifyHalf(consts: seq<ConstData>, op: BinaryOpcode, lhs: ValueId, rhs: ValueId,
                        ty: Type): Option<Outcome> {
    match op
    case Add =>
      if IsZeroConst(consts, rhs) then Some(Existing(lhs))
      else if IsZeroConst(consts, lhs) then Some(Existing(rhs))
      else None
    case Sub =>
      if IsZeroConst(consts, rhs) then Some(Existing(lhs))
      else if lhs == rhs then MakeConst(0, ty)
      else None
    case Mul =>
      if IsOneConst(consts, rhs) then Some(Existing(lhs))
      else if IsOneConst(consts, lhs) then Some(Existing(rhs))
      else if IsZeroConst(consts, rhs) || IsZeroConst(consts, lhs) then MakeConst(0, ty)
      else None
    case UDiv => SimplifyDivision(consts, lhs, rhs, ty)
    case SDiv => SimplifyDivision(consts, lhs, rhs, ty)
    case URem => if IsOneConst(consts, rhs) || IsZeroConst(consts, lhs) then MakeConst(0, ty) else None
    case SRem => if IsOneConst(consts, rhs) || IsZeroConst(consts, lhs) then MakeConst(0, ty) else None
    case And =>
      if IsZeroConst(consts, rhs) || IsZeroConst(consts, lhs) then MakeConst(0, ty)
      else if IsAllOnesConst(consts, rhs, ty) then Some(Existing(lhs))
      else if IsAllOnesConst(consts, lhs, ty) then Some(Existing(rhs))
      else if lhs == rhs then Some(Existing(lhs))
      else None
    case Or =>
      if IsZeroConst(consts, rhs) then Some(Existing(lhs))
      else if IsZeroConst(consts, lhs) then Some(Existing(rhs))
      else if IsAllOnesConst(consts, rhs, ty) || IsAllOnesConst(consts, lhs, ty) then MakeConst(OnesMask(ty.bits), ty)
      else if lhs == rhs then Some(Existing(lhs))
      else None
    case Xor =>
      if IsZeroConst(consts, rhs) then Some(Existing(lhs))
      else if IsZeroConst(consts, lhs) then Some(Existing(rhs))
      else if lhs == rhs then MakeConst(0, ty)
      else None
    case Shl => SimplifyShift(consts, lhs, rhs, ty)
    case LShr => SimplifyShift(consts, lhs, rhs, ty)
    case AShr => SimplifyShift(consts, lhs, rhs, ty)
  }

  function SimplifyDivision(consts: seq<ConstData>, lhs: ValueId, rhs: ValueId, ty: Type): Option<Outcome> {
    if IsOneConst(consts, rhs) then Some(Existing(lhs))
    else if IsZeroConst(consts, lhs) then MakeConst(0, ty)
    else None
  }

  function SimplifyShift(consts: seq<ConstData>, lhs: ValueId, rhs: ValueId, ty: Type): Option<Outcome> {
    if IsZeroConst(consts, rhs) then Some(Existing(lhs))
    else if IsZeroConst(consts, lhs) then MakeConst(0, ty)
    else None
  }

  function SimplifyICmp(consts: seq<ConstData>, code: ICmpCode, lhs: ValueId, rhs: ValueId, ty: Type): Option<Outcome>
    requires Matching(consts, lhs, rhs)
  {
    var a, b := AsIntConst(consts, lhs), AsIntConst(consts, rhs);
    if a.Some? && b.Some? then MakeConst(if Compare(code, a.value, b.value) then 1 else 0, ty)
    else if lhs == rhs then MakeConst(if code == Eq || code == Uge || code == Ule || code == Sge || code == Sle then 1
      else 0, ty)
    else None
  }

  function SimplifySelect(consts: seq<ConstData>, c: ValueId, t: ValueId, e: ValueId): Option<Outcome> {
    if t == e then Some(Existing(t))
    else
      var k := AsIntConst(consts, c);
      if k.Some? then Some(Existing(if k.value.value != 0 then t else e)) else None
  }

  /** All entries of a phi agree, and there is one. */
  function SimplifyPhi(kind: InstKind): Option<Outcome>
    requires kind.Phi?
  {
    if Uniform(kind) then Some(Existing(AgreedValue(kind))) else None
  }

  predicate IsLeast(keys: set<nat>, k: nat) {
    k in keys && forall j :: j in keys ==> k <= j
  }

  /** The value of the first entry, and of every other. */
  function AgreedValue(kind: InstKind): (v: ValueId)
    requires Uniform(kind)
    ensures forall k :: k in kind.incomings ==> kind.incomings[k].value == v
  {
    LeastKey(kind.incomings.Keys);
    var k :| IsLeast(kind.incomings.Keys, k);
    kind.incomings[k].value
  }

  lemma {:induction false} LeastKey(keys: set<nat>)
    requires keys != {}
    ensures exists k :: IsLeast(keys, k)
    decreases keys
  {
    var k: nat :| k in keys;
    var rest := keys - {k};
    if rest == {} {
      assert keys == {k};
      assert IsLeast(keys, k);
    } else {
      LeastKey(rest);
      var m: nat :| IsLeast(rest, m);
      var least: nat := if k < m then k else m;
      forall j | j in keys ensures least <= j {
        assert j == k || j in rest;
      }
      assert IsLeast(keys, least);
    }
  }

  function SimplifyCast(consts: seq<ConstData>, kind: InstKind, ty: Type): Option<Outcome>
    requires kind.Trunc? || kind.Zext? || kind.Sext?
    requires var k := AsIntConst(consts, kind.value); k.Some? ==> k.value.Valid()
    requires ty.IntType? ==> 1 <= ty.bits <= 64
  {
    var k := AsIntConst(consts, kind.value);
    if k.None? || !ty.IntType? then None
    else
      var c, w := k.value, ty.bits;
      if kind.Trunc? then Some(if c.width <= w then Existing(kind.value) else Fresh(IntConst(c.TruncTo(w), ty)))
      else if c.width >= w then Some(Existing(kind.value))
      else Some(Fresh(IntConst(if kind.Zext? then c.ZeroExtend(w) else c.SignExtend(w), ty)))
  }

  function SimplifyPtrToInt(consts: seq<ConstData>, ptr: ValueId, ty: Type): Option<Outcome> {
    if ptr.ConstValue? && ptr.id < |consts| && consts[ptr.id].NullConst? then MakeConst(0, ty) else None
  }

  /** What folding demands of an instruction: matching constant widths, proper integer types. */
  ghost predicate Foldable(consts: seq<ConstData>, d: InstData) {
    match d.kind
    case Binary(_, lhs, rhs) => Matching(consts, lhs, rhs)
    case ICmp(_, lhs, rhs) => Matching(consts, lhs, rhs)
    case Trunc(v) => CastReady(consts, v, d.ty)
    case Zext(v) => CastReady(consts, v, d.ty)
    case Sext(v) => CastReady(consts, v, d.ty)
    case _ => true
  }

  ghost predicate CastReady(consts: seq<ConstData>, v: ValueId, ty: Type) {
    var k := AsIntConst(consts, v);
    (k.Some? ==> k.value.Valid()) && (ty.IntType? ==> 1 <= ty.bits <= 64)
  }

  function SimplifyInst(consts: seq<ConstData>, d: InstData): Option<Outcome>
    requires Foldable(consts, d)
  {
    match d.kind
    case Binary(op, lhs, rhs) => SimplifyBinary(consts, op, lhs, rhs, d.ty)
    case ICmp(code, lhs, rhs) => SimplifyICmp(consts, code, lhs, rhs, d.ty)
    case Select(c, t, e) => SimplifySelect(consts, c, t, e)
    case Phi(_, _) => SimplifyPhi(d.kind)
    case Trunc(_) => SimplifyCast(consts, d.kind, d.ty)
    case Zext(_) => SimplifyCast(consts, d.kind, d.ty)
    case Sext(_) => SimplifyCast(consts, d.kind, d.ty)
    case PtrToInt(ptr) => SimplifyPtrToInt(consts, ptr, d.ty)
    case _ => None
  }

  // ---------------------------------------------------------------- identities of the folds

  lemma NewSame(a: CoreInt)
    requires a.Valid()
    ensures New(a.value, a.width) == a && New(Low(64, a.value), a.width) == a
  {
    PowMonotone(a.width, 64);
    LowSmall(a.width, a.value);
    LowSmall(64, a.value);
  }

  lemma FromSignedSame(a: CoreInt)
    requires a.Valid()
    ensures FromSigned(a.AsI64(), a.width) == a
  {
    LowSmall(a.width, a.value);
    LowOfLow(a.width, 64, a.AsI64());
    if a.width > 1 {
      LowSigned(a.width, a.value);
    }
  }

  lemma ZeroSigned(z: CoreInt)
    requires z.Valid() && z.value == 0
    ensures z.AsI64() == 0 && FromSigned(0, z.width) == z && New(0, z.width) == z
  {
    LowSmall(z.width, 0);
    LowSmall(64, 0);
  }

  /** x op 0 is x. */
  lemma ZeroRight(op: BinaryOpcode, a: CoreInt, z: CoreInt)
    requires SameWidth(a, z) && z.value == 0
    requires op == Add || op == Sub || op == Or || op == Xor || op == Shl || op == LShr || op == AShr
    ensures Fold(op, a, z) == Some(a)
  {
    NewSame(a);
    FromSignedSame(a);
    BitwiseZero(OrOp, a.value);
    BitwiseZero(XorOp, a.value);
    assert Pow2(0) == 1;
  }

  /** 0 op x is x. */
  lemma ZeroLeft(op: BinaryOpcode, a: CoreInt, z: CoreInt)
    requires SameWidth(a, z) && z.value == 0 && (op == Add || op == Or || op == Xor)
    ensures Fold(op, z, a) == Some(a)
  {
    FoldCommutes(op, a, z);
    ZeroRight(op, a, z);
  }

  /** Multiplication and conjunction with 0 are 0. */
  lemma ZeroAbsorbs(op: BinaryOpcode, a: CoreInt, z: CoreInt)
    requires SameWidth(a, z) && z.value == 0 && (op == Mul || op == And)
    ensures Fold(op, a, z) == Some(z) && Fold(op, z, a) == Some(z)
  {
    NewSame(z);
    BitwiseZero(AndOp, a.value);
    FoldCommutes(op, a, z);
  }

  /** 0 divided or shifted is 0, wherever that is defined. */
  lemma ZeroStays(op: BinaryOpcode, z: CoreInt, a: CoreInt)
    requires SameWidth(z, a) && z.value == 0
    requires op == UDiv || op == SDiv || op == URem || op == SRem || op == Shl || op == LShr || op == AShr
    ensures Fold(op, z, a).Some? ==> Fold(op, z, a) == Some(z)
  {
    NewSame(z);
    ZeroSigned(z);
    hide Low, Signed;
    if a.value > 0 && op == URem {
      DivModUnique(0, a.value, 0, 0);
    }
    if a.value > 0 && op == UDiv {
      DivModUnique(0, a.value, 0, 0);
    }
    if op == LShr || op == AShr {
      DivModUnique(0, Pow2(a.value), 0, 0);
    }
    if op == SDiv || op == SRem {
      ZeroDivided(a.AsI64());
    }
  }

  lemma ZeroDivided(b: int)
    ensures b != 0 ==> TruncDiv(0, b) == 0 && TruncRem(0, b) == 0
  {
  }

  /** Multiplying and dividing by 1. */
  lemma OneRight(op: BinaryOpcode, a: CoreInt, one: CoreInt)
    requires SameWidth(a, one) && one.value == 1 && (op == Mul || op == UDiv || op == SDiv)
    ensures Fold(op, a, one) == Some(a)
  {
    NewSame(a);
    FromSignedSame(a);
    OneSigned(one);
    hide Low, Signed;
    assert a.value * 1 == a.value && a.value / 1 == a.value;
    assert TruncDiv(a.AsI64(), 1) == a.AsI64();
  }

  lemma OneSigned(one: CoreInt)
    requires one.Valid() && one.value == 1
    ensures one.width == 1 || one.width >= 2
    ensures one.AsI64() == 1 || one.width == 0
  {
    LowSmall(one.width, 1);
    if one.width > 1 {
      PowMonotone(1, one.width - 1);
    }
  }

  lemma OneLeft(a: CoreInt, one: CoreInt)
    requires SameWidth(a, one) && one.value == 1
    ensures Fold(Mul, one, a) == Some(a)
  {
    FoldCommutes(Mul, a, one);
    OneRight(Mul, a, one);
  }

  /** Nothing remains after dividing by 1. */
  lemma OneLeavesNothing(op: BinaryOpcode, a: CoreInt, one: CoreInt)
    requires SameWidth(a, one) && one.value == 1 && (op == URem || op == SRem)
    ensures Fold(op, a, one) == Some(New(0, a.width))
  {
    OneSigned(one);
    assert a.value % 1 == 0;
    assert TruncRem(a.AsI64(), 1) == 0;
    ZeroSigned(CoreInt(0, a.width));
  }

  lemma SelfFolds(op: BinaryOpcode, a: CoreInt)
    requires a.Valid() && (op == Sub || op == Xor || op == And || op == Or)
    ensures Fold(op, a, a) == Some(if op == Sub || op == Xor then New(0, a.width) else a)
  {
    NewSame(a);
    ZeroSigned(CoreInt(0, a.width));
    BitwiseSelf(AndOp, a.value);
    BitwiseSelf(OrOp, a.value);
    BitwiseSelf(XorOp, a.value);
  }

  /** A pattern that covers the mask of its width is the mask. */
  lemma AllOnesIs(c: CoreInt)
    requires c.Valid() && Bitwise(AndOp, c.value, OnesMask(c.width)) == OnesMask(c.width)
    ensures c.value == Pow2(c.width) - 1 && New(OnesMask(c.width), c.width) == c
  {
    BitwiseOnes(c.width, c.value);
    NewSame(c);
  }

  lemma OnesFold(a: CoreInt, ones: CoreInt)
    requires SameWidth(a, ones) && ones.value == Pow2(a.width) - 1
    ensures Fold(And, a, ones) == Some(a) && Fold(And, ones, a) == Some(a)
    ensures Fold(Or, a, ones) == Some(ones) && Fold(Or, ones, a) == Some(ones)
  {
    BitwiseOnes(a.width, a.value);
    NewSame(a);
    NewSame(ones);
    FoldCommutes(And, a, ones);
    FoldCommutes(Or, a, ones);
  }

  // ---------------------------------------------------------------- the same value

  ghost function OutcomeValue(W: World, consts: seq<ConstData>, o: Outcome, env: Env): Val {
    match o
    case Existing(v) => Value(W, consts, v, env)
    case Fresh(data) => Value(W, consts + [data], ConstValue(|consts|), env)
  }

  predicate NotUndef(consts: seq<ConstData>, v: ValueId) {
    v.ConstValue? && v.id < |consts| ==> !consts[v.id].UndefConst?
  }

  /** An operation on a zero left operand that the language leaves undefined yields that zero. */
  ghost predicate KeepsZero(W: World, op: BinaryOpcode, a: CoreInt, b: CoreInt) {
    SameWidth(a, b) && a.value == 0 && Fold(op, a, b).None? ==> W.undefined(op, a, b) == IntVal(a)
  }

  lemma ConstMeans(W: World, consts: seq<ConstData>, v: ValueId, env: Env, w: nat)
    requires AsIntConst(consts, v).Some? && NotUndef(consts, v) && Fits(Value(W, consts, v, env), IntType(w))
    ensures Value(W, consts, v, env) == IntVal(AsIntConst(consts, v).value)
    ensures AsIntConst(consts, v).value.Valid() && AsIntConst(consts, v).value.width == w
  {
  }

  lemma ZeroMeans(W: World, consts: seq<ConstData>, v: ValueId, env: Env, w: nat)
    requires Fits(Value(W, consts, v, env), IntType(w)) && IsZeroConst(consts, v)
    ensures Value(W, consts, v, env).c.value == 0
  {
  }

  lemma OneMeans(W: World, consts: seq<ConstData>, v: ValueId, env: Env, w: nat)
    requires Fits(Value(W, consts, v, env), IntType(w)) && IsOneConst(consts, v)
    ensures Value(W, consts, v, env).c.value == 1
  {
  }

  lemma OnesMean(W: World, consts: seq<ConstData>, v: ValueId, env: Env, w: nat)
    requires Fits(Value(W, consts, v, env), IntType(w)) && IsAllOnesConst(consts, v, IntType(w))
    ensures Value(W, consts, v, env).c.value == Pow2(w) - 1 && Value(W, consts, v, env).c == New(OnesMask(w), w)
  {
    AllOnesIs(Value(W, consts, v, env).c);
  }

  lemma MadeMeans(W: World, consts: seq<ConstData>, n: nat, w: nat, env: Env)
    requires 1 <= w <= 64
    ensures MakeConst(n, IntType(w)).Some?
    ensures OutcomeValue(W, consts, MakeConst(n, IntType(w)).value, env) == IntVal(New(n, w))
  {
  }

  /** What the two operands are known to be. */
  ghost predicate IntOperands(W: World, consts: seq<ConstData>, lhs: ValueId, rhs: ValueId, w: nat, env: Env) {
    Fits(Value(W, consts, lhs, env), IntType(w)) && Fits(Value(W, consts, rhs, env), IntType(w))
  }

  lemma HalfArithmetic(W: World, consts: seq<ConstData>, op: BinaryOpcode, lhs: ValueId, rhs: ValueId, w: nat, env: Env)
    requires IntOperands(W, consts, lhs, rhs, w, env) && (op == Add || op == Sub || op == Mul)
    ensures var r := SimplifyHalf(consts, op, lhs, rhs, IntType(w));
      r.Some? ==>
        OutcomeValue(W, consts, r.value, env)
        == Binop(W, op, Value(W, consts, lhs, env), Value(W, consts, rhs, env))
  {
    var a, b := Value(W, consts, lhs, env).c, Value(W, consts, rhs, env).c;
    hide Fold, Pow2, OutcomeValue, MakeConst, New, IsZeroConst, IsOneConst, Value;
    MadeMeans(W, consts, 0, w, env);
    ExistingMeans(W, consts, lhs, env);
    ExistingMeans(W, consts, rhs, env);
    if IsZeroConst(consts, rhs) {
      ZeroMeans(W, consts, rhs, env, w);
      ZeroIs(b);
      if op != Mul { ZeroRight(op, a, b); } else { ZeroAbsorbs(op, a, b); }
    }
    if IsZeroConst(consts, lhs) {
      ZeroMeans(W, consts, lhs, env, w);
      ZeroIs(a);
      if op == Add { ZeroLeft(op, b, a); } else if op == Mul { ZeroAbsorbs(op, b, a); }
    }
    if IsOneConst(consts, rhs) && op == Mul {
      OneMeans(W, consts, rhs, env, w);
      OneRight(op, a, b);
    }
    if IsOneConst(consts, lhs) && op == Mul {
      OneMeans(W, consts, lhs, env, w);
      OneLeft(b, a);
    }
    if lhs == rhs && op == Sub {
      SelfFolds(op, a);
    }
  }

  lemma ExistingMeans(W: World, consts: seq<ConstData>, v: ValueId, env: Env)
    ensures OutcomeValue(W, consts, Existing(v), env) == Value(W, consts, v, env)
  {
  }

  lemma ZeroIs(z: CoreInt)
    requires z.Valid() && z.value == 0
    ensures New(0, z.width) == z
  {
    ZeroSigned(z);
  }

  lemma HalfBitwise(W: World, consts: seq<ConstData>, op: BinaryOpcode, lhs: ValueId, rhs: ValueId, w: nat, env: Env)
    requires IntOperands(W, consts, lhs, rhs, w, env) && (op == And || op == Or || op == Xor)
    ensures var r := SimplifyHalf(consts, op, lhs, rhs, IntType(w));
      r.Some? ==>
        OutcomeValue(W, consts, r.value, env)
        == Binop(W, op, Value(W, consts, lhs, env), Value(W, consts, rhs, env))
  {
    var a, b := Value(W, consts, lhs, env).c, Value(W, consts, rhs, env).c;
    hide Fold, Pow2, OutcomeValue, MakeConst, New, IsZeroConst, IsOneConst, IsAllOnesConst, Value, OnesMask;
    MadeMeans(W, consts, 0, w, env);
    MadeMeans(W, consts, OnesMask(w), w, env);
    ExistingMeans(W, consts, lhs, env);
    ExistingMeans(W, consts, rhs, env);
    if IsZeroConst(consts, rhs) {
      ZeroMeans(W, consts, rhs, env, w);
      ZeroIs(b);
      if op == And { ZeroAbsorbs(op, a, b); } else { ZeroRight(op, a, b); }
    }
    if IsZeroConst(consts, lhs) {
      ZeroMeans(W, consts, lhs, env, w);
      ZeroIs(a);
      if op == And { ZeroAbsorbs(op, b, a); } else { ZeroLeft(op, b, a); }
    }
    if IsAllOnesConst(consts, rhs, IntType(w)) {
      OnesMean(W, consts, rhs, env, w);
      OnesFold(a, b);
    }
    if IsAllOnesConst(consts, lhs, IntType(w)) {
      OnesMean(W, consts, lhs, env, w);
      OnesFold(b, a);
    }
    if lhs == rhs {
      SelfFolds(op, a);
    }
  }

  lemma HalfDivision(W: World, consts: seq<ConstData>, op: BinaryOpcode, lhs: ValueId, rhs: ValueId, w: nat, env: Env)
    requires IntOperands(W, consts, lhs, rhs, w, env) && op != Add && op != Sub && op != Mul && op != And && op != Or
    requires op != Xor
    requires KeepsZero(W, op, Value(W, consts, lhs, env).c, Value(W, consts, rhs, env).c)
    ensures var r := SimplifyHalf(consts, op, lhs, rhs, IntType(w));
      r.Some? ==>
        OutcomeValue(W, consts, r.value, env)
        == Binop(W, op, Value(W, consts, lhs, env), Value(W, consts, rhs, env))
  {
    var a, b := Value(W, consts, lhs, env).c, Value(W, consts, rhs, env).c;
    hide Fold, Pow2, OutcomeValue, MakeConst, New, IsZeroConst, IsOneConst, Value;
    MadeMeans(W, consts, 0, w, env);
    ExistingMeans(W, consts, lhs, env);
    if IsZeroConst(consts, lhs) {
      ZeroMeans(W, consts, lhs, env, w);
      ZeroIs(a);
      ZeroStays(op, a, b);
    }
    if IsZeroConst(consts, rhs) && (op == Shl || op == LShr || op == AShr) {
      ZeroMeans(W, consts, rhs, env, w);
      ZeroRight(op, a, b);
    }
    if IsOneConst(consts, rhs) && (op == UDiv || op == SDiv) {
      OneMeans(W, consts, rhs, env, w);
      OneRight(op, a, b);
    }
    if IsOneConst(consts, rhs) && (op == URem || op == SRem) {
      OneMeans(W, consts, rhs, env, w);
      OneLeavesNothing(op, a, b);
    }
  }

  /** Whatever a binary instruction is simplified to has the value the instruction has, at every width
      and in every environment in which its operands are integers of its type. */
  lemma BinaryDenotes(W: World, consts: seq<ConstData>, op: BinaryOpcode, lhs: ValueId, rhs: ValueId, w: nat, env: Env)
    requires IntOperands(W, consts, lhs, rhs, w, env) && NotUndef(consts, lhs) && NotUndef(consts, rhs)
    requires Matching(consts, lhs, rhs)
    requires KeepsZero(W, op, Value(W, consts, lhs, env).c, Value(W, consts, rhs, env).c)
    ensures var r := SimplifyBinary(consts, op, lhs, rhs, IntType(w));
      r.Some? ==>
        OutcomeValue(W, consts, r.value, env)
        == Binop(W, op, Value(W, consts, lhs, env), Value(W, consts, rhs, env))
  {
    if AsIntConst(consts, lhs).Some? && AsIntConst(consts, rhs).Some? {
      ConstMeans(W, consts, lhs, env, w);
      ConstMeans(W, consts, rhs, env, w);
    }
    hide Fold, SimplifyHalf, AsIntConst;
    if op == Add || op == Sub || op == Mul {
      HalfArithmetic(W, consts, op, lhs, rhs, w, env);
    } else if op == And || op == Or || op == Xor {
      HalfBitwise(W, consts, op, lhs, rhs, w, env);
    } else {
      HalfDivision(W, consts, op, lhs, rhs, w, env);
    }
  }

  /** Dividing by this, or shifting by it, is undefined. */
  predicate Undefines(op: BinaryOpcode, b: CoreInt) {
    match op
    case UDiv => b.value == 0
    case SDiv => b.value == 0
    case URem => b.value == 0
    case SRem => b.value == 0
    case Shl => b.value >= b.width
    case LShr => b.value >= b.width
    case AShr => b.value >= b.width
    case _ => false
  }

  lemma ZeroFolds(op: BinaryOpcode, a: CoreInt, b: CoreInt)
    requires SameWidth(a, b) && a.value == 0
    ensures Fold(op, a, b).None? <==> Undefines(op, b)
  {
    if op == SDiv || op == SRem {
      ZeroSigned(a);
      SignedZeroOnly(b);
    }
  }

  lemma SignedZeroOnly(b: CoreInt)
    requires b.Valid()
    ensures b.AsI64() == 0 <==> b.value == 0
  {
    LowSmall(b.width, b.value);
    hide Low, Pow2;
  }

  /** Worlds that differ at most in what undefined operations yield. */
  ghost predicate OtherwiseSame(W: World, W2: World) {
    W2 == W.(undefined := W2.undefined)
  }

  ghost predicate RightIn(W: World, consts: seq<ConstData>, o: Outcome, op: BinaryOpcode, lhs: ValueId, rhs: ValueId,
                          env: Env) {
    OutcomeValue(W, consts, o, env) == Binop(W, op, Value(W, consts, lhs, env), Value(W, consts, rhs, env))
  }

  /** Right whatever undefined operations yield. */
  ghost predicate RightEverywhere(W: World, consts: seq<ConstData>, o: Outcome, op: BinaryOpcode, lhs: ValueId,
                                  rhs: ValueId, env: Env) {
    forall W2 :: SaneWorld(W2) && OtherwiseSame(W, W2) ==> RightIn(W2, consts, o, op, lhs, rhs, env)
  }

  lemma SameOperands(W: World, W2: World, consts: seq<ConstData>, v: ValueId, env: Env)
    requires OtherwiseSame(W, W2)
    ensures Value(W2, consts, v, env) == Value(W, consts, v, env)
  {
  }

  lemma SameOutcome(W: World, W2: World, consts: seq<ConstData>, o: Outcome, env: Env)
    requires OtherwiseSame(W, W2)
    ensures OutcomeValue(W2, consts, o, env) == OutcomeValue(W, consts, o, env)
  {
  }

  /** The world in which one undefined operation yields a chosen value. */
  ghost function Yielding(W: World, op: BinaryOpcode, a: CoreInt, b: CoreInt, v: Val): World {
    W.(undefined := (o, x, y) => if o == op && x == a && y == b then v else W.undefined(o, x, y))
  }

  lemma YieldingSane(W: World, op: BinaryOpcode, a: CoreInt, b: CoreInt, v: Val)
    requires SaneWorld(W) && Fits(v, IntType(a.width))
    ensures SaneWorld(Yielding(W, op, a, b, v)) && OtherwiseSame(W, Yielding(W, op, a, b, v))
    ensures Yielding(W, op, a, b, v).undefined(op, a, b) == v
  {
    hide Fits;
  }

  /** A zero is divided by zero, or shifted by at least its width. */
  predicate ZeroUndefined(op: BinaryOpcode, a: CoreInt, b: CoreInt) {
    a.value == 0 && Undefines(op, b)
  }

  lemma RightUnlessZero(W: World, consts: seq<ConstData>, op: BinaryOpcode, lhs: ValueId, rhs: ValueId, w: nat,
                        env: Env)
    requires IntOperands(W, consts, lhs, rhs, w, env) && NotUndef(consts, lhs) && NotUndef(consts, rhs)
    requires Matching(consts, lhs, rhs) && SimplifyBinary(consts, op, lhs, rhs, IntType(w)).Some?
    requires !ZeroUndefined(op, Value(W, consts, lhs, env).c, Value(W, consts, rhs, env).c)
    ensures RightIn(W, consts, SimplifyBinary(consts, op, lhs, rhs, IntType(w)).value, op, lhs, rhs, env)
  {
    hide SimplifyBinary, Value, OutcomeValue, Fold, Undefines;
    var a, b := Value(W, consts, lhs, env).c, Value(W, consts, rhs, env).c;
    if a.value == 0 {
      ZeroFolds(op, a, b);
    }
    BinaryDenotes(W, consts, op, lhs, rhs, w, env);
  }

  /** Whatever a binary instruction is simplified to has its value whatever undefined operations
      yield, exactly unless a zero is divided by zero or shifted by at least its width. */
  lemma BinaryExactly(W: World, consts: seq<ConstData>, op: BinaryOpcode, lhs: ValueId, rhs: ValueId, w: nat, env: Env)
    requires SaneWorld(W) && IntOperands(W, consts, lhs, rhs, w, env) && NotUndef(consts, lhs) && NotUndef(consts, rhs)
    requires Matching(consts, lhs, rhs) && SimplifyBinary(consts, op, lhs, rhs, IntType(w)).Some?
    ensures RightEverywhere(W, consts, SimplifyBinary(consts, op, lhs, rhs, IntType(w)).value, op, lhs, rhs, env)
      <==> !ZeroUndefined(op, Value(W, consts, lhs, env).c, Value(W, consts, rhs, env).c)
  {
    hide SimplifyBinary, Value, OutcomeValue, Fold, SaneWorld, Undefines, RightIn;
    var a, b := Value(W, consts, lhs, env).c, Value(W, consts, rhs, env).c;
    if ZeroUndefined(op, a, b) {
      ZeroFolds(op, a, b);
      WrongSomewhere(W, consts, op, lhs, rhs, w, env);
    } else {
      hide ZeroUndefined;
      forall W2 | SaneWorld(W2) && OtherwiseSame(W, W2)
        ensures RightIn(W2, consts, SimplifyBinary(consts, op, lhs, rhs, IntType(w)).value, op, lhs, rhs, env)
      {
        SameOperands(W, W2, consts, lhs, env);
        SameOperands(W, W2, consts, rhs, env);
        RightUnlessZero(W2, consts, op, lhs, rhs, w, env);
      }
    }
  }

  /** The outcome is the zero; if the operation yields one instead, that is not its value. */
  lemma WrongSomewhere(W: World, consts: seq<ConstData>, op: BinaryOpcode, lhs: ValueId, rhs: ValueId, w: nat, env: Env)
    requires SaneWorld(W) && IntOperands(W, consts, lhs, rhs, w, env) && NotUndef(consts, lhs) && NotUndef(consts, rhs)
    requires Matching(consts, lhs, rhs) && SimplifyBinary(consts, op, lhs, rhs, IntType(w)).Some?
    requires Value(W, consts, lhs, env).c.value == 0
    requires Fold(op, Value(W, consts, lhs, env).c, Value(W, consts, rhs, env).c).None?
    ensures !RightEverywhere(W, consts, SimplifyBinary(consts, op, lhs, rhs, IntType(w)).value, op, lhs, rhs, env)
  {
    var o := SimplifyBinary(consts, op, lhs, rhs, IntType(w)).value;
    var a, b := Value(W, consts, lhs, env).c, Value(W, consts, rhs, env).c;
    var one := CoreInt(1, w);
    OneFits(w);
    hide SimplifyBinary, Value, OutcomeValue, Fold, SaneWorld, Yielding, Pow2;
    var zeros, ones := Yielding(W, op, a, b, IntVal(a)), Yielding(W, op, a, b, IntVal(one));
    YieldingSane(W, op, a, b, IntVal(a));
    YieldingSane(W, op, a, b, IntVal(one));
    SameOperands(W, zeros, consts, lhs, env);
    SameOperands(W, zeros, consts, rhs, env);
    SameOperands(W, ones, consts, lhs, env);
    SameOperands(W, ones, consts, rhs, env);
    BinaryDenotes(zeros, consts, op, lhs, rhs, w, env);
    SameOutcome(W, zeros, consts, o, env);
    SameOutcome(W, ones, consts, o, env);
    assert !RightIn(ones, consts, o, op, lhs, rhs, env);
  }

  lemma OneFits(w: nat)
    requires 1 <= w <= 64
    ensures Fits(IntVal(CoreInt(1, w)), IntType(w))
  {
    assert Pow2(w) == 2 * Pow2(w - 1);
  }

  /** A zero divided or shifted by an unknown value is always simplified, and rightly so exactly when
      the value turns out to be no zero divisor and no amount as large as the width. */
  lemma ZeroNumeratorExactly(W: World, consts: seq<ConstData>, op: BinaryOpcode, lhs: ValueId, rhs: ValueId, w: nat,
                             env: Env)
    requires SaneWorld(W) && IntOperands(W, consts, lhs, rhs, w, env) && NotUndef(consts, lhs) && NotUndef(consts, rhs)
    requires op != Add && op != Sub && op != Mul && op != And && op != Or && op != Xor
    requires IsZeroConst(consts, lhs) && AsIntConst(consts, rhs).None?
    ensures var r := SimplifyBinary(consts, op, lhs, rhs, IntType(w));
      && r.Some?
      && (RightEverywhere(W, consts, r.value, op, lhs, rhs, env) <==> !Undefines(op, Value(W, consts, rhs, env).c))
  {
    hide Fold, Pow2, New, SaneWorld, RightEverywhere, Undefines, Value;
    ZeroMeans(W, consts, lhs, env, w);
    MadeMeans(W, consts, 0, w, env);
    BinaryExactly(W, consts, op, lhs, rhs, w, env);
  }

  /** Zero by zero, the divisor coming in as an argument, in a world that answers as the hardware's
      unsigned division does: the simplified instruction says zero. */
  lemma ZeroByZero(W: World, env: Env)
    requires W.arg(0) == IntVal(CoreInt(0, 32))
    requires W.undefined(UDiv, CoreInt(0, 32), CoreInt(0, 32)) == IntVal(CoreInt(0xFFFF_FFFF, 32))
    ensures var consts := [IntConst(CoreInt(0, 32), IntType(32))];
      var r := SimplifyBinary(consts, UDiv, ConstValue(0), ArgValue(0), IntType(32));
      && r == Some(Fresh(consts[0])) && OutcomeValue(W, consts, r.value, env) == IntVal(CoreInt(0, 32))
      && Binop(W, UDiv, Value(W, consts, ConstValue(0), env), Value(W, consts, ArgValue(0), env))
         == IntVal(CoreInt(0xFFFF_FFFF, 32))
  {
    Pow32();
  }

  lemma BoolMeans(W: World, consts: seq<ConstData>, x: bool, env: Env)
    ensures OutcomeValue(W, consts, MakeConst(if x then 1 else 0, IntType(1)).value, env) == Bool(x)
  {
    assert Pow2(1) == 2;
  }

  /** The two operands of a comparison are integers of one width, or pointers. */
  ghost predicate ComparableOperands(W: World, consts: seq<ConstData>, lhs: ValueId, rhs: ValueId, ty: Type, env: Env) {
    (ty.IntType? || ty.PtrType?) && Fits(Value(W, consts, lhs, env), ty) && Fits(Value(W, consts, rhs, env), ty)
  }

  /** Whatever a comparison is simplified to has the value the comparison has. */
  lemma ICmpDenotes(W: World, consts: seq<ConstData>, code: ICmpCode, lhs: ValueId, rhs: ValueId, ty: Type, env: Env)
    requires SaneWorld(W) && ComparableOperands(W, consts, lhs, rhs, ty, env) && NotUndef(consts, lhs)
    requires NotUndef(consts, rhs) && Matching(consts, lhs, rhs)
    ensures var r := SimplifyICmp(consts, code, lhs, rhs, IntType(1));
      r.Some? ==>
        OutcomeValue(W, consts, r.value, env)
        == Cmp(W, code, Value(W, consts, lhs, env), Value(W, consts, rhs, env))
  {
    hide OutcomeValue, Bool, Pow2, Low, MakeConst, AsIntConst, Value, NotUndef;
    MadeMeans(W, consts, 0, 1, env);
    MadeMeans(W, consts, 1, 1, env);
    BoolMeans(W, consts, true, env);
    BoolMeans(W, consts, false, env);
    if AsIntConst(consts, lhs).Some? && AsIntConst(consts, rhs).Some? {
      if ty.IntType? {
        ConstMeans(W, consts, lhs, env, ty.bits);
        ConstMeans(W, consts, rhs, env, ty.bits);
      } else {
        NullMeans(W, consts, lhs, env);
        NullMeans(W, consts, rhs, env);
      }
    }
  }

  lemma NullMeans(W: World, consts: seq<ConstData>, v: ValueId, env: Env)
    requires AsIntConst(consts, v).Some? && NotUndef(consts, v) && Fits(Value(W, consts, v, env), PtrType)
    ensures Value(W, consts, v, env) == PtrVal(0) && AsIntConst(consts, v) == Some(New(0, 32))
  {
  }

  /** Whatever a selection is simplified to has the value the selection has. */
  lemma SelectDenotes(W: World, consts: seq<ConstData>, c: ValueId, t: ValueId, e: ValueId, env: Env)
    requires Fits(Value(W, consts, c, env), IntType(1)) && NotUndef(consts, c)
    ensures var r := SimplifySelect(consts, c, t, e);
      r.Some? ==> OutcomeValue(W, consts, r.value, env) == if Truthy(Value(W, consts, c, env))
        then Value(W, consts, t, env) else Value(W, consts, e, env)
  {
    if AsIntConst(consts, c).Some? {
      ConstMeans(W, consts, c, env, 1);
    }
    hide AsIntConst, Value;
  }

  ghost function CastOp(kind: InstKind, ty: Type): Operator
    requires kind.Trunc? || kind.Zext? || kind.Sext?
  {
    if kind.Trunc? then TruncOp(ty) else if kind.Zext? then ZextOp(ty) else SextOp(ty)
  }

  /** Whatever a cast is simplified to has the value the cast has. */
  lemma CastDenotes(W: World, consts: seq<ConstData>, kind: InstKind, w: nat, n: nat, env: Env)
    requires kind.Trunc? || kind.Zext? || kind.Sext?
    requires NotUndef(consts, kind.value) && CastReady(consts, kind.value, IntType(w))
    requires Fits(Value(W, consts, kind.value, env), IntType(n))
    requires if kind.Trunc? then w <= n else n <= w
    ensures var r := SimplifyCast(consts, kind, IntType(w));
      r.Some? ==>
        OutcomeValue(W, consts, r.value, env)
        == Cast(CastOp(kind, IntType(w)), Value(W, consts, kind.value, env))
  {
    if AsIntConst(consts, kind.value).Some? {
      ConstMeans(W, consts, kind.value, env, n);
      NewSame(AsIntConst(consts, kind.value).value);
    }
    hide AsIntConst, Low, Pow2, New;
  }

  lemma PtrToIntDenotes(W: World, consts: seq<ConstData>, ptr: ValueId, ty: Type, env: Env)
    ensures var r := SimplifyPtrToInt(consts, ptr, ty);
      r.Some? ==> OutcomeValue(W, consts, r.value, env) == Cast(PtrToIntOp(ty), Value(W, consts, ptr, env))
  {
    hide Low, Pow2, New;
  }
}
