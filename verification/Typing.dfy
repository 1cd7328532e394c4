/** Types of values, and why every run keeps them: wherever an instruction has its value, that value
    is one of the instruction's type. */
module Typing {
  import opened Bits
  import opened CoreInts
  import opened Ir
  import opened Semantics
  import opened Ssa

  predicate Fits(v: Val, ty: Type) {
    match ty
    case IntType(w) => v.IntVal? && v.c.Valid() && v.c.width == w
    case PtrType => v.PtrVal?
    case _ => true
  }

  ghost predicate HasType(W: World, body: Body, v: ValueId, ty: Type) {
    if v.InstValue? then v.inst in body.insts && body.insts[v.inst].ty == ty
    else Fits(Value(W, body.consts, v, FreshEnv()), ty)
  }

  ghost predicate SameScalar(W: World, body: Body, a: ValueId, b: ValueId, ty: Type) {
    (ty.IntType? || ty.PtrType?) && HasType(W, body, a, ty) && HasType(W, body, b, ty)
  }

  ghost predicate IsInt(W: World, body: Body, v: ValueId, bits: nat) {
    1 <= bits <= 64 && HasType(W, body, v, IntType(bits))
  }

  /** Operand types and result type of an instruction go together. */
  ghost predicate WellTyped(W: World, body: Body, i: InstId)
    requires i in body.insts
  {
    var ty := body.insts[i].ty;
    match body.insts[i].kind
    case Binary(_, lhs, rhs) => ty.IntType? && IsInt(W, body, lhs, ty.bits) && IsInt(W, body, rhs, ty.bits)
    case ICmp(_, lhs, rhs) => ty == IntType(1) && exists t :: SameScalar(W, body, lhs, rhs, t)
    case Select(c, t, e) => HasType(W, body, c, IntType(1)) && HasType(W, body, t, ty) && HasType(W, body, e, ty)
    case GetElementPtr(baseTy, _, _) => ty.PtrType? && forall vals :: W.gep(baseTy, vals).PtrVal?
    case Alloca(_) => ty.PtrType? && W.slot(i).PtrVal?
    case Load(_) => forall mem, p :: Fits(W.load(mem, p, ty), ty)
    case Call(f, _) => forall vals, mem :: Fits(W.callValue(f, vals, mem), ty)
    case Phi(incomings, _) => forall k :: k in incomings ==> HasType(W, body, incomings[k].value, ty)
    case PtrToInt(p) => ty.IntType? && 1 <= ty.bits <= 64 && HasType(W, body, p, PtrType)
    case Trunc(v) => ty.IntType? && 1 <= ty.bits && exists n: nat :: ty.bits <= n && IsInt(W, body, v, n)
    case Zext(v) => ty.IntType? && ty.bits <= 64 && exists n: nat :: n <= ty.bits && IsInt(W, body, v, n)
    case Sext(v) => ty.IntType? && ty.bits <= 64 && exists n: nat :: n <= ty.bits && IsInt(W, body, v, n)
    case _ => ty.VoidType?
  }

  /** Undefined operations yield some integer of their operands' width, and a pointer compares with
      itself as equal. */
  ghost predicate SaneWorld(W: World) {
    && (forall op, a, b :: SameWidth(a, b) ==> Fits(W.undefined(op, a, b), IntType(a.width)))
    && (forall code, p :: W.pointerOrder(code, p, p) == (code == Uge || code == Ule || code == Sge || code == Sle))
  }

  ghost predicate Typed(W: World, body: Body) {
    SaneWorld(W) && forall i :: Attached(body, i) ==> WellTyped(W, body, i)
  }

  // ---------------------------------------------------------------- environments

  ghost predicate InstFits(body: Body, d: InstId, env: Env)
    requires d in body.insts
  {
    IsTerminator(body.insts[d].kind) || Fits(env[d], body.insts[d].ty)
  }

  /** Whatever has its value at this point has one of its type. */
  ghost predicate EnvTyped(body: Body, b: BlockId, k: int, env: Env) {
    forall d :: Before(body, d, b, k) ==> InstFits(body, d, env)
  }

  lemma OperandFits(W: World, body: Body, v: ValueId, ty: Type, b: BlockId, k: int, env: Env)
    requires Typed(W, body) && EnvTyped(body, b, k, env) && HasType(W, body, v, ty) && Available(body, v, b, k)
    ensures Fits(Value(W, body.consts, v, env), ty)
  {
    hide Before, SaneWorld;
    if v.InstValue? {
      assert Attached(body, v.inst) by { BeforeAttached(body, v.inst, b, k); }
      assert InstFits(body, v.inst, env) && WellTyped(W, body, v.inst);
    }
  }

  lemma BeforeAttached(body: Body, o: InstId, b: BlockId, k: int)
    requires Before(body, o, b, k)
    ensures Attached(body, o)
  {
  }

  lemma BoolFits(x: bool)
    ensures Fits(Bool(x), IntType(1))
  {
    assert Pow2(1) == 2;
  }

  lemma BinopFits(W: World, op: BinaryOpcode, a: Val, b: Val, w: nat)
    requires SaneWorld(W) && Fits(a, IntType(w)) && Fits(b, IntType(w))
    ensures Fits(Binop(W, op, a, b), IntType(w))
  {
    hide Fold;
  }

  lemma CmpFits(W: World, code: ICmpCode, a: Val, b: Val, ty: Type)
    requires ty.IntType? || ty.PtrType?
    requires Fits(a, ty) && Fits(b, ty)
    ensures Fits(Cmp(W, code, a, b), IntType(1))
  {
    hide Compare;
    forall x ensures Fits(Bool(x), IntType(1)) {
      BoolFits(x);
    }
  }

  /** The result of a well-typed instruction on operands of the right types. */
  lemma ResultFits(W: World, body: Body, i: InstId, b: BlockId, k: int, env: Env)
    requires Typed(W, body) && EnvTyped(body, b, k, env) && Attached(body, i) && IsPure(body.insts[i].kind)
    requires ArgsAvailable(body, i, b, k)
    ensures Fits(Apply(W, OperatorOf(i, body.insts[i]), ArgVals(W, body, i, env)), body.insts[i].ty)
  {
    hide EnvTyped, Before, SaneWorld, HasType, Binop, Cmp, Fits, Pow2, Low;
    var ty := body.insts[i].ty;
    assert WellTyped(W, body, i);
    match body.insts[i].kind {
      case Binary(op, lhs, rhs) =>
        OperandFits(W, body, lhs, ty, b, k, env);
        OperandFits(W, body, rhs, ty, b, k, env);
        BinopFits(W, op, Value(W, body.consts, lhs, env), Value(W, body.consts, rhs, env), ty.bits);
      case ICmp(code, lhs, rhs) =>
        var t :| SameScalar(W, body, lhs, rhs, t);
        OperandFits(W, body, lhs, t, b, k, env);
        OperandFits(W, body, rhs, t, b, k, env);
        CmpFits(W, code, Value(W, body.consts, lhs, env), Value(W, body.consts, rhs, env), t);
      case Select(c, t, e) =>
        OperandFits(W, body, t, ty, b, k, env);
        OperandFits(W, body, e, ty, b, k, env);
      case PtrToInt(p) =>
        OperandFits(W, body, p, PtrType, b, k, env);
        PtrToIntFits(Value(W, body.consts, p, env), ty);
      case Trunc(v) =>
        var n: nat :| ty.bits <= n && IsInt(W, body, v, n);
        OperandFits(W, body, v, IntType(n), b, k, env);
        TruncFits(Value(W, body.consts, v, env), ty, n);
      case Zext(v) =>
        var n: nat :| n <= ty.bits && IsInt(W, body, v, n);
        OperandFits(W, body, v, IntType(n), b, k, env);
        ExtFits(Value(W, body.consts, v, env), ty, n);
      case Sext(v) =>
        var n: nat :| n <= ty.bits && IsInt(W, body, v, n);
        OperandFits(W, body, v, IntType(n), b, k, env);
        ExtFits(Value(W, body.consts, v, env), ty, n);
      case _ =>
        AddressFits(W, body, i, env);
    }
  }

  lemma AddressFits(W: World, body: Body, i: InstId, env: Env)
    requires i in body.insts && WellTyped(W, body, i)
    requires (body.insts[i].kind.GetElementPtr? || body.insts[i].kind.Alloca?)
    ensures Fits(Apply(W, OperatorOf(i, body.insts[i]), ArgVals(W, body, i, env)), body.insts[i].ty)
  {
  }

  lemma PtrToIntFits(v: Val, ty: Type)
    requires ty.IntType? && 1 <= ty.bits <= 64 && Fits(v, PtrType)
    ensures Fits(Cast(PtrToIntOp(ty), v), ty)
  {
  }

  lemma TruncFits(v: Val, ty: Type, n: nat)
    requires ty.IntType? && 1 <= ty.bits <= n <= 64 && Fits(v, IntType(n))
    ensures Fits(Cast(TruncOp(ty), v), ty)
  {
  }

  lemma ExtFits(v: Val, ty: Type, n: nat)
    requires ty.IntType? && 1 <= n <= ty.bits <= 64 && Fits(v, IntType(n))
    ensures Fits(Cast(ZextOp(ty), v), ty) && Fits(Cast(SextOp(ty), v), ty)
  {
  }

  lemma StepTyped(W: World, body: Body, obs: set<InstId>, b: BlockId, k: nat, st: State)
    requires SSA(body) && Typed(W, body) && b in body.blocks && Reachable(body, b) && k < |body.blocks[b].insts|
    requires EnvTyped(body, b, k, st.env)
    ensures EnvTyped(body, b, k + 1, StepInst(W, body, obs, body.blocks[b].insts[k], st).env)
  {
    var i := body.blocks[b].insts[k];
    assert BlockOk(body, b) && Contains(body.blocks[b], i);
    ListedHere(body, b, i);
    hide SSA, Reachable, Perform, Before, WellPlaced, PhiOk, OperatorOf, Fits, Typed;
    var st' := StepInst(W, body, obs, i, st);
    PerformWrites(W, obs, i, OperatorOf(i, body.insts[i]), ArgVals(W, body, i, st.env), st);
    forall d | Before(body, d, b, k + 1) ensures InstFits(body, d, st'.env) {
      BeforeAttached(body, d, b, k + 1);
      if d == i {
        NewFits(W, body, obs, b, k, st);
      } else {
        BeforeOneLess(body, d, b, k);
      }
    }
  }

  lemma NewFits(W: World, body: Body, obs: set<InstId>, b: BlockId, k: nat, st: State)
    requires SSA(body) && Typed(W, body) && b in body.blocks && k < |body.blocks[b].insts|
    requires EnvTyped(body, b, k, st.env)
    requires var i := body.blocks[b].insts[k]; Attached(body, i) && ArgsAvailable(body, i, b, k)
    ensures InstFits(body, body.blocks[b].insts[k], StepInst(W, body, obs, body.blocks[b].insts[k], st).env)
  {
    hide SSA, Before, EnvTyped, ArgsAvailable, Apply;
    var i := body.blocks[b].insts[k];
    assert WellTyped(W, body, i);
    if IsPure(body.insts[i].kind) {
      hide Fits, Typed;
      ResultFits(W, body, i, b, k, st.env);
      PureOperator(i, body.insts[i]);
      PerformWrites(W, obs, i, OperatorOf(i, body.insts[i]), ArgVals(W, body, i, st.env), st);
      hide Perform, OperatorOf;
    } else {
      hide Typed, HasType;
      ListedNotPhi(body, b, k);
    }
  }

  lemma ListedNotPhi(body: Body, b: BlockId, k: nat)
    requires SSA(body) && b in body.blocks && k < |body.blocks[b].insts|
    ensures body.blocks[b].insts[k] in body.insts && !body.insts[body.blocks[b].insts[k]].kind.Phi?
  {
    hide OperandsExist;
    assert Contains(body.blocks[b], body.blocks[b].insts[k]);
  }

  lemma {:induction false} BlockTyped(W: World, body: Body, obs: set<InstId>, b: BlockId, k: nat, st: State)
    requires SSA(body) && Typed(W, body) && b in body.blocks && Reachable(body, b) && k <= |body.blocks[b].insts|
    requires EnvTyped(body, b, 0, st.env)
    ensures EnvTyped(body, b, k, StateAt(W, body, obs, b, k, st).env)
    decreases k
  {
    hide EnvTyped, SSA, Typed, Reachable, StepInst;
    var list := body.blocks[b].insts;
    if k > 0 {
      BlockTyped(W, body, obs, b, k - 1, st);
      StepTyped(W, body, obs, b, k - 1, StateAt(W, body, obs, b, k - 1, st));
      assert list[..k][..k - 1] == list[..k - 1];
    } else {
      assert list[..0] == [];
    }
  }

  lemma EdgeTyped(W: World, body: Body, p: BlockId, b: BlockId, env: Env)
    requires SSA(body) && Typed(W, body) && b in body.blocks && Reachable(body, p) && Edge(body, p, b)
    requires p in body.blocks
    requires EnvTyped(body, p, |body.blocks[p].insts|, env)
    ensures EnvTyped(body, b, 0, PhiEnv(W, body, body.blocks[b].phis, p, env))
  {
    hide PhiValue, Dominates, Reachable, BlockOk, OperandsExist, Typed, Fits, Edge;
    var env' := PhiEnv(W, body, body.blocks[b].phis, p, env);
    forall d | Before(body, d, b, 0) ensures InstFits(body, d, env') {
      WellHeldIn(body, d);
      if body.insts[d].parent.value == b {
        PhiFits(W, body, p, b, d, env);
      } else if !IsTerminator(body.insts[d].kind) {
        FromAbove(body, p, b, d);
        NotPhiHere(body, b, d);
        assert InstFits(body, d, env);
      }
    }
  }

  lemma PhiFits(W: World, body: Body, p: BlockId, b: BlockId, d: InstId, env: Env)
    requires SSA(body) && Typed(W, body) && b in body.blocks && Reachable(body, p) && Edge(body, p, b)
    requires p in body.blocks
    requires EnvTyped(body, p, |body.blocks[p].insts|, env) && d in body.blocks[b].phis
    ensures d in body.insts && Fits(PhiValue(W, body, d, p, env), body.insts[d].ty)
  {
    ReachStep(body, p, b);
    assert BlockOk(body, b) && Contains(body.blocks[b], d);
    ListedHere(body, b, d);
    hide Reachable, Edge, Fits, WellPlaced, EnvTyped, HasType, PhiValue, Before;
    assert WellTyped(W, body, d) && PhiOk(body, d, b);
    hide Typed, SSA;
    var kind := body.insts[d].kind;
    var idx: nat :| HasIncoming(kind, idx, p);
    PhiValueIs(W, body, d, p, idx, env);
    OperandFits(W, body, kind.incomings[idx].value, body.insts[d].ty, p, |body.blocks[p].insts|, env);
  }

  // ---------------------------------------------------------------- equations and types together

  /** What is known of the environment at a point of a run: the equations in force hold, and in a
      well-typed program values have their types. */
  ghost predicate KnownAt(W: World, body: Body, b: BlockId, k: int, env: Env) {
    EquationsHold(W, body, b, k, env) && (Typed(W, body) ==> EnvTyped(body, b, k, env))
  }

  lemma BlockKeepsKnown(W: World, body: Body, obs: set<InstId>, b: BlockId, k: nat, st: State)
    requires SSA(body) && b in body.blocks && Reachable(body, b) && k <= |body.blocks[b].insts|
    requires KnownAt(W, body, b, 0, st.env)
    ensures KnownAt(W, body, b, k, StateAt(W, body, obs, b, k, st).env)
  {
    hide EnvTyped, EquationsHold, SSA, Typed, Reachable, StateAt;
    BlockKeepsEquations(W, body, obs, b, k, st);
    if Typed(W, body) {
      BlockTyped(W, body, obs, b, k, st);
    }
  }

  ghost predicate OnKnownCourse(W: World, body: Body, place: Place, env: Env) {
    && OnCourse(W, body, place, env)
    && (place.At? && place.from.Some? ==>
          place.from.value in body.blocks
            && KnownAt(W, body, place.from.value, |body.blocks[place.from.value].insts|, env))
  }

  lemma EntryTyped(body: Body, env: Env)
    requires SSA(body)
    ensures EnvTyped(body, body.entry, 0, env)
  {
    hide OperandsExist;
    forall d ensures !Before(body, d, body.entry, 0) {
      NotBeforeEntry(body, d);
    }
  }

  lemma EntersKnown(W: World, body: Body, obs: set<InstId>, place: Place, st: State)
    requires SSA(body) && place.At? && OnKnownCourse(W, body, place, st.env)
    ensures place.b in body.blocks && Reachable(body, place.b)
    ensures KnownAt(W, body, place.b, 0, EnterBlock(W, body, obs, body.blocks[place.b].phis, place.from, st).env)
  {
    hide SSA, EquationsHold, EnvTyped, Typed, Reachable, Edge, PhiEnv, PhiTrace;
    EntersWithEquations(W, body, obs, place, st);
    if Typed(W, body) {
      if place.from.None? {
        EntryTyped(body, st.env);
      } else {
        EdgeTyped(W, body, place.from.value, place.b, st.env);
      }
    }
  }

  lemma StepKeepsKnown(W: World, body: Body, obs: set<InstId>, place: Place, st: State)
    requires SSA(body) && OnKnownCourse(W, body, place, st.env)
    ensures var (place', st') := StepBlock(W, body, obs, place, st); OnKnownCourse(W, body, place', st'.env)
  {
    hide KnownAt, EquationsHold, Reachable, Edge, Leave, EnterBlock, StepInst, WellPlaced, BlockOk, OnCourse;
    StepStaysOnCourse(W, body, obs, place, st);
    if place.At? {
      EntersKnown(W, body, obs, place, st);
      var blk := body.blocks[place.b];
      var st1 := EnterBlock(W, body, obs, blk.phis, place.from, st);
      BlockKeepsKnown(W, body, obs, place.b, |blk.insts|, st1);
      assert blk.insts[..|blk.insts|] == blk.insts;
      LeaveTakesEdge(W, body, obs, place.b, ExecInsts(W, body, obs, blk.insts, st1));
    }
  }

  /** Every run of an SSA body is on course, equations and types included. */
  lemma {:induction false} SsaKnown(W: World, body: Body, obs: set<InstId>, mem: Memory, n: nat)
    requires SSA(body)
    ensures var (place, st) := Execute(W, body, obs, mem, n); OnKnownCourse(W, body, place, st.env)
  {
    hide StepBlock, KnownAt;
    if n > 0 {
      SsaKnown(W, body, obs, mem, n - 1);
      var (place, st) := Execute(W, body, obs, mem, n - 1);
      StepKeepsKnown(W, body, obs, place, st);
      hide OnKnownCourse;
    }
  }
}
