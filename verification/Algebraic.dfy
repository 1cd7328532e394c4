/** The algebraic simplification pass: a worklist of instructions, each replaced by a value it equals
    and erased (src/ir/opt/algebraic.rs:18-77). */
module Algebraic {
  import opened Sequences
  import opened Bits
  import opened CoreInts
  import opened Ir
  import opened UseLists
  import opened ModuleCores
  import opened Semantics
  import opened Ssa
  import opened Typing
  import opened Rewrites
  import opened Clearing
  import opened Trim
  import opened CfgSimplify
  import opened Simplify
  import opened Divergence
  import opened Dce

  // ---------------------------------------------------------------- soundness of a rewriting, run by run

  /** As long as no zero is divided by zero or shifted by its width or more, the two run in lockstep. */
  ghost predicate SafeLockstep(W: World, a: Body, b: Body, obs: set<InstId>) {
    forall mem, n: nat :: ZeroSafe(W, a, mem, n) ==> SameSoFar(Execute(W, a, obs, mem, n), Execute(W, b, obs, mem, n))
  }

  /** No operand is an undefined value. */
  ghost predicate NoUndef(body: Body) {
    forall i, s :: Attached(body, i) && s in ValueOperands(body.insts[i].kind) ==>
      NotUndef(body.consts, ValueOperands(body.insts[i].kind)[s])
  }

  /** From a to b some instructions went; types are kept, and in every typed world the others do the
      same things, block by block, as long as no zero has been divided by zero or shifted by its
      width or more. */
  ghost predicate Sound(a: Body, b: Body, gone: set<InstId>) {
    && SSA(b) && SameEdges(a, b) && b.blocks.Keys == a.blocks.Keys && b.insts.Keys == a.insts.Keys - gone
    && (forall i :: i in b.insts ==>
         b.insts[i].parent == a.insts[i].parent && Droppable(b.insts[i].kind) == Droppable(a.insts[i].kind))
    && (forall i :: i in gone && i in a.insts ==> Droppable(a.insts[i].kind))
    && (NoUndef(a) ==> NoUndef(b))
    && (forall W :: Typed(W, a) ==> Typed(W, b))
    && (forall W, obs: set<InstId> :: Typed(W, a) && obs !! gone ==> SafeLockstep(W, a, b, obs))
  }

  lemma SoundReflexive(a: Body)
    requires SSA(a)
    ensures Sound(a, a, {})
  {
    hide SSA, Execute, Edge, Typed, NoUndef;
  }

  lemma SafeLockstepTransitive(W: World, a: Body, b: Body, c: Body, obs: set<InstId>)
    requires b.insts.Keys <= a.insts.Keys && SafeLockstep(W, a, b, b.insts.Keys)
    requires SafeLockstep(W, a, b, obs) && SafeLockstep(W, b, c, obs)
    ensures SafeLockstep(W, a, c, obs)
  {
    hide Execute, ZeroSafe;
    forall mem, n: nat | ZeroSafe(W, a, mem, n)
      ensures SameSoFar(Execute(W, a, obs, mem, n), Execute(W, c, obs, mem, n))
    {
      assert SameSoFar(Execute(W, a, b.insts.Keys, mem, n), Execute(W, b, b.insts.Keys, mem, n));
      SafeSeen(W, a, b, mem, n);
      assert SameSoFar(Execute(W, a, obs, mem, n), Execute(W, b, obs, mem, n));
    }
  }

  lemma SoundTransitive(a: Body, b: Body, c: Body, g: set<InstId>, h: set<InstId>)
    requires Sound(a, b, g) && Sound(b, c, h)
    ensures Sound(a, c, g + h)
  {
    hide SSA, SafeLockstep, Edge, Typed, NoUndef;
    forall W, obs: set<InstId> | Typed(W, a) && obs !! g + h ensures SafeLockstep(W, a, c, obs) {
      SafeLockstepTransitive(W, a, b, c, obs);
    }
  }

  lemma SoundReachable(a: Body, b: Body, gone: set<InstId>)
    requires Sound(a, b, gone)
    ensures AllReachable(a) ==> AllReachable(b)
    ensures AllAttached(a) ==> AllAttached(b)
  {
    hide SSA, SafeLockstep, Typed, NoUndef;
    SamePaths(a, b);
    hide Edge, Reachable;
  }

  // ---------------------------------------------------------------- one more constant

  ghost function Grown(body: Body, data: ConstData): Body {
    body.(consts := body.consts + [data])
  }

  lemma GrownValue(W: World, body: Body, data: ConstData, v: ValueId, env: Env)
    requires Knows(body, v)
    ensures Value(W, Grown(body, data).consts, v, env) == Value(W, body.consts, v, env)
    ensures NotUndef(Grown(body, data).consts, v) == NotUndef(body.consts, v)
  {
  }

  lemma GrownHasType(W: World, body: Body, data: ConstData, v: ValueId, ty: Type)
    requires Knows(body, v) && HasType(W, body, v, ty)
    ensures HasType(W, Grown(body, data), v, ty)
  {
    GrownValue(W, body, data, v, FreshEnv());
  }

  lemma OperandKnown(body: Body, i: InstId, s: OperandSlot)
    requires WellPlaced(body) && Attached(body, i) && s in ValueOperands(body.insts[i].kind)
    ensures Knows(body, ValueOperands(body.insts[i].kind)[s])
  {
    assert WellHeld(body, i);
    hide ValueOperands;
  }

  /** Every operand keeps its types from one body to another. */
  ghost predicate KeepsTypes(W: World, a: Body, b: Body, kind: InstKind) {
    forall s, ty :: s in ValueOperands(kind) && HasType(W, a, ValueOperands(kind)[s], ty) ==>
      HasType(W, b, ValueOperands(kind)[s], ty)
  }

  lemma WellTypedSame(W: World, a: Body, b: Body, i: InstId)
    requires i in a.insts && i in b.insts && b.insts[i] == a.insts[i] && WellTyped(W, a, i)
    requires KeepsTypes(W, a, b, a.insts[i].kind)
    ensures WellTyped(W, b, i)
  {
    hide HasType, Fits, ValueOperands;
    var kind := a.insts[i].kind;
    forall v, ty | v in ValueOperands(kind).Values && HasType(W, a, v, ty) ensures HasType(W, b, v, ty) {
      var s :| s in ValueOperands(kind) && ValueOperands(kind)[s] == v;
    }
    if kind.Phi? {
      forall k | k in kind.incomings ensures kind.incomings[k].value in ValueOperands(kind).Values {
        EntrySlots(kind, k);
      }
    } else {
      forall v ensures v in Args(kind) <==> v in ValueOperands(kind).Values {
        ArgsAreOperands(kind, v);
      }
    }
    TypedAgain(W, a, b, i);
  }

  lemma TypedAgain(W: World, a: Body, b: Body, i: InstId)
    requires i in a.insts && i in b.insts && b.insts[i] == a.insts[i] && WellTyped(W, a, i)
    requires forall v, ty :: v in Args(a.insts[i].kind) && HasType(W, a, v, ty) ==> HasType(W, b, v, ty)
    requires a.insts[i].kind.Phi? ==>
      forall k, ty :: k in a.insts[i].kind.incomings && HasType(W, a, a.insts[i].kind.incomings[k].value, ty) ==>
      HasType(W, b, a.insts[i].kind.incomings[k].value, ty)
    ensures WellTyped(W, b, i)
  {
    hide HasType, Fits;
    var kind := a.insts[i].kind;
    match kind {
      case ICmp(_, lhs, rhs) =>
        assert lhs in Args(kind) && rhs in Args(kind);
        var t :| SameScalar(W, a, lhs, rhs, t);
        assert SameScalar(W, b, lhs, rhs, t);
      case Binary(_, lhs, rhs) => assert lhs in Args(kind) && rhs in Args(kind);
      case Select(c, t, e) => assert c in Args(kind) && t in Args(kind) && e in Args(kind);
      case PtrToInt(p) => assert p in Args(kind);
      case Trunc(v) =>
        assert v in Args(kind);
        var n: nat :| a.insts[i].ty.bits <= n && IsInt(W, a, v, n);
        assert IsInt(W, b, v, n);
      case Zext(v) => CastAgain(W, a, b, v, a.insts[i].ty);
      case Sext(v) => CastAgain(W, a, b, v, a.insts[i].ty);
      case _ =>
    }
  }

  lemma CastAgain(W: World, a: Body, b: Body, v: ValueId, ty: Type)
    requires ty.IntType? && (exists n: nat :: n <= ty.bits && IsInt(W, a, v, n))
    requires forall t :: HasType(W, a, v, t) ==> HasType(W, b, v, t)
    ensures exists n: nat :: n <= ty.bits && IsInt(W, b, v, n)
  {
    hide HasType;
    var n: nat :| n <= ty.bits && IsInt(W, a, v, n);
    assert IsInt(W, b, v, n);
  }

  lemma GrownTyped(W: World, body: Body, data: ConstData)
    requires WellPlaced(body) && Typed(W, body)
    ensures Typed(W, Grown(body, data))
  {
    var b := Grown(body, data);
    hide WellPlaced, SaneWorld, WellTyped, ValueOperands, HasType;
    forall i | Attached(b, i) ensures WellTyped(W, b, i) {
      assert WellTyped(W, body, i);
      forall s, ty | s in ValueOperands(body.insts[i].kind)
        && HasType(W, body, ValueOperands(body.insts[i].kind)[s], ty)
        ensures HasType(W, b, ValueOperands(body.insts[i].kind)[s], ty)
      {
        OperandKnown(body, i, s);
        GrownHasType(W, body, data, ValueOperands(body.insts[i].kind)[s], ty);
      }
      WellTypedSame(W, body, b, i);
    }
  }

  lemma GrownTrims(body: Body, data: ConstData)
    ensures Trimmed(body, Grown(body, data)) || !WellPlaced(body)
  {
    hide OperandsExist, Reachable, SamePhi;
    if WellPlaced(body) {
      forall c, i | c in body.blocks && Reachable(body, c) && Contains(body.blocks[c], i)
        ensures TrimmedInst(body, Grown(body, data), c, i)
      {
        ListedHere(body, c, i);
        SamePhiReflexive(body, c, body.insts[i].kind);
      }
    }
  }

  lemma SamePhiReflexive(body: Body, c: BlockId, kind: InstKind)
    ensures kind.Phi? ==> SamePhi(body, c, kind, kind)
  {
    hide Reachable, Edge;
  }

  lemma GrownSound(body: Body, data: ConstData)
    requires SSA(body) && WellPlaced(Grown(body, data))
    ensures Sound(body, Grown(body, data), {})
  {
    var b := Grown(body, data);
    GrownTrims(body, data);
    TrimmedSSA(body, b);
    assert WellPlaced(body);
    hide SSA, WellPlaced, Trimmed, Edge, Typed, Execute, ValueOperands;
    assert SameEdges(body, b) by { GrownEdges(body, data); }
    forall i, s | Attached(b, i) && s in ValueOperands(b.insts[i].kind) && NoUndef(body)
      ensures NotUndef(b.consts, ValueOperands(b.insts[i].kind)[s])
    {
      OperandKnown(body, i, s);
      assert NotUndef(body.consts, ValueOperands(body.insts[i].kind)[s]);
      GrownUndef(body, data, ValueOperands(body.insts[i].kind)[s]);
    }
    forall W | Typed(W, body) ensures Typed(W, b) {
      GrownTyped(W, body, data);
    }
    forall W, obs: set<InstId> ensures SafeLockstep(W, body, b, obs) {
      forall mem, n: nat ensures SameSoFar(Execute(W, body, obs, mem, n), Execute(W, b, obs, mem, n)) {
        TrimmedRuns(W, body, b, obs, mem, n);
      }
    }
  }

  lemma GrownEdges(body: Body, data: ConstData)
    ensures SameEdges(body, Grown(body, data))
  {
  }

  lemma GrownUndef(body: Body, data: ConstData, v: ValueId)
    requires Knows(body, v)
    ensures NotUndef(Grown(body, data).consts, v) == NotUndef(body.consts, v)
  {
  }

  // ---------------------------------------------------------------- erasing an unread instruction

  lemma ErasedHasType(W: World, body: Body, i: InstId, v: ValueId, ty: Type)
    requires WellPlaced(body) && Attached(body, i) && v != InstValue(i) && HasType(W, body, v, ty)
    ensures HasType(W, Erase(body, i), v, ty)
  {
    EraseShape(body, i);
    hide WellPlaced, Erase;
  }

  lemma ErasedTyped(W: World, body: Body, i: InstId)
    requires WellPlaced(body) && Attached(body, i) && Unread(body, {i}) && Typed(W, body)
    ensures Typed(W, Erase(body, i))
  {
    var b := Erase(body, i);
    EraseShape(body, i);
    hide WellPlaced, SaneWorld, WellTyped, ValueOperands, HasType, Erase;
    forall j | Attached(b, j) ensures WellTyped(W, b, j) {
      assert WellTyped(W, body, j);
      forall s, ty | s in ValueOperands(body.insts[j].kind)
        && HasType(W, body, ValueOperands(body.insts[j].kind)[s], ty)
        ensures HasType(W, b, ValueOperands(body.insts[j].kind)[s], ty)
      {
        ErasedHasType(W, body, i, ValueOperands(body.insts[j].kind)[s], ty);
      }
      WellTypedSame(W, body, b, j);
    }
  }

  lemma ErasedSound(body: Body, i: InstId)
    requires SSA(body) && Attached(body, i) && Droppable(body.insts[i].kind)
    requires forall u :: u in Registry(body) ==> Registry(body)[u] != InstValue(i)
    ensures Sound(body, Erase(body, i), {i})
  {
    var b := Erase(body, i);
    EraseClears(body, i);
    UnreferencedUnread(body, i);
    ClearedSSA(body, b, {i});
    ClearedEdges(body, b, {i});
    SsaPlaced(body);
    EraseShape(body, i);
    hide SSA, WellPlaced, Erase, Unread, Edge, ClearBlock, Typed, Registry, Execute, ValueOperands;
    forall W | Typed(W, body) ensures Typed(W, b) {
      ErasedTyped(W, body, i);
    }
    forall W, obs: set<InstId> | obs !! {i} ensures SafeLockstep(W, body, b, obs) {
      ClearedLockstep(body, b, obs, {i});
    }
  }

  // ---------------------------------------------------------------- exchanging an instruction for a value

  lemma SwapHasType(W: World, body: Body, w: InstId, v: ValueId, x: ValueId, ty: Type)
    requires w in body.insts && HasType(W, body, v, body.insts[w].ty) && HasType(W, body, x, ty)
    ensures HasType(W, SubstituteAll(body, InstValue(w), v), Swap(x, InstValue(w), v), ty)
  {
  }

  lemma SubstTypedInst(W: World, body: Body, w: InstId, v: ValueId, i: InstId)
    requires w in body.insts && HasType(W, body, v, body.insts[w].ty) && Attached(body, i) && WellTyped(W, body, i)
    ensures WellTyped(W, SubstituteAll(body, InstValue(w), v), i)
  {
    var b := SubstituteAll(body, InstValue(w), v);
    assert b.insts[i].kind == Subst(body.insts[i].kind, InstValue(w), v) && b.insts[i].ty == body.insts[i].ty;
    hide HasType, Fits, Swap, SubstituteAll;
    var ty := body.insts[i].ty;
    forall x, t | HasType(W, body, x, t) ensures HasType(W, b, Swap(x, InstValue(w), v), t) {
      SwapHasType(W, body, w, v, x, t);
    }
    match body.insts[i].kind {
      case ICmp(_, lhs, rhs) =>
        var t :| SameScalar(W, body, lhs, rhs, t);
        assert SameScalar(W, b, Swap(lhs, InstValue(w), v), Swap(rhs, InstValue(w), v), t);
      case Trunc(x) =>
        var n: nat :| ty.bits <= n && IsInt(W, body, x, n);
        assert IsInt(W, b, Swap(x, InstValue(w), v), n);
      case Zext(x) =>
        var n: nat :| n <= ty.bits && IsInt(W, body, x, n);
        assert IsInt(W, b, Swap(x, InstValue(w), v), n);
      case Sext(x) =>
        var n: nat :| n <= ty.bits && IsInt(W, body, x, n);
        assert IsInt(W, b, Swap(x, InstValue(w), v), n);
      case _ =>
    }
  }

  lemma SubstTyped(W: World, body: Body, w: InstId, v: ValueId)
    requires w in body.insts && HasType(W, body, v, body.insts[w].ty) && Typed(W, body)
    ensures Typed(W, SubstituteAll(body, InstValue(w), v))
  {
    hide SaneWorld, WellTyped, HasType, Subst;
    forall i | Attached(SubstituteAll(body, InstValue(w), v), i)
      ensures WellTyped(W, SubstituteAll(body, InstValue(w), v), i)
    {
      SubstTypedInst(W, body, w, v, i);
    }
  }

  lemma SubstNoUndef(body: Body, w: InstId, v: ValueId)
    requires NoUndef(body) && NotUndef(body.consts, v)
    ensures NoUndef(SubstituteAll(body, InstValue(w), v))
  {
    var b := SubstituteAll(body, InstValue(w), v);
    hide ValueOperands, Subst;
    forall i, s | Attached(b, i) && s in ValueOperands(b.insts[i].kind)
      ensures NotUndef(b.consts, ValueOperands(b.insts[i].kind)[s])
    {
      SubstValues(body.insts[i].kind, InstValue(w), v);
      assert NotUndef(body.consts, ValueOperands(body.insts[i].kind)[s]);
    }
  }

  lemma SubstSound(body: Body, w: InstId, v: ValueId)
    requires SSA(body) && Follows(body, w, v) && Knows(body, v) && NotUndef(body.consts, v)
    requires forall W :: Typed(W, body) ==> HasType(W, body, v, body.insts[w].ty)
    requires forall W :: Typed(W, body) && ZeroKept(W) ==> AgreesIn(W, body, w, v)
    ensures Sound(body, SubstituteAll(body, InstValue(w), v), {})
  {
    var b := SubstituteAll(body, InstValue(w), v);
    FollowsSSA(body, w, v);
    SubstEdges(body, InstValue(w), v);
    assert Attached(body, w) by { hide Reachable, Before; }
    forall i | i in body.insts ensures Droppable(b.insts[i].kind) == Droppable(body.insts[i].kind) {
      SubstDroppable(body.insts[i].kind, InstValue(w), v);
    }
    hide SSA, Follows, AgreesIn, Typed, ZeroKept, HasType, SafeLockstep, Edge, Subst, NoUndef;
    if NoUndef(body) {
      SubstNoUndef(body, w, v);
    }
    forall W | Typed(W, body) ensures Typed(W, b) {
      SubstTyped(W, body, w, v);
    }
    forall W, obs: set<InstId> | Typed(W, body) ensures SafeLockstep(W, body, b, obs) {
      SubstSafely(W, body, obs, w, v);
    }
  }

  lemma TypedKeepingZeros(W: World, body: Body)
    requires Typed(W, body)
    ensures Typed(KeepingZeros(W), body)
  {
    KeepingZerosKeeps(W);
    var W2 := KeepingZeros(W);
    assert OtherwiseSame(W, W2);
    forall v, ty ensures HasType(W2, body, v, ty) == HasType(W, body, v, ty) {
      SameOperands(W, W2, body.consts, v, FreshEnv());
    }
    hide HasType, SaneWorld, Fits, KeepingZeros;
    forall i | Attached(body, i) ensures WellTyped(W2, body, i) {
      assert WellTyped(W, body, i);
      WellTypedAlike(W, W2, body, i);
    }
  }

  lemma WellTypedAlike(W: World, W2: World, body: Body, i: InstId)
    requires OtherwiseSame(W, W2) && i in body.insts && WellTyped(W, body, i)
    requires forall v, ty :: HasType(W2, body, v, ty) == HasType(W, body, v, ty)
    ensures WellTyped(W2, body, i)
  {
    hide HasType, Fits;
    var ty := body.insts[i].ty;
    match body.insts[i].kind {
      case ICmp(_, lhs, rhs) =>
        var t :| SameScalar(W, body, lhs, rhs, t);
        assert SameScalar(W2, body, lhs, rhs, t);
      case Trunc(v) =>
        var n: nat :| ty.bits <= n && IsInt(W, body, v, n);
        assert IsInt(W2, body, v, n);
      case Zext(v) =>
        var n: nat :| n <= ty.bits && IsInt(W, body, v, n);
        assert IsInt(W2, body, v, n);
      case Sext(v) =>
        var n: nat :| n <= ty.bits && IsInt(W, body, v, n);
        assert IsInt(W2, body, v, n);
      case _ =>
    }
  }

  /** In the world that keeps zeros the exchange changes no run; and a safe run is the same in both
      worlds, before the exchange and after it. */
  lemma SubstSafely(W: World, body: Body, obs: set<InstId>, w: InstId, v: ValueId)
    requires SSA(body) && Typed(W, body)
    requires forall V :: Typed(V, body) && ZeroKept(V) ==> AgreesIn(V, body, w, v)
    ensures SafeLockstep(W, body, SubstituteAll(body, InstValue(w), v), obs)
  {
    hide SSA, AgreesIn, Typed, ZeroKept, Execute, Alike, KeepingZeros, AllSafe;
    var b, W2 := SubstituteAll(body, InstValue(w), v), KeepingZeros(W);
    TypedKeepingZeros(W, body);
    KeepingZerosKeeps(W);
    AlikeSymmetric(W, W2);
    forall mem, n: nat | ZeroSafe(W, body, mem, n)
      ensures SameSoFar(Execute(W, body, obs, mem, n), Execute(W, b, obs, mem, n))
    {
      SubstRuns(W2, body, obs, w, v, mem, n);
      SubstRuns(W2, body, body.insts.Keys, w, v, mem, n);
      SafeRunAlike(W, W2, body, obs, mem, n);
      SafeRunAlike(W, W2, body, body.insts.Keys, mem, n);
      assert b.insts.Keys == body.insts.Keys;
      assert ZeroSafe(W2, b, mem, n);
      SafeRunAlike(W2, W, b, obs, mem, n);
    }
  }

  // ---------------------------------------------------------------- typed programs can be folded

  lemma TypedConst(W: World, body: Body, v: ValueId, w: nat)
    requires HasType(W, body, v, IntType(w)) && NotUndef(body.consts, v) && AsIntConst(body.consts, v).Some?
    ensures AsIntConst(body.consts, v).value.Valid() && AsIntConst(body.consts, v).value.width == w
  {
    ConstMeans(W, body.consts, v, FreshEnv(), w);
  }

  lemma TypedMatching(W: World, body: Body, lhs: ValueId, rhs: ValueId, ty: Type)
    requires SameScalar(W, body, lhs, rhs, ty) && NotUndef(body.consts, lhs) && NotUndef(body.consts, rhs)
    ensures Matching(body.consts, lhs, rhs)
  {
    hide HasType, AsIntConst;
    if AsIntConst(body.consts, lhs).Some? && AsIntConst(body.consts, rhs).Some? {
      if ty.IntType? {
        TypedConst(W, body, lhs, ty.bits);
        TypedConst(W, body, rhs, ty.bits);
      } else {
        TypedNull(W, body, lhs);
        TypedNull(W, body, rhs);
      }
    }
  }

  lemma TypedNull(W: World, body: Body, v: ValueId)
    requires HasType(W, body, v, PtrType) && NotUndef(body.consts, v) && AsIntConst(body.consts, v).Some?
    ensures AsIntConst(body.consts, v) == Some(New(0, 32))
  {
    NullMeans(W, body.consts, v, FreshEnv());
  }

  /** The operands an instruction evaluates are defined. */
  lemma ArgsDefined(body: Body, i: InstId, v: ValueId)
    requires NoUndef(body) && Attached(body, i) && !body.insts[i].kind.Phi? && v in Args(body.insts[i].kind)
    ensures NotUndef(body.consts, v)
  {
    hide ValueOperands, Args;
    ArgsAreOperands(body.insts[i].kind, v);
    var s :| s in ValueOperands(body.insts[i].kind) && ValueOperands(body.insts[i].kind)[s] == v;
  }

  lemma PhiValuesDefined(body: Body, i: InstId, k: nat)
    requires NoUndef(body) && Attached(body, i) && body.insts[i].kind.Phi? && k in body.insts[i].kind.incomings
    ensures NotUndef(body.consts, body.insts[i].kind.incomings[k].value)
  {
    EntrySlots(body.insts[i].kind, k);
    hide ValueOperands;
  }

  lemma TypedFoldable(W: World, body: Body, i: InstId)
    requires NoUndef(body) && Attached(body, i) && WellTyped(W, body, i)
    ensures Foldable(body.consts, body.insts[i])
  {
    hide NoUndef, HasType, Fits, AsIntConst, NotUndef, Matching;
    var kind, ty := body.insts[i].kind, body.insts[i].ty;
    forall v | v in Args(kind) ensures NotUndef(body.consts, v) {
      ArgsDefined(body, i, v);
    }
    match kind {
      case Binary(_, lhs, rhs) =>
        assert lhs in Args(kind) && rhs in Args(kind);
        TypedMatching(W, body, lhs, rhs, ty);
      case ICmp(_, lhs, rhs) =>
        assert lhs in Args(kind) && rhs in Args(kind);
        var t :| SameScalar(W, body, lhs, rhs, t);
        TypedMatching(W, body, lhs, rhs, t);
      case Trunc(v) =>
        assert v in Args(kind);
        var n: nat :| ty.bits <= n && IsInt(W, body, v, n);
        CastFoldable(W, body, v, n);
      case Zext(v) =>
        assert v in Args(kind);
        var n: nat :| n <= ty.bits && IsInt(W, body, v, n);
        CastFoldable(W, body, v, n);
      case Sext(v) =>
        assert v in Args(kind);
        var n: nat :| n <= ty.bits && IsInt(W, body, v, n);
        CastFoldable(W, body, v, n);
      case _ =>
    }
  }

  lemma CastFoldable(W: World, body: Body, v: ValueId, n: nat)
    requires HasType(W, body, v, IntType(n)) && NotUndef(body.consts, v)
    ensures AsIntConst(body.consts, v).Some? ==> AsIntConst(body.consts, v).value.Valid()
  {
    if AsIntConst(body.consts, v).Some? {
      TypedConst(W, body, v, n);
    }
  }

  // ---------------------------------------------------------------- simplified instructions equal their replacements

  /** In every environment a run can have where the instruction's operands have their values, the
      outcome has the value the instruction computes. */
  lemma InstDenotes(W: World, body: Body, i: InstId, b: BlockId, k: int, env: Env)
    requires Typed(W, body) && ZeroKept(W) && NoUndef(body) && EnvTyped(body, b, k, env) && Attached(body, i)
    requires IsPure(body.insts[i].kind)
    requires ArgsAvailable(body, i, b, k) && Foldable(body.consts, body.insts[i])
    ensures var r := SimplifyInst(body.consts, body.insts[i]);
      r.Some? ==>
        OutcomeValue(W, body.consts, r.value, env)
        == Apply(W, OperatorOf(i, body.insts[i]), ArgVals(W, body, i, env))
  {
    hide EnvTyped, Before, NoUndef, HasType, Binop, Cmp, Cast, Truthy, Fits, Pow2, Low, OutcomeValue, SimplifyBinary,
      SimplifyICmp, SimplifyCast, SimplifySelect, SimplifyPtrToInt, Value, Matching, AsIntConst, NotUndef;
    var consts, kind, ty := body.consts, body.insts[i].kind, body.insts[i].ty;
    assert WellTyped(W, body, i) && SaneWorld(W);
    hide SaneWorld;
    forall v | v in Args(kind) ensures NotUndef(consts, v) {
      ArgsDefined(body, i, v);
    }
    match kind {
      case Binary(op, lhs, rhs) =>
        assert lhs in Args(kind) && rhs in Args(kind);
        OperandFits(W, body, lhs, ty, b, k, env);
        OperandFits(W, body, rhs, ty, b, k, env);
        hide KeepsZero;
        BinaryDenotesHere(W, consts, op, lhs, rhs, ty.bits, env);
      case ICmp(code, lhs, rhs) =>
        assert lhs in Args(kind) && rhs in Args(kind);
        var t :| SameScalar(W, body, lhs, rhs, t);
        OperandFits(W, body, lhs, t, b, k, env);
        OperandFits(W, body, rhs, t, b, k, env);
        ICmpDenotes(W, consts, code, lhs, rhs, t, env);
      case Select(c, t, e) =>
        assert c in Args(kind);
        OperandFits(W, body, c, IntType(1), b, k, env);
        SelectDenotes(W, consts, c, t, e, env);
      case PtrToInt(p) =>
        PtrToIntDenotes(W, consts, p, ty, env);
      case Trunc(v) =>
        assert v in Args(kind);
        var n: nat :| ty.bits <= n && IsInt(W, body, v, n);
        OperandFits(W, body, v, IntType(n), b, k, env);
        CastDenotes(W, consts, kind, ty.bits, n, env);
      case Zext(v) =>
        assert v in Args(kind);
        var n: nat :| n <= ty.bits && IsInt(W, body, v, n);
        OperandFits(W, body, v, IntType(n), b, k, env);
        CastDenotes(W, consts, kind, ty.bits, n, env);
      case Sext(v) =>
        assert v in Args(kind);
        var n: nat :| n <= ty.bits && IsInt(W, body, v, n);
        OperandFits(W, body, v, IntType(n), b, k, env);
        CastDenotes(W, consts, kind, ty.bits, n, env);
      case _ =>
    }
  }

  lemma BinaryDenotesHere(W: World, consts: seq<ConstData>, op: BinaryOpcode, lhs: ValueId, rhs: ValueId, w: nat,
                          env: Env)
    requires ZeroKept(W) && Fits(Value(W, consts, lhs, env), IntType(w)) && Fits(Value(W, consts, rhs, env), IntType(w))
    requires NotUndef(consts, lhs) && NotUndef(consts, rhs) && Matching(consts, lhs, rhs)
    ensures var r := SimplifyBinary(consts, op, lhs, rhs, IntType(w));
      r.Some? ==>
        OutcomeValue(W, consts, r.value, env)
        == Binop(W, op, Value(W, consts, lhs, env), Value(W, consts, rhs, env))
  {
    hide KeepsZero, SimplifyBinary, OutcomeValue, Binop, Matching, NotUndef;
    assert KeepsZero(W, op, Value(W, consts, lhs, env).c, Value(W, consts, rhs, env).c);
    BinaryDenotes(W, consts, op, lhs, rhs, w, env);
  }

  /** v is what the outcome stands for. */
  predicate Stands(consts: seq<ConstData>, o: Outcome, v: ValueId) {
    match o
    case Existing(x) => v == x
    case Fresh(data) => v.ConstValue? && v.id < |consts| && consts[v.id] == data
  }

  lemma StandsValue(W: World, consts: seq<ConstData>, o: Outcome, v: ValueId, env: Env)
    requires Stands(consts, o, v) && (o.Fresh? ==> o.data.IntConst?)
    ensures Value(W, consts, v, env) == OutcomeValue(W, consts, o, env)
  {
  }

  lemma OutcomeIsOperand(consts: seq<ConstData>, d: InstData)
    requires Foldable(consts, d) && !d.kind.Phi?
    ensures var r := SimplifyInst(consts, d);
      r.Some? ==> (r.value.Existing? && r.value.v in Args(d.kind)) || (r.value.Fresh? && r.value.data.IntConst?)
  {
    hide AsIntConst, Fold, Compare, Pow2, Low, New, Matching;
  }

  lemma OutcomeSimple(consts: seq<ConstData>, d: InstData)
    requires Foldable(consts, d) && SimplifyInst(consts, d).Some?
    ensures Droppable(d.kind) && (d.kind.Phi? || IsPure(d.kind)) && (d.kind.Phi? ==> Uniform(d.kind))
  {
    hide SimplifyBinary, SimplifyICmp, SimplifySelect, SimplifyCast, SimplifyPtrToInt, Foldable;
  }

  /** A simplified instruction and its replacement are interchangeable in every typed world. */
  lemma PureAgrees(W: World, body: Body, w: InstId, o: Outcome, v: ValueId)
    requires SSA(body) && Typed(W, body) && ZeroKept(W) && NoUndef(body) && Attached(body, w)
    requires IsPure(body.insts[w].kind)
    requires Reachable(body, body.insts[w].parent.value) && Foldable(body.consts, body.insts[w])
    requires SimplifyInst(body.consts, body.insts[w]) == Some(o) && Stands(body.consts, o, v)
    requires Follows(body, w, v)
    ensures AgreesIn(W, body, w, v)
  {
    assert !body.insts[w].kind.Phi?;
    hide SSA, Typed, ZeroKept, NoUndef, Reachable, Before, Follows, Foldable, SimplifyInst, Apply, Holds, EnvTyped,
      OperatorOf, Args;
    OutcomeIsOperand(body.consts, body.insts[w]);
    forall b, k: nat, env: Env | Reachable(body, b) && Before(body, w, b, k) && KnownAt(W, body, b, k, env)
      ensures env[w] == Value(W, body.consts, v, env)
    {
      assert IsEquation(body, w) && Holds(W, body, w, env);
      PureArgsAvailable(body, w, b, k);
      InstDenotes(W, body, w, b, k, env);
      StandsValue(W, body.consts, o, v, env);
      PureHolds(W, body, w, env);
    }
  }

  lemma PureHolds(W: World, body: Body, w: InstId, env: Env)
    requires w in body.insts && IsPure(body.insts[w].kind) && Holds(W, body, w, env)
    ensures env[w] == Apply(W, OperatorOf(w, body.insts[w]), ArgVals(W, body, w, env))
  {
    hide Apply;
  }

  lemma PureArgsAvailable(body: Body, w: InstId, b: BlockId, k: nat)
    requires SSA(body) && Attached(body, w) && IsPure(body.insts[w].kind) && Reachable(body, b) && Before(body, w, b, k)
    ensures ArgsAvailable(body, w, b, k)
  {
    hide SSA, Reachable, Before, Args;
    forall x | x in Args(body.insts[w].kind) ensures Available(body, x, b, k) {
      if x.InstValue? {
        assert Mentions(body.insts[w].kind, x) by { PureMentions(body.insts[w].kind, x); }
        MentionedBefore(body, w, x.inst, b, k);
      }
    }
  }

  lemma PureMentions(kind: InstKind, x: ValueId)
    requires IsPure(kind) && x in Args(kind)
    ensures Mentions(kind, x)
  {
  }

  lemma PureFollows(body: Body, w: InstId, v: ValueId)
    requires SSA(body) && Attached(body, w) && IsPure(body.insts[w].kind) && Reachable(body, body.insts[w].parent.value)
    requires v.ConstValue? || v in Args(body.insts[w].kind)
    ensures Follows(body, w, v)
  {
    SsaPlaced(body);
    WellHeldIn(body, w);
    var k := PositionOf(body, w);
    hide SSA, Reachable, Before, Args, WellPlaced;
    if v.InstValue? {
      PureMentions(body.insts[w].kind, v);
      if k >= 0 {
        SelfMention(body, body.insts[w].parent.value, k, w);
      }
      forall b, j: nat | Reachable(body, b) && Before(body, w, b, j) ensures Available(body, v, b, j) {
        MentionedBefore(body, w, v.inst, b, j);
      }
    }
  }

  // ---------------------------------------------------------------- types of replacements

  /** A replacement has the type of what it replaces. */
  ghost predicate OutcomeTyped(W: World, body: Body, o: Outcome, ty: Type) {
    match o
    case Existing(v) => HasType(W, body, v, ty)
    case Fresh(data) => data.IntConst? && Fits(IntVal(data.c), ty)
  }

  lemma ReplacementTyped(W: World, body: Body, i: InstId)
    requires NoUndef(body) && Attached(body, i) && WellTyped(W, body, i) && Foldable(body.consts, body.insts[i])
    ensures var r := SimplifyInst(body.consts, body.insts[i]); r.Some? ==>
      OutcomeTyped(W, body, r.value, body.insts[i].ty)
  {
    hide NoUndef, HasType, AsIntConst, NotUndef, Fold, Compare, Pow2, Low, IsZeroConst, IsOneConst, IsAllOnesConst,
      AgreedValue;
    var kind, ty := body.insts[i].kind, body.insts[i].ty;
    if !kind.Phi? {
      forall v | v in Args(kind) ensures NotUndef(body.consts, v) {
        ArgsDefined(body, i, v);
      }
    }
    match kind {
      case Binary(op, lhs, rhs) =>
        assert lhs in Args(kind) && rhs in Args(kind);
        if AsIntConst(body.consts, lhs).Some? {
          TypedConst(W, body, lhs, ty.bits);
        }
        BinaryTyped(W, body, op, lhs, rhs, ty);
      case Trunc(v) =>
        assert v in Args(kind);
        var n: nat :| ty.bits <= n && IsInt(W, body, v, n);
        CastTyped(W, body, kind, n, ty.bits);
      case Zext(v) =>
        assert v in Args(kind);
        var n: nat :| n <= ty.bits && IsInt(W, body, v, n);
        CastTyped(W, body, kind, n, ty.bits);
      case Sext(v) =>
        assert v in Args(kind);
        var n: nat :| n <= ty.bits && IsInt(W, body, v, n);
        CastTyped(W, body, kind, n, ty.bits);
      case _ =>
    }
  }

  lemma BinaryTyped(W: World, body: Body, op: BinaryOpcode, lhs: ValueId, rhs: ValueId, ty: Type)
    requires ty.IntType? && IsInt(W, body, lhs, ty.bits) && IsInt(W, body, rhs, ty.bits)
    requires Matching(body.consts, lhs, rhs)
    requires AsIntConst(body.consts, lhs).Some? ==> AsIntConst(body.consts, lhs).value.width == ty.bits
    ensures var r := SimplifyBinary(body.consts, op, lhs, rhs, ty); r.Some? ==> OutcomeTyped(W, body, r.value, ty)
  {
    hide HasType, AsIntConst, Fold, Pow2, Low, IsZeroConst, IsOneConst, IsAllOnesConst;
  }

  lemma CastTyped(W: World, body: Body, kind: InstKind, n: nat, w: nat)
    requires (kind.Trunc? || kind.Zext? || kind.Sext?) && IsInt(W, body, kind.value, n)
    requires NotUndef(body.consts, kind.value)
    requires CastReady(body.consts, kind.value, IntType(w)) && if kind.Trunc? then w <= n else n <= w
    ensures var r := SimplifyCast(body.consts, kind, IntType(w)); r.Some? ==> OutcomeTyped(W, body, r.value, IntType(w))
  {
    hide HasType, AsIntConst, Pow2, Low;
    if AsIntConst(body.consts, kind.value).Some? {
      TypedConst(W, body, kind.value, n);
    }
  }

  // ---------------------------------------------------------------- a new constant changes no other simplification

  lemma GrownConst(consts: seq<ConstData>, data: ConstData, v: ValueId)
    requires v.ConstValue? ==> v.id < |consts|
    ensures AsIntConst(consts + [data], v) == AsIntConst(consts, v)
    ensures IsZeroConst(consts + [data], v) == IsZeroConst(consts, v)
    ensures IsOneConst(consts + [data], v) == IsOneConst(consts, v)
    ensures forall ty :: IsAllOnesConst(consts + [data], v, ty) == IsAllOnesConst(consts, v, ty)
    ensures forall ty :: SimplifyPtrToInt(consts + [data], v, ty) == SimplifyPtrToInt(consts, v, ty)
  {
    hide Bitwise;
  }

  lemma GrownSimplify(body: Body, data: ConstData, i: InstId)
    requires WellPlaced(body) && Attached(body, i)
    ensures Foldable(Grown(body, data).consts, body.insts[i]) == Foldable(body.consts, body.insts[i])
    ensures Foldable(body.consts, body.insts[i]) ==>
      SimplifyInst(Grown(body, data).consts, body.insts[i]) == SimplifyInst(body.consts, body.insts[i])
  {
    hide WellPlaced, AsIntConst, IsZeroConst, IsOneConst, IsAllOnesConst, Fold, Compare, SimplifyPtrToInt,
      ValueOperands, MakeConst;
    var kind := body.insts[i].kind;
    if !kind.Phi? {
      forall v | v in Args(kind) ensures v.ConstValue? ==> v.id < |body.consts| {
        ArgsAreOperands(kind, v);
        var s :| s in ValueOperands(kind) && ValueOperands(kind)[s] == v;
        OperandKnown(body, i, s);
      }
      GrownArgs(body.consts, data, body.insts[i]);
    }
  }

  lemma GrownArgs(consts: seq<ConstData>, data: ConstData, d: InstData)
    requires !d.kind.Phi? && forall v :: v in Args(d.kind) && v.ConstValue? ==> v.id < |consts|
    ensures Foldable(consts + [data], d) == Foldable(consts, d)
    ensures Foldable(consts, d) ==> SimplifyInst(consts + [data], d) == SimplifyInst(consts, d)
  {
    hide AsIntConst, IsZeroConst, IsOneConst, IsAllOnesConst, Fold, Compare, SimplifyPtrToInt, MakeConst;
    forall v | v in Args(d.kind)
      ensures AsIntConst(consts + [data], v) == AsIntConst(consts, v)
      ensures IsZeroConst(consts + [data], v) == IsZeroConst(consts, v)
      ensures IsOneConst(consts + [data], v) == IsOneConst(consts, v)
      ensures forall ty :: IsAllOnesConst(consts + [data], v, ty) == IsAllOnesConst(consts, v, ty)
      ensures forall ty :: SimplifyPtrToInt(consts + [data], v, ty) == SimplifyPtrToInt(consts, v, ty)
    {
      GrownConst(consts, data, v);
    }
    match d.kind {
      case Binary(op, lhs, rhs) => assert lhs in Args(d.kind) && rhs in Args(d.kind);
      case ICmp(_, lhs, rhs) => assert lhs in Args(d.kind) && rhs in Args(d.kind);
      case Select(c, _, _) => assert c in Args(d.kind);
      case PtrToInt(p) => assert p in Args(d.kind);
      case Trunc(v) => assert v in Args(d.kind);
      case Zext(v) => assert v in Args(d.kind);
      case Sext(v) => assert v in Args(d.kind);
      case _ =>
    }
  }

  // ---------------------------------------------------------------- the pass

  /** The instruction cannot be simplified. */
  ghost predicate Final(body: Body, i: InstId) {
    i in body.insts && Foldable(body.consts, body.insts[i]) && SimplifyInst(body.consts, body.insts[i]).None?
  }

  /** The body a replacement is made in: with the new constant, if there is one. */
  ghost function Prepared(body: Body, o: Outcome): Body {
    if o.Fresh? then Grown(body, o.data) else body
  }

  function Replacement(consts: seq<ConstData>, o: Outcome): ValueId {
    if o.Fresh? then ConstValue(|consts|) else o.v
  }

  lemma PreparedSame(body: Body, o: Outcome, i: InstId)
    requires WellPlaced(body) && Attached(body, i) && Foldable(body.consts, body.insts[i])
    ensures var next := Prepared(body, o);
      next.insts == body.insts && Foldable(next.consts, next.insts[i])
        && SimplifyInst(next.consts, next.insts[i]) == SimplifyInst(body.consts, body.insts[i])
    ensures Stands(Prepared(body, o).consts, o, Replacement(body.consts, o))
  {
    hide Foldable, SimplifyInst, WellPlaced;
    if o.Fresh? {
      GrownSimplify(body, o.data, i);
    }
  }

  lemma PreparedSound(body: Body, o: Outcome)
    requires SSA(body) && WellPlaced(Prepared(body, o))
    ensures Sound(body, Prepared(body, o), {})
  {
    hide SSA, WellPlaced, Sound;
    if o.Fresh? {
      GrownSound(body, o.data);
    } else {
      SoundReflexive(body);
    }
  }

  lemma ReplacementKnown(body: Body, i: InstId, o: Outcome)
    requires WellPlaced(body) && NoUndef(body) && Attached(body, i) && Foldable(body.consts, body.insts[i])
    requires SimplifyInst(body.consts, body.insts[i]) == Some(o)
    ensures Knows(Prepared(body, o), Replacement(body.consts, o))
    ensures NotUndef(Prepared(body, o).consts, Replacement(body.consts, o))
    ensures o.Existing? && !body.insts[i].kind.Phi? ==> o.v in Args(body.insts[i].kind)
    ensures o.Fresh? ==> o.data.IntConst? && !body.insts[i].kind.Phi?
  {
    hide Foldable, ValueOperands, WellPlaced, NoUndef;
    var kind := body.insts[i].kind;
    if kind.Phi? {
      assert Uniform(kind);
      var k: nat :| k in kind.incomings;
      assert kind.incomings[k].value == o.v;
      EntrySlots(kind, k);
      OperandKnown(body, i, PhiIncomingVal(k));
      PhiValuesDefined(body, i, k);
    } else {
      OutcomeIsOperand(body.consts, body.insts[i]);
      hide SimplifyInst;
      if o.Existing? {
        ArgsDefined(body, i, o.v);
        ArgsAreOperands(kind, o.v);
        var s :| s in ValueOperands(kind) && ValueOperands(kind)[s] == o.v;
        OperandKnown(body, i, s);
      }
    }
  }

  lemma ReplacementFollows(body: Body, i: InstId, o: Outcome, v: ValueId)
    requires SSA(body) && Attached(body, i) && Reachable(body, body.insts[i].parent.value)
    requires Foldable(body.consts, body.insts[i]) && SimplifyInst(body.consts, body.insts[i]) == Some(o)
    requires if o.Fresh? then v.ConstValue? && !body.insts[i].kind.Phi?
      else v == o.v && (!body.insts[i].kind.Phi? ==> v in Args(body.insts[i].kind))
    ensures Follows(body, i, v) && (body.insts[i].kind.Phi? ==> Interchangeable(body, i, v))
  {
    hide SSA, Reachable, Foldable, Args, Before, EquationsHold;
    var kind := body.insts[i].kind;
    OutcomeSimple(body.consts, body.insts[i]);
    if kind.Phi? {
      var k: nat :| k in kind.incomings;
      assert kind.incomings[k].value == v;
      UniformInterchangeable(body, i, v);
    } else {
      PureFollows(body, i, v);
    }
  }

  /** Exchanging a simplified instruction for its replacement is sound. */
  lemma ReplaceSound(body: Body, i: InstId, o: Outcome)
    requires SSA(body) && WellPlaced(Prepared(body, o)) && AllReachable(body) && NoUndef(body) && Attached(body, i)
    requires Foldable(body.consts, body.insts[i]) && SimplifyInst(body.consts, body.insts[i]) == Some(o)
    ensures var next, v := Prepared(body, o), Replacement(body.consts, o);
      Sound(body, next, {}) && Sound(next, SubstituteAll(next, InstValue(i), v), {}) && v != InstValue(i)
        && Knows(next, v)
  {
    var next, v := Prepared(body, o), Replacement(body.consts, o);
    hide Foldable, SimplifyInst, Prepared, WellPlaced, Reachable, Typed, ZeroKept, HasType;
    SsaPlaced(body);
    WellHeldIn(body, i);
    PreparedSound(body, o);
    PreparedSame(body, o, i);
    ReplacementKnown(body, i, o);
    assert Reachable(next, next.insts[i].parent.value) by { SoundReachable(body, next, {}); }
    assert SSA(next) && NoUndef(next);
    hide SSA, NoUndef, SafeLockstep;
    ReplacementFollows(next, i, o, v);
    forall W | Typed(W, next) ensures HasType(W, next, v, next.insts[i].ty) {
      StandsTyped(W, next, i, o, v);
    }
    forall W | Typed(W, next) && ZeroKept(W) ensures AgreesIn(W, next, i, v) {
      ReplacementAgrees(W, next, i, o, v);
    }
    SubstSound(next, i, v);
    assert v != InstValue(i) by { hide AgreesIn; }
  }

  lemma StandsTyped(W: World, next: Body, i: InstId, o: Outcome, v: ValueId)
    requires Typed(W, next) && NoUndef(next) && Attached(next, i) && Foldable(next.consts, next.insts[i])
    requires SimplifyInst(next.consts, next.insts[i]) == Some(o)
    requires Stands(next.consts, o, v)
    ensures HasType(W, next, v, next.insts[i].ty)
  {
    hide Foldable, SimplifyInst, NoUndef, WellTyped, SaneWorld;
    assert WellTyped(W, next, i);
    ReplacementTyped(W, next, i);
  }

  lemma ReplacementAgrees(W: World, next: Body, i: InstId, o: Outcome, v: ValueId)
    requires SSA(next) && Typed(W, next) && ZeroKept(W) && NoUndef(next) && Attached(next, i)
    requires Reachable(next, next.insts[i].parent.value)
    requires Foldable(next.consts, next.insts[i]) && SimplifyInst(next.consts, next.insts[i]) == Some(o)
    requires Stands(next.consts, o, v)
    requires Follows(next, i, v) && (next.insts[i].kind.Phi? ==> Interchangeable(next, i, v))
    ensures AgreesIn(W, next, i, v)
  {
    OutcomeSimple(next.consts, next.insts[i]);
    hide Foldable, SimplifyInst, NoUndef, Typed, ZeroKept, SSA, Reachable, Follows, Interchangeable, AgreesIn;
    if next.insts[i].kind.Phi? {
      InterchangeableAgrees(W, next, i, v);
    } else {
      PureAgrees(W, next, i, o, v);
    }
  }

  // ---------------------------------------------------------------- what stays final

  lemma FinalGrown(body: Body, o: Outcome, j: InstId)
    requires WellPlaced(body) && Attached(body, j) && Final(body, j)
    ensures Final(Prepared(body, o), j)
  {
    hide Foldable, SimplifyInst, WellPlaced;
    PreparedSame(body, o, j);
  }

  /** An instruction that does not use the replacement afterwards did not use the instruction before. */
  lemma NotAUser(body: Body, w: InstId, v: ValueId, j: InstId)
    requires Attached(body, j)
    requires forall s :: Use(j, s) in Registry(SubstituteAll(body, InstValue(w), v)) ==>
      Registry(SubstituteAll(body, InstValue(w), v))[Use(j, s)] != v
    ensures SubstituteAll(body, InstValue(w), v).insts[j] == body.insts[j]
  {
    var b := SubstituteAll(body, InstValue(w), v);
    var kind := body.insts[j].kind;
    hide ValueOperands, BlockOperands, Skeleton, Subst;
    SubstExact(kind, InstValue(w), v);
    forall s | s in ValueOperands(kind) ensures ValueOperands(b.insts[j].kind)[s] == ValueOperands(kind)[s] {
      assert Use(j, s) in Registry(b);
    }
    assert ValueOperands(b.insts[j].kind) == ValueOperands(kind);
    KindDetermined(b.insts[j].kind, kind);
  }

  lemma ErasedFinal(body: Body, i: InstId, j: InstId)
    requires WellPlaced(body) && Attached(body, i) && Final(body, j) && j != i
    ensures Final(Erase(body, i), j)
  {
    hide Foldable, SimplifyInst, WellPlaced, Erase;
    EraseShape(body, i);
  }

  /** Adds the constant a simplification needs. */
  method TrySimplifyInst(m: ModuleCore, i: InstId) returns (r: Option<ValueId>, ghost o: Option<Outcome>)
    requires m.Valid() && i in m.insts && Foldable(m.consts, m.insts[i])
    modifies m`consts, m`valueUses
    ensures m.Valid() && o == SimplifyInst(old(m.consts), old(m.insts)[i])
    ensures r == if o.Some? then Some(Replacement(old(m.consts), o.value)) else None
    ensures m.Now() == if o.Some? then Prepared(old(m.Now()), o.value) else old(m.Now())
  {
    hide Foldable, SimplifyInst;
    var found := SimplifyInst(m.consts, m.insts[i]);
    o := found;
    r := None;
    if found.Some? {
      match found.value {
        case Existing(v) => r := Some(v);
        case Fresh(data) =>
          var c := m.AddConst(data);
          r := Some(c);
      }
    }
  }

  function Users(uses: seq<Use<OperandSlot>>): (r: seq<InstId>)
    ensures forall u :: u in uses ==> u.user in r
  {
    if uses == [] then [] else [uses[0].user] + Users(uses[1..])
  }

  lemma KnownAfter(body: Body, from: ValueId, to: ValueId, x: ValueId)
    requires Knows(body, x)
    ensures Knows(SubstituteAll(body, from, to), x)
  {
  }

  lemma SubstDroppable(kind: InstKind, from: ValueId, to: ValueId)
    ensures Droppable(Subst(kind, from, to)) == Droppable(kind)
  {
  }

  lemma SoundSSA(a: Body, b: Body, gone: set<InstId>)
    requires Sound(a, b, gone)
    ensures SSA(b) && WellPlaced(b) && b.insts.Keys == a.insts.Keys - gone
  {
    hide WellPlaced, SafeLockstep, Typed, SameEdges;
  }

  lemma StillFinal(before: Body, mid: Body, i: InstId, v: ValueId, j: InstId, uses: seq<Use<OperandSlot>>)
    requires mid == SubstituteAll(before, InstValue(i), v) && WellPlaced(mid) && Attached(mid, i) && Attached(before, j)
    requires j != i && Final(before, j)
    requires (forall u :: u in uses <==> u in Registry(mid) && Registry(mid)[u] == v) && j !in Users(uses)
    ensures Final(Erase(mid, i), j)
  {
    hide WellPlaced, Registry, Foldable, SimplifyInst, Erase, Users;
    assert forall s :: Use(j, s) in uses ==> j in Users(uses);
    NotAUser(before, i, v, j);
    assert Final(mid, j);
    ErasedFinal(mid, i, j);
  }

  /** One success: every use of the instruction becomes a use of the replacement, and the instruction,
      now without uses, is erased. The replacement's users are to be looked at again. */
  method ReplaceAndErase(m: ModuleCore, i: InstId, v: ValueId) returns (again: seq<InstId>)
    requires m.Valid() && SSA(m.Now()) && Attached(m.Now(), i) && Droppable(m.insts[i].kind) && Knows(m.Now(), v)
    requires v != InstValue(i)
    requires Sound(m.Now(), SubstituteAll(m.Now(), InstValue(i), v), {})
    modifies m
    ensures m.Valid() && Sound(old(m.Now()), m.Now(), {i})
    ensures forall j :: j in m.insts && j !in again && Attached(old(m.Now()), j) && Final(old(m.Now()), j) ==>
      Final(m.Now(), j)
  {
    hide WellPlaced, Exact, Registry, BlockRegistry, SSA, Sound, Subst, Erase, Final, Droppable, Users;
    ghost var before := m.Now();
    KnownAfter(before, InstValue(i), v, v);
    m.ReplaceAllUsesWith(InstValue(i), v);
    ghost var mid := m.Now();
    UsesAreRegistered(mid, m.valueUses, m.blockUses, v);
    var uses := m.valueUses[v];
    again := Users(uses);
    SubstDroppable(before.insts[i].kind, InstValue(i), v);
    NoUsesNoReferences(mid, m.valueUses, InstValue(i));
    SoundSSA(before, mid, {});
    ErasedSound(mid, i);
    if m.valueUses[InstValue(i)] == [] {
      m.EraseInstFromParent(i);
    }
    SoundTransitive(before, mid, m.Now(), {}, {i});
    assert {} + {i} == {i};
    SoundSSA(mid, m.Now(), {i});
    forall j | j in m.insts && j !in again && Attached(before, j) && Final(before, j) ensures Final(m.Now(), j) {
      StillFinal(before, mid, i, v, j, uses);
    }
  }

  /** Whatever is not listed stays as final as it was. */
  ghost predicate StaysFinal(a: Body, b: Body, again: seq<InstId>) {
    forall j :: j in b.insts && j !in again && Attached(a, j) && Final(a, j) ==> Final(b, j)
  }

  /** One round: simplifies the instruction if it can be. */
  method SimplifyAt(m: ModuleCore, i: InstId, ghost W: World) returns (again: Option<seq<InstId>>)
    requires m.Valid() && SSA(m.Now()) && AllReachable(m.Now()) && NoUndef(m.Now()) && Typed(W, m.Now())
    requires Attached(m.Now(), i)
    modifies m
    ensures m.Valid()
    ensures again.None? ==> m.Now() == old(m.Now()) && Final(m.Now(), i)
    ensures again.Some? ==> Sound(old(m.Now()), m.Now(), {i}) && StaysFinal(old(m.Now()), m.Now(), again.value)
  {
    hide WellPlaced, Exact, Registry, BlockRegistry, SSA, Sound, Foldable, SimplifyInst, Droppable, Reachable, NoUndef,
      Typed, Knows, Prepared, Replacement;
    ghost var before := m.Now();
    FoldableHere(W, before, i);
    var r, o := TrySimplifyInst(m, i);
    again := None;
    if r.Some? {
      ghost var next := m.Now();
      assert WellPlaced(next);
      ReplaceSound(before, i, o.value);
      OutcomeSimple(before.consts, before.insts[i]);
      SoundSSA(before, next, {});
      SsaPlaced(before);
      PreparedInsts(before, o.value);
      forall j | Attached(before, j) && Final(before, j) ensures Final(next, j) {
        FinalGrown(before, o.value, j);
      }
      hide Final, SubstituteAll;
      var more := ReplaceAndErase(m, i, r.value);
      SoundTransitive(before, next, m.Now(), {}, {i});
      assert {} + {i} == {i};
      again := Some(more);
    }
  }

  lemma PreparedInsts(body: Body, o: Outcome)
    ensures Prepared(body, o).insts == body.insts
  {
  }

  lemma FoldableHere(W: World, body: Body, i: InstId)
    requires NoUndef(body) && Typed(W, body) && Attached(body, i)
    ensures Foldable(body.consts, body.insts[i])
  {
    hide NoUndef, WellTyped, SaneWorld, Foldable;
    TypedFoldable(W, body, i);
  }

  /** The worklist holds everything that might still be simplified. */
  ghost predicate Pending(body: Body, work: seq<InstId>) {
    forall j :: j in body.insts ==> j in work || Final(body, j)
  }

  /** The pass: terminates, since every success erases one instruction; when it ends nothing can be
      simplified; and in every world in which the function is well typed, the instructions that
      remain do exactly what they did in every run, as long as it divides no zero by zero and shifts
      no zero by its width or more. */
  method FuncAlgebraicSimplification(m: ModuleCore, ghost W: World) returns (ghost gone: set<InstId>)
    requires m.Valid() && SSA(m.Now()) && AllReachable(m.Now()) && AllAttached(m.Now()) && NoUndef(m.Now())
    requires Typed(W, m.Now())
    modifies m
    ensures m.Valid() && Sound(old(m.Now()), m.Now(), gone) && gone <= old(m.insts).Keys
    ensures forall i :: i in m.insts ==> Final(m.Now(), i)
  {
    hide WellPlaced, Exact, Registry, BlockRegistry, Consistent, SSA, Sound, Final, Pending, StaysFinal, AllReachable,
      AllAttached, NoUndef, Typed, Elements;
    ghost var start := m.Now();
    var work := SeqOf(m.insts.Keys);
    AllPending(start, work);
    gone := {};
    SoundReflexive(start);
    while work != []
      invariant m.Valid() && Sound(start, m.Now(), gone) && gone <= start.insts.Keys && Pending(m.Now(), work)
      decreases |m.insts.Keys|, |work|
    {
      var i := work[|work| - 1];
      assert work == work[..|work| - 1] + [i];
      work := work[..|work| - 1];
      ghost var now := m.Now();
      if i in m.insts {
        StateKept(W, start, now, gone);
        AttachedHere(now, i);
        var again := SimplifyAt(m, i, W);
        if again.Some? {
          PendingAfter(start, now, m.Now(), gone, i, work, again.value);
          gone := gone + {i};
          work := work + again.value;
        } else {
          PendingLess(now, work, i);
        }
      } else {
        PendingLess(now, work, i);
      }
    }
    NothingPending(m.Now());
  }

  lemma AllPending(body: Body, work: seq<InstId>)
    requires Elements(work) == body.insts.Keys
    ensures Pending(body, work)
  {
  }

  lemma NothingPending(body: Body)
    requires Pending(body, [])
    ensures forall i :: i in body.insts ==> Final(body, i)
  {
  }

  lemma AttachedHere(body: Body, i: InstId)
    requires AllAttached(body) && i in body.insts
    ensures Attached(body, i)
  {
  }

  lemma PendingLess(body: Body, work: seq<InstId>, i: InstId)
    requires Pending(body, work + [i]) && (i in body.insts ==> Final(body, i))
    ensures Pending(body, work)
  {
    hide Final;
  }

  lemma PendingAfter(start: Body, now: Body, next: Body, gone: set<InstId>, i: InstId, work: seq<InstId>,
                     again: seq<InstId>)
    requires Sound(start, now, gone) && gone <= start.insts.Keys && Sound(now, next, {i})
    requires StaysFinal(now, next, again) && AllAttached(now)
    requires Pending(now, work + [i]) && i in now.insts
    ensures Sound(start, next, gone + {i}) && gone + {i} <= start.insts.Keys && Pending(next, work + again)
    ensures |next.insts.Keys| < |now.insts.Keys|
  {
    hide Final, Sound;
    SoundTransitive(start, now, next, gone, {i});
    SoundSSA(now, next, {i});
    SoundSSA(start, now, gone);
    OneFewer(now.insts.Keys, i);
  }

  lemma OneFewer(keys: set<InstId>, i: InstId)
    requires i in keys
    ensures |keys - {i}| < |keys|
  {
    assert keys == (keys - {i}) + {i};
  }

  lemma StateKept(W: World, start: Body, now: Body, gone: set<InstId>)
    requires Sound(start, now, gone) && AllReachable(start) && AllAttached(start) && NoUndef(start) && Typed(W, start)
    ensures SSA(now) && AllReachable(now) && AllAttached(now) && NoUndef(now) && Typed(W, now)
  {
    SoundReachable(start, now, gone);
    hide SSA, SafeLockstep, Typed, NoUndef, AllReachable, AllAttached, SameEdges;
  }
}
