/** What a function body does when it runs: values, memory, and the trace of what chosen
    instructions computed, block by block. */
module Semantics {
  import opened CoreInts
  import opened Ir

  datatype Val = IntVal(c: CoreInt) | PtrVal(addr: int) | Unspecified

  type Env = m: imap<InstId, Val> | forall i: InstId :: i in m
    ghost witness imap i: InstId :: Unspecified

  type Memory = map<int, int>

  /** Everything outside the function: arguments, addresses, memory, callees, and the results the
      language leaves open. Theorems hold for every choice. */
  datatype World = World(
    arg: nat -> Val,
    global: nat -> Val,
    aggregate: nat -> Val,
    undef: Type -> Val,
    slot: nat -> Val,
    undefined: (BinaryOpcode, CoreInt, CoreInt) -> Val,
    pointerOrder: (ICmpCode, int, int) -> bool,
    gep: (Type, seq<Val>) -> Val,
    load: (Memory, Val, Type) -> Val,
    store: (Memory, Val, Val) -> Memory,
    callValue: (nat, seq<Val>, Memory) -> Val,
    callMemory: (nat, seq<Val>, Memory) -> Memory)

  /** An instruction without its operands. */
  datatype Operator =
    | BinOp(op: BinaryOpcode) | CmpOp(code: ICmpCode) | GepOp(baseTy: Type) | SelectOp | PtrToIntOp(ty: Type)
    | TruncOp(ty: Type) | ZextOp(ty: Type) | SextOp(ty: Type) | AllocaOp(slot: InstId)
    | LoadOp(ty: Type) | StoreOp | CallOp(func: nat) | RetOp | BranchOp | PhiOp | UnreachableOp

  function OperatorOf(i: InstId, d: InstData): Operator {
    match d.kind
    case Binary(op, _, _) => BinOp(op)
    case ICmp(code, _, _) => CmpOp(code)
    case GetElementPtr(ty, _, _) => GepOp(ty)
    case Select(_, _, _) => SelectOp
    case PtrToInt(_) => PtrToIntOp(d.ty)
    case Trunc(_) => TruncOp(d.ty)
    case Zext(_) => ZextOp(d.ty)
    case Sext(_) => SextOp(d.ty)
    case Alloca(_) => AllocaOp(i)
    case Load(_) => LoadOp(d.ty)
    case Store(_, _) => StoreOp
    case Call(func, _) => CallOp(func)
    case Ret(_) => RetOp
    case Branch(_, _) => BranchOp
    case Phi(_, _) => PhiOp
    case Unreachable => UnreachableOp
  }

  /** The operands an instruction evaluates, in order; a phi's are chosen by the edge instead. */
  function Args(kind: InstKind): seq<ValueId> {
    match kind
    case Binary(_, lhs, rhs) => [lhs, rhs]
    case Call(_, args) => args
    case Branch(_, cond) => if cond.Some? then [cond.value.cond] else []
    case GetElementPtr(_, base, indices) => [base] + indices
    case Alloca(_) => []
    case Load(ptr) => [ptr]
    case Ret(ret) => if ret.Some? then [ret.value] else []
    case Store(value, ptr) => [value, ptr]
    case ICmp(_, lhs, rhs) => [lhs, rhs]
    case Phi(_, _) => []
    case Select(c, t, e) => [c, t, e]
    case PtrToInt(ptr) => [ptr]
    case Trunc(value) => [value]
    case Zext(value) => [value]
    case Sext(value) => [value]
    case Unreachable => []
  }

  /** The operands an instruction evaluates are its value operands. */
  lemma ArgsAreOperands(kind: InstKind, v: ValueId)
    requires !kind.Phi?
    ensures v in Args(kind) <==> v in ValueOperands(kind).Values
  {
    match kind {
      case Call(_, args) =>
        if v in args {
          var i :| 0 <= i < |args| && args[i] == v;
          assert ValueOperands(kind)[CallArg(i)] == v;
        }
      case GetElementPtr(_, base, indices) =>
        assert ValueOperands(kind)[GepBase] == base;
        if v in indices {
          var i :| 0 <= i < |indices| && indices[i] == v;
          assert ValueOperands(kind)[GepIndex(i)] == v;
        }
      case _ => SmallArgs(kind, v);
    }
  }

  lemma SmallArgs(kind: InstKind, v: ValueId)
    requires !kind.Phi? && !kind.Call? && !kind.GetElementPtr?
    ensures v in Args(kind) <==> v in ValueOperands(kind).Values
  {
    match kind {
      case Binary(_, lhs, rhs) => assert ValueOperands(kind)[BinaryLhs] == lhs && ValueOperands(kind)[BinaryRhs] == rhs;
      case ICmp(_, lhs, rhs) => assert ValueOperands(kind)[ICmpLhs] == lhs && ValueOperands(kind)[ICmpRhs] == rhs;
      case Store(value, ptr) => assert ValueOperands(kind)[StoreVal] == value && ValueOperands(kind)[StorePtr] == ptr;
      case Select(c, t, e) =>
        assert ValueOperands(kind)[SelectCond] == c && ValueOperands(kind)[SelectThenVal] == t
          && ValueOperands(kind)[SelectElseVal] == e;
      case Branch(_, cond) => assert cond.Some? ==> ValueOperands(kind)[BranchCond] == cond.value.cond;
      case Ret(ret) => assert ret.Some? ==> ValueOperands(kind)[RetVal] == ret.value;
      case Load(ptr) => assert ValueOperands(kind)[LoadPtr] == ptr;
      case PtrToInt(ptr) => assert ValueOperands(kind)[PtrToIntPtr] == ptr;
      case Trunc(value) => assert ValueOperands(kind)[TruncVal] == value;
      case Zext(value) => assert ValueOperands(kind)[ZextVal] == value;
      case Sext(value) => assert ValueOperands(kind)[SextVal] == value;
      case _ =>
    }
  }

  /** Instructions whose result is a function of their operand values alone. */
  predicate IsPure(kind: InstKind) {
    kind.Binary? || kind.ICmp? || kind.GetElementPtr? || kind.Select? || kind.PtrToInt? || kind.Trunc? || kind.Zext?
      || kind.Sext? || kind.Alloca?
  }

  function Bool(b: bool): Val {
    IntVal(CoreInt(if b then 1 else 0, 1))
  }

  predicate BothInts(a: Val, b: Val) {
    a.IntVal? && b.IntVal? && a.c.Valid() && b.c.Valid() && a.c.width == b.c.width
  }

  ghost function Binop(W: World, op: BinaryOpcode, a: Val, b: Val): Val {
    if BothInts(a, b) then
      var r := Fold(op, a.c, b.c);
      if r.Some? then IntVal(r.value) else W.undefined(op, a.c, b.c)
    else Unspecified
  }

  ghost function Cmp(W: World, code: ICmpCode, a: Val, b: Val): Val {
    if BothInts(a, b) then Bool(Compare(code, a.c, b.c))
    else if a.PtrVal? && b.PtrVal? then
      Bool(if code == Eq then a.addr == b.addr else if code == Ne then a.addr != b.addr
        else W.pointerOrder(code, a.addr, b.addr))
    else Unspecified
  }

  ghost function Cast(op: Operator, a: Val): Val
    requires op.TruncOp? || op.ZextOp? || op.SextOp? || op.PtrToIntOp?
  {
    if !op.ty.IntType? || !(1 <= op.ty.bits <= 64) then Unspecified
    else
      var w := op.ty.bits;
      if op.PtrToIntOp? then (if a.PtrVal? then IntVal(New(a.addr, w)) else Unspecified)
      else if !a.IntVal? || !a.c.Valid() then Unspecified
      else if op.TruncOp? then (if w <= a.c.width then IntVal(a.c.TruncTo(w)) else Unspecified)
      else if w < a.c.width then Unspecified
      else if op.ZextOp? then IntVal(a.c.ZeroExtend(w))
      else IntVal(a.c.SignExtend(w))
  }

  ghost predicate Truthy(v: Val) {
    v.IntVal? && v.c.value != 0
  }

  /** The result of a pure operator on operand values. */
  ghost function Apply(W: World, op: Operator, args: seq<Val>): Val {
    match op
    case BinOp(o) => if |args| == 2 then Binop(W, o, args[0], args[1]) else Unspecified
    case CmpOp(code) => if |args| == 2 then Cmp(W, code, args[0], args[1]) else Unspecified
    case GepOp(ty) => W.gep(ty, args)
    case SelectOp => if |args| == 3 then (if Truthy(args[0]) then args[1] else args[2]) else Unspecified
    case AllocaOp(i) => W.slot(i)
    case PtrToIntOp(_) => if |args| == 1 then Cast(op, args[0]) else Unspecified
    case TruncOp(_) => if |args| == 1 then Cast(op, args[0]) else Unspecified
    case ZextOp(_) => if |args| == 1 then Cast(op, args[0]) else Unspecified
    case SextOp(_) => if |args| == 1 then Cast(op, args[0]) else Unspecified
    case _ => Unspecified
  }

  ghost function Value(W: World, consts: seq<ConstData>, v: ValueId, env: Env): Val {
    match v
    case InstValue(i) => env[i]
    case ArgValue(a) => W.arg(a)
    case GlobalValue(g) => W.global(g)
    case ConstValue(c) =>
      if c >= |consts| then Unspecified
      else match consts[c]
        case IntConst(n, _) => IntVal(n)
        case NullConst(_) => PtrVal(0)
        case UndefConst(ty) => W.undef(ty)
        case OtherConst(_) => W.aggregate(c)
  }

  ghost function Values(W: World, consts: seq<ConstData>, vs: seq<ValueId>, env: Env): (r: seq<Val>)
    ensures |r| == |vs|
  {
    seq(|vs|, k requires 0 <= k < |vs| => Value(W, consts, vs[k], env))
  }

  // ---------------------------------------------------------------- steps

  /** What an observed instruction did. */
  datatype Event = Event(inst: InstId, op: Operator, args: seq<Val>, result: Val)

  datatype State = State(env: Env, mem: Memory, trace: seq<Event>)

  ghost function Record(obs: set<InstId>, trace: seq<Event>, e: Event): seq<Event> {
    if e.inst in obs then trace + [e] else trace
  }

  ghost function ArgVals(W: World, body: Body, i: InstId, env: Env): seq<Val>
    requires i in body.insts
  {
    Values(W, body.consts, Args(body.insts[i].kind), env)
  }

  /** One instruction that is neither a phi nor a terminator, given its operand values. */
  ghost function Perform(W: World, obs: set<InstId>, i: InstId, op: Operator, args: seq<Val>, st: State): State {
    match op
    case LoadOp(ty) =>
      var v := if |args| == 1 then W.load(st.mem, args[0], ty) else Unspecified;
      State(st.env[i := v], st.mem, Record(obs, st.trace, Event(i, op, args, v)))
    case StoreOp =>
      State(st.env, if |args| == 2 then W.store(st.mem, args[1], args[0])
        else st.mem, Record(obs, st.trace, Event(i, op, args, Unspecified)))
    case CallOp(f) =>
      var v := W.callValue(f, args, st.mem);
      State(st.env[i := v], W.callMemory(f, args, st.mem), Record(obs, st.trace, Event(i, op, args, v)))
    case _ =>
      var v := Apply(W, op, args);
      State(st.env[i := v], st.mem, Record(obs, st.trace, Event(i, op, args, v)))
  }

  ghost function StepInst(W: World, body: Body, obs: set<InstId>, i: InstId, st: State): State {
    if i !in body.insts then st
    else Perform(W, obs, i, OperatorOf(i, body.insts[i]), ArgVals(W, body, i, st.env), st)
  }

  ghost function ExecInsts(W: World, body: Body, obs: set<InstId>, list: seq<InstId>, st: State): State {
    if list == [] then st
    else StepInst(W, body, obs, list[|list| - 1], ExecInsts(W, body, obs, list[..|list| - 1], st))
  }

  /** The value a phi takes on the edge from p: that of an incoming entry for p. */
  ghost function PhiValue(W: World, body: Body, phi: InstId, p: BlockId, env: Env): Val {
    if phi in body.insts && body.insts[phi].kind.Phi? then
      var incomings := body.insts[phi].kind.incomings;
      if k :| k in incomings && incomings[k].block == p then Value(W, body.consts, incomings[k].value, env)
        else Unspecified
    else Unspecified
  }

  /** All phis of a block change together, from the values before any of them did. */
  ghost function PhiEnv(W: World, body: Body, phis: seq<InstId>, p: BlockId, env: Env): Env {
    imap i: InstId :: if i in phis then PhiValue(W, body, i, p, env) else env[i]
  }

  ghost function PhiTrace(obs: set<InstId>, phis: seq<InstId>, after: Env, trace: seq<Event>): seq<Event> {
    if phis == [] then trace
    else
      var i := phis[|phis| - 1];
      Record(obs, PhiTrace(obs, phis[..|phis| - 1], after, trace), Event(i, PhiOp, [], after[i]))
  }

  ghost function EnterBlock(W: World, body: Body, obs: set<InstId>, phis: seq<InstId>, from: Option<BlockId>,
                            st: State): State {
    match from
    case None => st
    case Some(p) =>
      var env := PhiEnv(W, body, phis, p, st.env);
      State(env, st.mem, PhiTrace(obs, phis, env, st.trace))
  }

  datatype Exit = To(b: BlockId) | Returned(values: seq<Val>) | Halted

  ghost function Leave(W: World, body: Body, obs: set<InstId>, term: Option<InstId>, st: State): (Exit, State) {
    if term.None? || term.value !in body.insts then (Halted, st)
    else
      var t := term.value;
      var d := body.insts[t];
      var args := ArgVals(W, body, t, st.env);
      var exit := match d.kind
        case Branch(target, cond) =>
          if cond.Some? && |args| == 1 && !Truthy(args[0]) then To(cond.value.elseBlock) else To(target)
        case Ret(_) => Returned(args)
        case _ => Halted;
      (exit, State(st.env, st.mem, Record(obs, st.trace, Event(t, OperatorOf(t, d), args, Unspecified))))
  }

  ghost function RunBlock(W: World, body: Body, obs: set<InstId>, b: BlockId, from: Option<BlockId>, st: State): (Exit,
                          State)
    requires b in body.blocks
  {
    var blk := body.blocks[b];
    Leave(W, body, obs, blk.terminator,
      ExecInsts(W, body, obs, blk.insts, EnterBlock(W, body, obs, blk.phis, from, st)))
  }

  /** Where a run is: about to enter a block, or finished. */
  datatype Place = At(b: BlockId, from: Option<BlockId>) | Done(exit: Exit)

  ghost function Arrive(b: BlockId, exit: Exit): Place {
    if exit.To? then At(exit.b, Some(b)) else Done(exit)
  }

  ghost function StepBlock(W: World, body: Body, obs: set<InstId>, place: Place, st: State): (Place, State) {
    if place.At? && place.b in body.blocks then
      var (exit, st') := RunBlock(W, body, obs, place.b, place.from, st);
      (Arrive(place.b, exit), st')
    else (place, st)
  }

  /** The first n block steps from a place. */
  ghost function Run(W: World, body: Body, obs: set<InstId>, place: Place, st: State, n: nat): (Place, State) {
    if n == 0 then (place, st)
    else
      var (p, s) := Run(W, body, obs, place, st, n - 1);
      StepBlock(W, body, obs, p, s)
  }

  ghost function FreshEnv(): Env {
    imap i: InstId :: Nothing(i)
  }

  function Nothing(i: InstId): Val {
    Unspecified
  }

  /** A run of the whole function from some memory. */
  ghost function Execute(W: World, body: Body, obs: set<InstId>, mem: Memory, n: nat): (Place, State) {
    Run(W, body, obs, At(body.entry, None), State(FreshEnv(), mem, []), n)
  }

  /** Two bodies run in lockstep: block by block they are in the same place, with the same memory,
      and the observed instructions have done the same things. */
  ghost predicate Lockstep(a: Body, b: Body, obs: set<InstId>) {
    forall W, mem, n: nat :: SameSoFar(Execute(W, a, obs, mem, n), Execute(W, b, obs, mem, n))
  }

  ghost predicate SameSoFar(x: (Place, State), y: (Place, State)) {
    x.0 == y.0 && x.1.mem == y.1.mem && x.1.trace == y.1.trace
  }

  lemma LockstepTransitive(a: Body, b: Body, c: Body, obs: set<InstId>)
    requires Lockstep(a, b, obs) && Lockstep(b, c, obs)
    ensures Lockstep(a, c, obs)
  {
    forall W, mem, n: nat ensures SameSoFar(Execute(W, a, obs, mem, n), Execute(W, c, obs, mem, n)) {
      assert SameSoFar(Execute(W, a, obs, mem, n), Execute(W, b, obs, mem, n));
      assert SameSoFar(Execute(W, b, obs, mem, n), Execute(W, c, obs, mem, n));
    }
  }

  lemma LockstepReflexive(a: Body, obs: set<InstId>)
    ensures Lockstep(a, a, obs)
  {
  }

  // ---------------------------------------------------------------- control flow and dominance

  ghost predicate Edge(body: Body, p: BlockId, b: BlockId) {
    && p in body.blocks && body.blocks[p].terminator.Some? && body.blocks[p].terminator.value in body.insts
    && var k := body.insts[body.blocks[p].terminator.value].kind;
    k.Branch? && (k.thenBlock == b || (k.cond.Some? && k.cond.value.elseBlock == b))
  }

  /** A path from the entry. */
  ghost predicate Path(body: Body, path: seq<BlockId>) {
    && path != [] && path[0] == body.entry
    && forall i :: 0 <= i < |path| - 1 ==> Edge(body, path[i], path[i + 1])
  }

  ghost predicate PathTo(body: Body, path: seq<BlockId>, b: BlockId) {
    Path(body, path) && path[|path| - 1] == b
  }

  ghost predicate Reachable(body: Body, b: BlockId) {
    exists path :: PathTo(body, path, b)
  }

  /** a lies on every path from the entry to b. */
  ghost predicate Dominates(body: Body, a: BlockId, b: BlockId) {
    forall path :: PathTo(body, path, b) ==> a in path
  }

  lemma PathExtends(body: Body, path: seq<BlockId>, p: BlockId, b: BlockId)
    requires PathTo(body, path, p) && Edge(body, p, b)
    ensures PathTo(body, path + [b], b)
  {
  }

  lemma PathPrefix(body: Body, path: seq<BlockId>, k: nat)
    requires Path(body, path) && k < |path|
    ensures PathTo(body, path[..k + 1], path[k])
  {
  }

  lemma EntryReachable(body: Body)
    ensures Reachable(body, body.entry)
  {
    assert PathTo(body, [body.entry], body.entry);
  }

  lemma ReachStep(body: Body, p: BlockId, b: BlockId)
    requires Reachable(body, p) && Edge(body, p, b)
    ensures Reachable(body, b)
  {
    var path :| PathTo(body, path, p);
    PathExtends(body, path, p, b);
  }

  lemma DominatesSelf(body: Body, b: BlockId)
    ensures Dominates(body, b, b)
  {
    forall path | PathTo(body, path, b) ensures b in path {
      assert path[|path| - 1] in path;
    }
  }

  /** Strict dominators of a block dominate its predecessors. */
  lemma DominatesPredecessor(body: Body, a: BlockId, p: BlockId, b: BlockId)
    requires Dominates(body, a, b) && a != b && Edge(body, p, b)
    ensures Dominates(body, a, p)
  {
    forall path | PathTo(body, path, p) ensures a in path {
      PathExtends(body, path, p, b);
    }
  }

  lemma DominatesTransitive(body: Body, a: BlockId, b: BlockId, c: BlockId)
    requires Dominates(body, a, b) && Dominates(body, b, c)
    ensures Dominates(body, a, c)
  {
    forall path | PathTo(body, path, c) ensures a in path {
      var k :| 0 <= k < |path| && path[k] == b;
      PathPrefix(body, path, k);
      assert a in path[..k + 1];
    }
  }

  /** Two different reachable blocks do not dominate each other. */
  lemma {:induction false} NoMutualDominance(body: Body, a: BlockId, b: BlockId, path: seq<BlockId>)
    requires a != b && Dominates(body, a, b) && PathTo(body, path, b)
    ensures !Dominates(body, b, a)
    decreases |path|
  {
    var k :| 0 <= k < |path| && path[k] == a;
    PathPrefix(body, path, k);
    if b in path[..k + 1] {
      var j :| 0 <= j < k + 1 && path[j] == b;
      PathPrefix(body, path, j);
      NoMutualDominance(body, a, b, path[..j + 1]);
    }
  }

  /** Some path to a reachable block meets it only at the end. */
  lemma {:induction false} FirstArrival(body: Body, b: BlockId, path: seq<BlockId>) returns (first: seq<BlockId>)
    requires PathTo(body, path, b)
    ensures PathTo(body, first, b) && b !in first[..|first| - 1]
    decreases |path|
  {
    if b in path[..|path| - 1] {
      var k :| 0 <= k < |path| - 1 && path[k] == b;
      PathPrefix(body, path, k);
      first := FirstArrival(body, b, path[..k + 1]);
    } else {
      first := path;
    }
  }

  /** A block that dominates all of its reachable predecessors is the entry. */
  lemma NotAboveItself(body: Body, b: BlockId)
    requires Reachable(body, b) && b != body.entry
    ensures exists p :: Reachable(body, p) && Edge(body, p, b) && p != b && !Dominates(body, b, p)
  {
    var path :| PathTo(body, path, b);
    var first := FirstArrival(body, b, path);
    var n := |first|;
    PathPrefix(body, first, n - 2);
    assert first[..n - 2 + 1] == first[..n - 1];
    assert Edge(body, first[n - 2], first[n - 2 + 1]);
    assert first[n - 2] in first[..n - 1];
  }
}
