/** Runs in which no zero is divided by zero or shifted by too much: they are the same in every world
    that differs only in what those operations yield (src/ir/opt/algebraic.rs:120-183). */
module Divergence {
  import opened CoreInts
  import opened Ir
  import opened Semantics
  import opened Typing
  import opened Simplify

  /** If the instruction divided or shifted a zero, that was defined. */
  ghost predicate SafeEvent(e: Event) {
    e.op.BinOp? && |e.args| == 2 && BothInts(e.args[0], e.args[1]) ==>
      !ZeroUndefined(e.op.op, e.args[0].c, e.args[1].c)
  }

  ghost predicate AllSafe(trace: seq<Event>) {
    forall e :: e in trace ==> SafeEvent(e)
  }

  /** In the first n blocks of the run no zero was divided by zero or shifted by its width or more. */
  ghost predicate ZeroSafe(W: World, body: Body, mem: Memory, n: nat) {
    AllSafe(Execute(W, body, body.insts.Keys, mem, n).1.trace)
  }

  /** Worlds that differ at most in what such operations yield. */
  ghost predicate Alike(W: World, W2: World) {
    && OtherwiseSame(W, W2)
    && forall op, a, b :: SameWidth(a, b) && Fold(op, a, b).None? && a.value != 0 ==>
         W2.undefined(op, a, b) == W.undefined(op, a, b)
  }

  // ---------------------------------------------------------------- observing changes nothing else

  /** What is left of a trace when only these are observed. */
  ghost function Seen(obs: set<InstId>, trace: seq<Event>): (r: seq<Event>)
    ensures forall e :: e in r <==> e in trace && e.inst in obs
  {
    if trace == [] then []
    else
      var e := trace[|trace| - 1];
      assert trace == trace[..|trace| - 1] + [e];
      Seen(obs, trace[..|trace| - 1]) + (if e.inst in obs then [e] else [])
  }

  /** The same values and memory; the first trace is what its observer sees of the second. */
  ghost predicate Covers(obs: set<InstId>, s: State, t: State) {
    s.env == t.env && s.mem == t.mem && s.trace == Seen(obs, t.trace)
  }

  lemma RecordSeen(obs: set<InstId>, obs': set<InstId>, trace: seq<Event>, e: Event)
    requires obs <= obs'
    ensures Record(obs, Seen(obs, trace), e) == Seen(obs, Record(obs', trace, e))
  {
    assert (trace + [e])[..|trace|] == trace;
    assert Seen(obs, trace) + [] == Seen(obs, trace);
  }

  lemma {:induction false} PhiTraceSeen(obs: set<InstId>, obs': set<InstId>, phis: seq<InstId>, env: Env,
                                        trace: seq<Event>)
    requires obs <= obs'
    ensures PhiTrace(obs, phis, env, Seen(obs, trace)) == Seen(obs, PhiTrace(obs', phis, env, trace))
    decreases |phis|
  {
    hide Seen, Record;
    if phis != [] {
      var i := phis[|phis| - 1];
      PhiTraceSeen(obs, obs', phis[..|phis| - 1], env, trace);
      RecordSeen(obs, obs', PhiTrace(obs', phis[..|phis| - 1], env, trace), Event(i, PhiOp, [], env[i]));
    }
  }

  lemma StepCovers(W: World, body: Body, obs: set<InstId>, obs': set<InstId>, i: InstId, s: State, t: State)
    requires obs <= obs' && Covers(obs, s, t)
    ensures Covers(obs, StepInst(W, body, obs, i, s), StepInst(W, body, obs', i, t))
  {
    hide Apply, OperatorOf, ArgVals, Seen, Record;
    forall e ensures Record(obs, s.trace, e) == Seen(obs, Record(obs', t.trace, e)) {
      RecordSeen(obs, obs', t.trace, e);
    }
  }

  lemma {:induction false} ListCovers(W: World, body: Body, obs: set<InstId>, obs': set<InstId>, list: seq<InstId>,
                                      s: State, t: State)
    requires obs <= obs' && Covers(obs, s, t)
    ensures Covers(obs, ExecInsts(W, body, obs, list, s), ExecInsts(W, body, obs', list, t))
    decreases |list|
  {
    hide StepInst, Covers;
    if list != [] {
      ListCovers(W, body, obs, obs', list[..|list| - 1], s, t);
      StepCovers(W, body, obs, obs', list[|list| - 1], ExecInsts(W, body, obs, list[..|list| - 1], s),
        ExecInsts(W, body, obs', list[..|list| - 1], t));
    }
  }

  lemma EnterCovers(W: World, body: Body, obs: set<InstId>, obs': set<InstId>, phis: seq<InstId>,
                    from: Option<BlockId>, s: State, t: State)
    requires obs <= obs' && Covers(obs, s, t)
    ensures Covers(obs, EnterBlock(W, body, obs, phis, from, s), EnterBlock(W, body, obs', phis, from, t))
  {
    hide PhiEnv, PhiTrace, Seen;
    if from.Some? {
      PhiTraceSeen(obs, obs', phis, PhiEnv(W, body, phis, from.value, s.env), t.trace);
    }
  }

  lemma LeaveCovers(W: World, body: Body, obs: set<InstId>, obs': set<InstId>, term: Option<InstId>, s: State, t: State)
    requires obs <= obs' && Covers(obs, s, t)
    ensures Leave(W, body, obs, term, s).0 == Leave(W, body, obs', term, t).0
    ensures Covers(obs, Leave(W, body, obs, term, s).1, Leave(W, body, obs', term, t).1)
  {
    hide OperatorOf, ArgVals, Seen, Record, Truthy;
    forall e ensures Record(obs, s.trace, e) == Seen(obs, Record(obs', t.trace, e)) {
      RecordSeen(obs, obs', t.trace, e);
    }
  }

  lemma BlockCovers(W: World, body: Body, obs: set<InstId>, obs': set<InstId>, place: Place, s: State, t: State)
    requires obs <= obs' && Covers(obs, s, t)
    ensures StepBlock(W, body, obs, place, s).0 == StepBlock(W, body, obs', place, t).0
    ensures Covers(obs, StepBlock(W, body, obs, place, s).1, StepBlock(W, body, obs', place, t).1)
  {
    hide Covers, ExecInsts, EnterBlock, Leave;
    if place.At? && place.b in body.blocks {
      var blk := body.blocks[place.b];
      EnterCovers(W, body, obs, obs', blk.phis, place.from, s, t);
      var s1 := EnterBlock(W, body, obs, blk.phis, place.from, s);
      var t1 := EnterBlock(W, body, obs', blk.phis, place.from, t);
      ListCovers(W, body, obs, obs', blk.insts, s1, t1);
      LeaveCovers(W, body, obs, obs', blk.terminator, ExecInsts(W, body, obs, blk.insts, s1),
        ExecInsts(W, body, obs', blk.insts, t1));
    }
  }

  /** Observing more instructions changes nothing about a run but what is observed. */
  lemma {:induction false} ObservingMore(W: World, body: Body, obs: set<InstId>, obs': set<InstId>, mem: Memory, n: nat)
    requires obs <= obs'
    ensures Execute(W, body, obs, mem, n).0 == Execute(W, body, obs', mem, n).0
    ensures Covers(obs, Execute(W, body, obs, mem, n).1, Execute(W, body, obs', mem, n).1)
  {
    hide StepBlock;
    if n > 0 {
      ObservingMore(W, body, obs, obs', mem, n - 1);
      hide Covers;
      var (p, s) := Execute(W, body, obs, mem, n - 1);
      var (q, t) := Execute(W, body, obs', mem, n - 1);
      BlockCovers(W, body, obs, obs', p, s, t);
    }
  }

  // ---------------------------------------------------------------- traces only grow

  lemma {:induction false} PhiTraceGrows(obs: set<InstId>, phis: seq<InstId>, env: Env, trace: seq<Event>)
    ensures trace <= PhiTrace(obs, phis, env, trace)
    decreases |phis|
  {
    if phis != [] {
      PhiTraceGrows(obs, phis[..|phis| - 1], env, trace);
    }
  }

  lemma EnterGrows(W: World, body: Body, obs: set<InstId>, phis: seq<InstId>, from: Option<BlockId>, st: State)
    ensures st.trace <= EnterBlock(W, body, obs, phis, from, st).trace
  {
    hide PhiEnv, PhiTrace;
    if from.Some? {
      PhiTraceGrows(obs, phis, PhiEnv(W, body, phis, from.value, st.env), st.trace);
    }
  }

  lemma StepGrows(W: World, body: Body, obs: set<InstId>, i: InstId, st: State)
    ensures st.trace <= StepInst(W, body, obs, i, st).trace
  {
    hide Apply, OperatorOf, ArgVals;
  }

  lemma {:induction false} ListGrows(W: World, body: Body, obs: set<InstId>, list: seq<InstId>, st: State)
    ensures st.trace <= ExecInsts(W, body, obs, list, st).trace
    decreases |list|
  {
    hide StepInst;
    if list != [] {
      ListGrows(W, body, obs, list[..|list| - 1], st);
      StepGrows(W, body, obs, list[|list| - 1], ExecInsts(W, body, obs, list[..|list| - 1], st));
    }
  }

  lemma LeaveGrows(W: World, body: Body, obs: set<InstId>, term: Option<InstId>, st: State)
    ensures st.trace <= Leave(W, body, obs, term, st).1.trace
  {
    hide OperatorOf, ArgVals, Truthy;
  }

  lemma BlockGrows(W: World, body: Body, obs: set<InstId>, place: Place, st: State)
    ensures st.trace <= StepBlock(W, body, obs, place, st).1.trace
  {
    hide EnterBlock, ExecInsts, Leave;
    if place.At? && place.b in body.blocks {
      var blk := body.blocks[place.b];
      var st1 := EnterBlock(W, body, obs, blk.phis, place.from, st);
      EnterGrows(W, body, obs, blk.phis, place.from, st);
      ListGrows(W, body, obs, blk.insts, st1);
      LeaveGrows(W, body, obs, blk.terminator, ExecInsts(W, body, obs, blk.insts, st1));
    }
  }

  // ---------------------------------------------------------------- who can be observed

  /** Only instructions of the body, and phis, are ever observed. */
  ghost predicate FromBody(body: Body, trace: seq<Event>) {
    forall e :: e in trace ==> e.inst in body.insts || e.op.PhiOp?
  }

  lemma {:induction false} PhiTraceFromBody(body: Body, obs: set<InstId>, phis: seq<InstId>, env: Env,
                                            trace: seq<Event>)
    requires FromBody(body, trace)
    ensures FromBody(body, PhiTrace(obs, phis, env, trace))
    decreases |phis|
  {
    if phis != [] {
      PhiTraceFromBody(body, obs, phis[..|phis| - 1], env, trace);
    }
  }

  lemma {:induction false} ListFromBody(W: World, body: Body, obs: set<InstId>, list: seq<InstId>, st: State)
    requires FromBody(body, st.trace)
    ensures FromBody(body, ExecInsts(W, body, obs, list, st).trace)
    decreases |list|
  {
    hide Apply, OperatorOf, ArgVals;
    if list != [] {
      ListFromBody(W, body, obs, list[..|list| - 1], st);
    }
  }

  lemma BlockFromBody(W: World, body: Body, obs: set<InstId>, place: Place, st: State)
    requires FromBody(body, st.trace)
    ensures FromBody(body, StepBlock(W, body, obs, place, st).1.trace)
  {
    hide ExecInsts, PhiEnv, PhiTrace, OperatorOf, ArgVals, Truthy;
    if place.At? && place.b in body.blocks {
      var blk := body.blocks[place.b];
      if place.from.Some? {
        PhiTraceFromBody(body, obs, blk.phis, PhiEnv(W, body, blk.phis, place.from.value, st.env), st.trace);
      }
      ListFromBody(W, body, obs, blk.insts, EnterBlock(W, body, obs, blk.phis, place.from, st));
    }
  }

  lemma {:induction false} RunFromBody(W: World, body: Body, obs: set<InstId>, mem: Memory, n: nat)
    ensures FromBody(body, Execute(W, body, obs, mem, n).1.trace)
  {
    hide StepBlock;
    if n > 0 {
      RunFromBody(W, body, obs, mem, n - 1);
      var (place, st) := Execute(W, body, obs, mem, n - 1);
      BlockFromBody(W, body, obs, place, st);
    }
  }

  /** A safe run is safe whoever observes it. */
  lemma SafeForAll(W: World, body: Body, obs: set<InstId>, mem: Memory, n: nat)
    requires ZeroSafe(W, body, mem, n)
    ensures AllSafe(Execute(W, body, obs + body.insts.Keys, mem, n).1.trace)
  {
    hide Execute;
    ObservingMore(W, body, body.insts.Keys, obs + body.insts.Keys, mem, n);
    RunFromBody(W, body, obs + body.insts.Keys, mem, n);
  }

  // ---------------------------------------------------------------- another world, the same run

  lemma AlikeSymmetric(W: World, W2: World)
    requires Alike(W, W2)
    ensures Alike(W2, W)
  {
    hide Fold;
  }

  lemma SameValues(W: World, W2: World, consts: seq<ConstData>, vs: seq<ValueId>, env: Env)
    requires OtherwiseSame(W, W2)
    ensures Values(W2, consts, vs, env) == Values(W, consts, vs, env)
  {
    forall k | 0 <= k < |vs| ensures Value(W2, consts, vs[k], env) == Value(W, consts, vs[k], env) {
      SameOperands(W, W2, consts, vs[k], env);
    }
  }

  lemma SameApply(W: World, W2: World, op: Operator, args: seq<Val>)
    requires Alike(W, W2)
    requires op.BinOp? && |args| == 2 && BothInts(args[0], args[1]) ==> !ZeroUndefined(op.op, args[0].c, args[1].c)
    ensures Apply(W2, op, args) == Apply(W, op, args)
  {
    hide Fold, Undefines, Cast;
    if op.BinOp? && |args| == 2 && BothInts(args[0], args[1]) && args[0].c.value == 0 {
      ZeroFolds(op.op, args[0].c, args[1].c);
    }
  }

  lemma SamePerform(W: World, W2: World, obs: set<InstId>, i: InstId, op: Operator, args: seq<Val>, st: State)
    requires Alike(W, W2) && i in obs && AllSafe(Perform(W, obs, i, op, args, st).trace)
    ensures Perform(W2, obs, i, op, args, st) == Perform(W, obs, i, op, args, st)
  {
    hide Apply, Fold, ZeroUndefined;
    if op.BinOp? {
      var e := Event(i, op, args, Apply(W, op, args));
      assert e in Perform(W, obs, i, op, args, st).trace;
      assert SafeEvent(e);
    }
    SameApply(W, W2, op, args);
  }

  lemma SameStep(W: World, W2: World, body: Body, all: set<InstId>, i: InstId, st: State)
    requires Alike(W, W2) && body.insts.Keys <= all && AllSafe(StepInst(W, body, all, i, st).trace)
    ensures StepInst(W2, body, all, i, st) == StepInst(W, body, all, i, st)
  {
    hide Perform, Alike, AllSafe, Args, OperatorOf;
    if i in body.insts {
      assert OtherwiseSame(W, W2) by { AlikeOtherwise(W, W2); }
      SameValues(W, W2, body.consts, Args(body.insts[i].kind), st.env);
      SamePerform(W, W2, all, i, OperatorOf(i, body.insts[i]), ArgVals(W, body, i, st.env), st);
    }
  }

  lemma AlikeOtherwise(W: World, W2: World)
    requires Alike(W, W2)
    ensures OtherwiseSame(W, W2)
  {
  }

  lemma SafePrefix(s: seq<Event>, t: seq<Event>)
    requires s <= t && AllSafe(t)
    ensures AllSafe(s)
  {
    hide SafeEvent;
    assert forall e :: e in s ==> e in t;
  }

  lemma {:induction false} SameList(W: World, W2: World, body: Body, all: set<InstId>, list: seq<InstId>, st: State)
    requires Alike(W, W2) && body.insts.Keys <= all && AllSafe(ExecInsts(W, body, all, list, st).trace)
    ensures ExecInsts(W2, body, all, list, st) == ExecInsts(W, body, all, list, st)
    decreases |list|
  {
    hide StepInst, Alike, AllSafe;
    if list != [] {
      var st1 := ExecInsts(W, body, all, list[..|list| - 1], st);
      StepGrows(W, body, all, list[|list| - 1], st1);
      SafePrefix(st1.trace, StepInst(W, body, all, list[|list| - 1], st1).trace);
      SameList(W, W2, body, all, list[..|list| - 1], st);
      SameStep(W, W2, body, all, list[|list| - 1], st1);
    }
  }

  lemma SamePhiValue(W: World, W2: World, body: Body, phi: InstId, p: BlockId, env: Env)
    requires OtherwiseSame(W, W2)
    ensures PhiValue(W2, body, phi, p, env) == PhiValue(W, body, phi, p, env)
  {
    forall v ensures Value(W2, body.consts, v, env) == Value(W, body.consts, v, env) {
      SameOperands(W, W2, body.consts, v, env);
    }
    hide Value, OtherwiseSame;
  }

  lemma SameEnter(W: World, W2: World, body: Body, obs: set<InstId>, phis: seq<InstId>, from: Option<BlockId>,
                  st: State)
    requires OtherwiseSame(W, W2)
    ensures EnterBlock(W2, body, obs, phis, from, st) == EnterBlock(W, body, obs, phis, from, st)
  {
    hide PhiValue, PhiTrace, OtherwiseSame;
    if from.Some? {
      forall i | i in phis
        ensures PhiValue(W2, body, i, from.value, st.env) == PhiValue(W, body, i, from.value, st.env)
      {
        SamePhiValue(W, W2, body, i, from.value, st.env);
      }
      assert PhiEnv(W2, body, phis, from.value, st.env) == PhiEnv(W, body, phis, from.value, st.env);
    }
  }

  lemma SameLeave(W: World, W2: World, body: Body, obs: set<InstId>, term: Option<InstId>, st: State)
    requires OtherwiseSame(W, W2)
    ensures Leave(W2, body, obs, term, st) == Leave(W, body, obs, term, st)
  {
    hide OperatorOf, Args, Truthy, OtherwiseSame;
    if term.Some? && term.value in body.insts {
      SameValues(W, W2, body.consts, Args(body.insts[term.value].kind), st.env);
    }
  }

  lemma SameBlockStep(W: World, W2: World, body: Body, all: set<InstId>, place: Place, st: State)
    requires Alike(W, W2) && body.insts.Keys <= all && AllSafe(StepBlock(W, body, all, place, st).1.trace)
    ensures StepBlock(W2, body, all, place, st) == StepBlock(W, body, all, place, st)
  {
    hide EnterBlock, ExecInsts, Leave, AllSafe, Alike;
    if place.At? && place.b in body.blocks {
      var blk := body.blocks[place.b];
      var st1 := EnterBlock(W, body, all, blk.phis, place.from, st);
      var st2 := ExecInsts(W, body, all, blk.insts, st1);
      AlikeOtherwise(W, W2);
      hide OtherwiseSame;
      LeaveGrows(W, body, all, blk.terminator, st2);
      SafePrefix(st2.trace, Leave(W, body, all, blk.terminator, st2).1.trace);
      SameEnter(W, W2, body, all, blk.phis, place.from, st);
      SameList(W, W2, body, all, blk.insts, st1);
      SameLeave(W, W2, body, all, blk.terminator, st2);
    }
  }

  lemma {:induction false} SameFullRun(W: World, W2: World, body: Body, all: set<InstId>, mem: Memory, n: nat)
    requires Alike(W, W2) && body.insts.Keys <= all && AllSafe(Execute(W, body, all, mem, n).1.trace)
    ensures Execute(W2, body, all, mem, n) == Execute(W, body, all, mem, n)
  {
    hide StepBlock, AllSafe, Alike;
    if n > 0 {
      var (place, st) := Execute(W, body, all, mem, n - 1);
      BlockGrows(W, body, all, place, st);
      SafePrefix(st.trace, Execute(W, body, all, mem, n).1.trace);
      SameFullRun(W, W2, body, all, mem, n - 1);
      SameBlockStep(W, W2, body, all, place, st);
    }
  }

  /** A run in which no zero was divided by zero or shifted by too much is the same run in the other
      world, whoever observes it. */
  lemma SafeRunAlike(W: World, W2: World, body: Body, obs: set<InstId>, mem: Memory, n: nat)
    requires Alike(W, W2) && ZeroSafe(W, body, mem, n)
    ensures Execute(W2, body, obs, mem, n) == Execute(W, body, obs, mem, n)
  {
    hide Execute, AllSafe, Alike, ZeroSafe;
    var all := obs + body.insts.Keys;
    SafeForAll(W, body, obs, mem, n);
    SameFullRun(W, W2, body, all, mem, n);
    ObservingMore(W, body, obs, all, mem, n);
    ObservingMore(W2, body, obs, all, mem, n);
  }

  // ---------------------------------------------------------------- a world that keeps zeros

  /** Undefined divisions and shifts of a zero yield that zero. */
  ghost predicate ZeroKept(W: World) {
    forall op, a, b :: KeepsZero(W, op, a, b)
  }

  ghost predicate ZeroCase(op: BinaryOpcode, a: CoreInt, b: CoreInt) {
    SameWidth(a, b) && a.value == 0 && Fold(op, a, b).None?
  }

  /** The same world, but zeros divided by zero or shifted by too much stay zero. */
  ghost function KeepingZeros(W: World): World {
    W.(undefined := (op, a, b) => if ZeroCase(op, a, b) then IntVal(a) else W.undefined(op, a, b))
  }

  lemma KeepingZerosKeeps(W: World)
    ensures ZeroKept(KeepingZeros(W)) && Alike(W, KeepingZeros(W))
    ensures SaneWorld(W) ==> SaneWorld(KeepingZeros(W))
  {
    hide Fold;
    forall op, a, b ensures KeepsZero(KeepingZeros(W), op, a, b) {
      assert KeepingZeros(W).undefined(op, a, b)
        == if ZeroCase(op, a, b) then IntVal(a) else W.undefined(op, a, b);
    }
  }

  /** What the rest observes of a safe run is safe. */
  lemma SafeSeen(W: World, a: Body, b: Body, mem: Memory, n: nat)
    requires ZeroSafe(W, a, mem, n) && b.insts.Keys <= a.insts.Keys
    requires SameSoFar(Execute(W, a, b.insts.Keys, mem, n), Execute(W, b, b.insts.Keys, mem, n))
    ensures ZeroSafe(W, b, mem, n)
  {
    hide Execute, SafeEvent;
    ObservingMore(W, a, b.insts.Keys, a.insts.Keys, mem, n);
  }
}
