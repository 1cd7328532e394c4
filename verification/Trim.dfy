/** Removing what control never reaches: unreachable blocks, and phi entries for blocks that are
    not predecessors (the meaning side of src/ir/opt/cfg_simpilfy.rs:26-98). */
module Trim {
  import opened CoreInts
  import opened Ir
  import opened Semantics
  import opened Ssa

  /** On the edges control can take, the two phis have the same entries. */
  ghost predicate SamePhi(a: Body, b: BlockId, ka: InstKind, kb: InstKind) {
    && ka.Phi? && kb.Phi?
    && forall p, idx :: Reachable(a, p) && Edge(a, p, b) ==>
        && (HasIncoming(ka, idx, p) <==> HasIncoming(kb, idx, p))
        && (HasIncoming(ka, idx, p) ==> kb.incomings[idx].value == ka.incomings[idx].value)
  }

  ghost predicate TrimmedInst(a: Body, b: Body, c: BlockId, i: InstId) {
    && i in a.insts && i in b.insts && b.insts[i].parent == a.insts[i].parent && b.insts[i].ty == a.insts[i].ty
    && (if a.insts[i].kind.Phi? then SamePhi(a, c, a.insts[i].kind, b.insts[i].kind)
         else b.insts[i].kind == a.insts[i].kind)
  }

  /** b keeps every reachable block of a, and in it everything but unused phi entries. */
  ghost predicate Trimmed(a: Body, b: Body) {
    && b.entry == a.entry && b.numArgs == a.numArgs && b.numGlobals == a.numGlobals && a.consts <= b.consts
    && (forall c :: c in b.blocks ==> c in a.blocks && b.blocks[c] == a.blocks[c])
    && (forall c :: c in a.blocks && Reachable(a, c) ==> c in b.blocks)
    && (forall c, i :: c in a.blocks && Reachable(a, c) && Contains(a.blocks[c], i) ==> TrimmedInst(a, b, c, i))
  }

  lemma TrimmedEdge(a: Body, b: Body, p: BlockId, q: BlockId)
    requires WellPlaced(a) && Trimmed(a, b) && Reachable(a, p)
    ensures Edge(a, p, q) <==> Edge(b, p, q)
  {
    hide OperandsExist, Reachable, SamePhi;
    if p in a.blocks && a.blocks[p].terminator.Some? {
      var t := a.blocks[p].terminator.value;
      assert Contains(a.blocks[p], t);
      assert TrimmedInst(a, b, p, t);
    }
  }

  lemma {:induction false} TrimmedPath(a: Body, b: Body, path: seq<BlockId>, q: BlockId)
    requires WellPlaced(a) && Trimmed(a, b)
    ensures PathTo(a, path, q) <==> PathTo(b, path, q)
    decreases |path|
  {
    hide WellPlaced, Trimmed, Edge;
    if |path| > 1 {
      var n := |path|;
      var init := path[..n - 1];
      TrimmedPath(a, b, init, init[n - 2]);
      assert a.entry == b.entry by { TrimmedEntry(a, b); }
      SplitLast(a, path, q);
      SplitLast(b, path, q);
      if PathTo(a, init, init[n - 2]) {
        assert Reachable(a, init[n - 2]);
        TrimmedEdge(a, b, init[n - 2], q);
      }
    } else {
      assert a.entry == b.entry by { TrimmedEntry(a, b); }
    }
  }

  lemma TrimmedEntry(a: Body, b: Body)
    requires Trimmed(a, b)
    ensures a.entry == b.entry
  {
  }

  lemma SplitLast(a: Body, path: seq<BlockId>, q: BlockId)
    requires |path| > 1
    ensures var init := path[..|path| - 1];
      PathTo(a, path, q) <==> PathTo(a, init, init[|init| - 1]) && Edge(a, init[|init| - 1], q) && path[|path| - 1] == q
  {
    hide Edge;
    var n := |path|;
    var init := path[..n - 1];
    if PathTo(a, init, init[n - 2]) && Edge(a, init[n - 2], q) && path[n - 1] == q {
      forall i | 0 <= i < n - 1 ensures Edge(a, path[i], path[i + 1]) {
        if i < n - 2 {
          assert Edge(a, init[i], init[i + 1]);
        }
      }
    }
    if PathTo(a, path, q) {
      assert Edge(a, path[n - 2], path[n - 2 + 1]);
      forall i | 0 <= i < |init| - 1 ensures Edge(a, init[i], init[i + 1]) {
        assert Edge(a, path[i], path[i + 1]);
      }
    }
  }

  /** Trimming changes neither what is reachable nor what dominates what. */
  lemma TrimmedGraph(a: Body, b: Body)
    requires WellPlaced(a) && Trimmed(a, b)
    ensures forall q :: Reachable(b, q) <==> Reachable(a, q)
    ensures forall p, q :: Dominates(b, p, q) <==> Dominates(a, p, q)
  {
    forall path, q ensures PathTo(a, path, q) <==> PathTo(b, path, q) {
      TrimmedPath(a, b, path, q);
    }
    hide WellPlaced, Trimmed, PathTo;
    forall q ensures Reachable(b, q) <==> Reachable(a, q) {
      if Reachable(b, q) {
        var path :| PathTo(b, path, q);
        assert PathTo(a, path, q);
      }
      if Reachable(a, q) {
        var path :| PathTo(a, path, q);
        assert PathTo(b, path, q);
      }
    }
    forall p, q ensures Dominates(b, p, q) <==> Dominates(a, p, q) {
      assert Dominates(a, p, q) ==> forall path :: PathTo(b, path, q) ==> PathTo(a, path, q) && p in path;
      assert Dominates(b, p, q) ==> forall path :: PathTo(a, path, q) ==> PathTo(b, path, q) && p in path;
    }
  }

  // ---------------------------------------------------------------- the same runs

  lemma TrimmedArgVals(W: World, a: Body, b: Body, c: BlockId, i: InstId, env: Env)
    requires WellPlaced(a) && Trimmed(a, b) && c in a.blocks && Reachable(a, c) && Contains(a.blocks[c], i)
    requires i in a.insts && !a.insts[i].kind.Phi?
    ensures i in b.insts && b.insts[i] == a.insts[i] && ArgVals(W, b, i, env) == ArgVals(W, a, i, env)
  {
    assert TrimmedInst(a, b, c, i);
    assert WellHeld(a, i);
    hide WellPlaced, Reachable, Trimmed, ValueOperands, BlockOperands, Args;
    assert a.consts <= b.consts by { TrimmedConsts(a, b); }
    var args := Args(a.insts[i].kind);
    forall k | 0 <= k < |args| ensures Value(W, b.consts, args[k], env) == Value(W, a.consts, args[k], env) {
      ArgsAreOperands(a.insts[i].kind, args[k]);
      assert args[k] in args;
      var s :| s in ValueOperands(a.insts[i].kind) && ValueOperands(a.insts[i].kind)[s] == args[k];
      KnownValue(W, a, b, args[k], env);
    }
  }

  lemma TrimmedConsts(a: Body, b: Body)
    requires Trimmed(a, b)
    ensures a.consts <= b.consts
  {
  }

  lemma KnownValue(W: World, a: Body, b: Body, v: ValueId, env: Env)
    requires Knows(a, v) && a.consts <= b.consts
    ensures Value(W, b.consts, v, env) == Value(W, a.consts, v, env)
  {
  }

  lemma TrimmedPhiValue(W: World, a: Body, b: Body, p: BlockId, c: BlockId, phi: InstId, env: Env)
    requires SSA(a) && Trimmed(a, b) && Reachable(a, p) && Edge(a, p, c) && c in a.blocks && phi in a.blocks[c].phis
    ensures PhiValue(W, b, phi, p, env) == PhiValue(W, a, phi, p, env)
  {
    ReachStep(a, p, c);
    assert BlockOk(a, c) && Contains(a.blocks[c], phi);
    ListedHere(a, c, phi);
    assert TrimmedInst(a, b, c, phi);
    TrimmedConsts(a, b);
    hide Trimmed, Reachable, Edge, OperandsExist, PhiValue, Available;
    var kind, kind' := a.insts[phi].kind, b.insts[phi].kind;
    assert PhiOk(a, phi, c);
    var idx :| HasIncoming(kind, idx, p);
    PhiValueIs(W, a, phi, p, idx, env);
    PhiValueIs(W, b, phi, p, idx, env);
    IncomingKnown(a, phi, idx);
    KnownValue(W, a, b, kind.incomings[idx].value, env);
  }

  lemma IncomingKnown(a: Body, phi: InstId, idx: nat)
    requires WellPlaced(a) && Attached(a, phi) && a.insts[phi].kind.Phi? && idx in a.insts[phi].kind.incomings
    ensures Knows(a, a.insts[phi].kind.incomings[idx].value)
  {
    assert WellHeld(a, phi);
    assert ValueOperands(a.insts[phi].kind)[PhiIncomingVal(idx)] == a.insts[phi].kind.incomings[idx].value;
  }

  lemma TrimmedEnter(W: World, a: Body, b: Body, obs: set<InstId>, c: BlockId, from: Option<BlockId>, st: State)
    requires SSA(a) && Trimmed(a, b) && c in a.blocks
    requires (from.Some? ==> Reachable(a, from.value) && Edge(a, from.value, c))
    ensures EnterBlock(W, b, obs, a.blocks[c].phis, from, st) == EnterBlock(W, a, obs, a.blocks[c].phis, from, st)
  {
    hide SSA, Trimmed, Reachable, Edge, PhiValue;
    if from.Some? {
      forall phi | phi in a.blocks[c].phis
        ensures PhiValue(W, b, phi, from.value, st.env) == PhiValue(W, a, phi, from.value, st.env)
      {
        TrimmedPhiValue(W, a, b, from.value, c, phi, st.env);
      }
      assert PhiEnv(W, b, a.blocks[c].phis, from.value, st.env) == PhiEnv(W, a, a.blocks[c].phis, from.value, st.env);
    }
  }

  lemma {:induction false} TrimmedList(W: World, a: Body, b: Body, obs: set<InstId>, c: BlockId, k: nat, st: State)
    requires WellPlaced(a) && Trimmed(a, b) && c in a.blocks && Reachable(a, c) && k <= |a.blocks[c].insts|
    ensures ExecInsts(W, b, obs, a.blocks[c].insts[..k], st) == ExecInsts(W, a, obs, a.blocks[c].insts[..k], st)
    decreases k
  {
    hide WellPlaced, Trimmed, Reachable, Perform, ArgVals;
    if k > 0 {
      var list := a.blocks[c].insts;
      TrimmedList(W, a, b, obs, c, k - 1, st);
      assert list[..k][..k - 1] == list[..k - 1];
      var i := list[k - 1];
      assert i in list;
      assert Contains(a.blocks[c], i);
      ListedHere(a, c, i);
      TrimmedArgVals(W, a, b, c, i, ExecInsts(W, a, obs, list[..k - 1], st).env);
    }
  }

  lemma TrimmedLeave(W: World, a: Body, b: Body, obs: set<InstId>, c: BlockId, st: State)
    requires WellPlaced(a) && Trimmed(a, b) && c in a.blocks && Reachable(a, c)
    ensures Leave(W, b, obs, a.blocks[c].terminator, st) == Leave(W, a, obs, a.blocks[c].terminator, st)
  {
    hide WellPlaced, Trimmed, Reachable, ArgVals, Truthy;
    if a.blocks[c].terminator.Some? {
      var t := a.blocks[c].terminator.value;
      assert Contains(a.blocks[c], t);
      ListedHere(a, c, t);
      TerminatorIsNoPhi(a.insts[t].kind);
      TrimmedArgVals(W, a, b, c, t, st.env);
    }
  }

  lemma TrimmedBlock(W: World, a: Body, b: Body, obs: set<InstId>, place: Place, st: State)
    requires SSA(a) && Trimmed(a, b) && OnCourse(W, a, place, st.env)
    ensures StepBlock(W, b, obs, place, st) == StepBlock(W, a, obs, place, st)
  {
    if place.At? {
      var blk := a.blocks[place.b];
      assert Reachable(a, place.b) by { CourseReachable(W, a, place, st.env); }
      assert place.b in b.blocks && b.blocks[place.b] == blk;
      TrimmedEnter(W, a, b, obs, place.b, place.from, st);
      var st1 := EnterBlock(W, a, obs, blk.phis, place.from, st);
      assert blk.insts[..|blk.insts|] == blk.insts;
      assert WellPlaced(a);
      hide SSA, Trimmed, Reachable, EnterBlock, ExecInsts, Leave, OnCourse, WellPlaced;
      TrimmedList(W, a, b, obs, place.b, |blk.insts|, st1);
      TrimmedLeave(W, a, b, obs, place.b, ExecInsts(W, a, obs, blk.insts, st1));
    }
  }

  lemma CourseReachable(W: World, a: Body, place: Place, env: Env)
    requires place.At? && OnCourse(W, a, place, env)
    ensures Reachable(a, place.b)
  {
    hide Reachable, Edge, EquationsHold;
    if place.from.None? {
      EntryReachable(a);
    } else {
      ReachStep(a, place.from.value, place.b);
    }
  }

  lemma {:induction false} TrimmedRuns(W: World, a: Body, b: Body, obs: set<InstId>, mem: Memory, n: nat)
    requires SSA(a) && Trimmed(a, b)
    ensures Execute(W, b, obs, mem, n) == Execute(W, a, obs, mem, n)
  {
    hide SSA, Trimmed, OnCourse, StepBlock;
    TrimmedEntry(a, b);
    if n > 0 {
      TrimmedRuns(W, a, b, obs, mem, n - 1);
      SsaEquationsHold(W, a, obs, mem, n - 1);
      var (place, st) := Execute(W, a, obs, mem, n - 1);
      TrimmedBlock(W, a, b, obs, place, st);
    }
  }

  /** Trimming changes no run. */
  lemma TrimmedLockstep(a: Body, b: Body, obs: set<InstId>)
    requires SSA(a) && Trimmed(a, b)
    ensures Lockstep(a, b, obs)
  {
    hide SSA, Trimmed, Execute;
    forall W, mem, n: nat ensures SameSoFar(Execute(W, a, obs, mem, n), Execute(W, b, obs, mem, n)) {
      TrimmedRuns(W, a, b, obs, mem, n);
    }
  }

  // ---------------------------------------------------------------- the trimmed body is well formed

  lemma TrimmedBefore(a: Body, b: Body, o: InstId, c: BlockId, k: int)
    requires SSA(a) && WellPlaced(b) && Trimmed(a, b) && c in a.blocks && Reachable(a, c) && Before(a, o, c, k)
    ensures Before(b, o, c, k)
  {
    var home := a.insts[o].parent.value;
    TrimmedGraph(a, b);
    if home != c {
      DominatorReachable(a, home, c);
    }
    WellHeldIn(a, o);
    hide WellPlaced, Reachable, Dominates, SamePhi, BlockOk;
    assert Contains(a.blocks[home], o);
    assert TrimmedInst(a, b, home, o);
  }

  lemma TrimmedArgsAvailable(a: Body, b: Body, c: BlockId, i: InstId, k: nat)
    requires SSA(a) && WellPlaced(b) && Trimmed(a, b) && c in a.blocks && Reachable(a, c) && Contains(a.blocks[c], i)
    requires i in a.insts && !a.insts[i].kind.Phi?
    requires ArgsAvailable(a, i, c, k)
    ensures i in b.insts && ArgsAvailable(b, i, c, k)
  {
    assert TrimmedInst(a, b, c, i);
    hide SSA, WellPlaced, Trimmed, Reachable, Before, Args;
    forall v | v in Args(b.insts[i].kind) ensures Available(b, v, c, k) {
      assert Available(a, v, c, k);
      if v.InstValue? {
        TrimmedBefore(a, b, v.inst, c, k);
      }
    }
  }

  lemma TrimmedPhiOk(a: Body, b: Body, c: BlockId, i: InstId)
    requires SSA(a) && WellPlaced(b) && Trimmed(a, b) && c in a.blocks && Reachable(a, c) && i in a.blocks[c].phis
    requires i in a.insts && a.insts[i].kind.Phi? && PhiOk(a, i, c)
    ensures i in b.insts && PhiOk(b, i, c)
  {
    assert Contains(a.blocks[c], i);
    assert TrimmedInst(a, b, c, i);
    TrimmedGraph(a, b);
    var ka, kb := a.insts[i].kind, b.insts[i].kind;
    forall p | Reachable(b, p) && Edge(b, p, c)
      ensures exists idx :: HasIncoming(kb, idx, p)
      ensures forall idx, idx' :: HasIncoming(kb, idx, p) && HasIncoming(kb, idx', p) ==> idx == idx'
      ensures forall idx :: HasIncoming(kb, idx, p) ==> Available(b, kb.incomings[idx].value, p, |b.blocks[p].insts|)
    {
      TrimmedEdge(a, b, p, c);
      hide SSA, WellPlaced, Reachable, Edge, Before;
      var idx0 :| HasIncoming(ka, idx0, p);
      assert HasIncoming(kb, idx0, p);
      forall idx | HasIncoming(kb, idx, p) ensures Available(b, kb.incomings[idx].value, p, |b.blocks[p].insts|) {
        assert HasIncoming(ka, idx, p);
        var v := ka.incomings[idx].value;
        assert Available(a, v, p, |a.blocks[p].insts|);
        if v.InstValue? {
          TrimmedBefore(a, b, v.inst, p, |a.blocks[p].insts|);
        }
      }
    }
  }

  lemma TrimmedBlockOk(a: Body, b: Body, c: BlockId)
    requires SSA(a) && WellPlaced(b) && Trimmed(a, b) && c in b.blocks && Reachable(a, c)
    ensures BlockOk(b, c)
  {
    assert c in a.blocks && b.blocks[c] == a.blocks[c] && BlockOk(a, c);
    var blk := a.blocks[c];
    hide Trimmed, Reachable, ArgsAvailable, PhiOk, OperandsExist;
    forall i | i in blk.phis ensures i in b.insts && PhiOk(b, i, c) {
      assert Contains(blk, i);
      ListedHere(a, c, i);
      TrimmedPhiOk(a, b, c, i);
    }
    forall k | 0 <= k < |blk.insts| ensures blk.insts[k] in b.insts && ArgsAvailable(b, blk.insts[k], c, k) {
      assert Contains(blk, blk.insts[k]);
      ListedHere(a, c, blk.insts[k]);
      assert blk.insts[k] in blk.insts;
      TrimmedArgsAvailable(a, b, c, blk.insts[k], k);
    }
    if blk.terminator.Some? {
      assert Contains(blk, blk.terminator.value);
      ListedHere(a, c, blk.terminator.value);
      TerminatorIsNoPhi(a.insts[blk.terminator.value].kind);
      TrimmedArgsAvailable(a, b, c, blk.terminator.value, |blk.insts|);
    }
  }

  /** The trimmed body is still in SSA form. */
  lemma TrimmedSSA(a: Body, b: Body)
    requires SSA(a) && WellPlaced(b) && Trimmed(a, b)
    ensures SSA(b)
  {
    TrimmedGraph(a, b);
    EntryReachable(a);
    hide Reachable, BlockOk, Dominates;
    forall c | c in b.blocks && Reachable(b, c) ensures BlockOk(b, c) {
      TrimmedBlockOk(a, b, c);
    }
    hide TrimmedInst;
  }
}
