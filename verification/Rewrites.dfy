/** Two rewrites every scalar pass is made of, and why they keep a body's behaviour: exchanging an
    instruction for a value it always equals, and dropping instructions nobody looks at. */
module Rewrites {
  import opened CoreInts
  import opened Ir
  import opened Semantics
  import opened Ssa
  import opened Typing

  // ---------------------------------------------------------------- bodies with the same edges

  ghost predicate SameEdges(a: Body, b: Body) {
    a.entry == b.entry && forall p, q :: Edge(a, p, q) <==> Edge(b, p, q)
  }

  lemma SamePaths(a: Body, b: Body)
    requires SameEdges(a, b)
    ensures forall path, q :: PathTo(a, path, q) <==> PathTo(b, path, q)
    ensures forall q :: Reachable(a, q) <==> Reachable(b, q)
    ensures forall p, q :: Dominates(a, p, q) <==> Dominates(b, p, q)
  {
    forall path ensures Path(a, path) <==> Path(b, path) {
      hide Edge;
    }
    assert forall path, q :: PathTo(a, path, q) <==> PathTo(b, path, q);
    hide PathTo;
    forall q ensures Reachable(a, q) <==> Reachable(b, q) {
      if Reachable(a, q) {
        var path :| PathTo(a, path, q);
        assert PathTo(b, path, q);
      }
      if Reachable(b, q) {
        var path :| PathTo(b, path, q);
        assert PathTo(a, path, q);
      }
    }
    forall p, q ensures Dominates(a, p, q) <==> Dominates(b, p, q) {
      assert Dominates(a, p, q) ==> forall path :: PathTo(b, path, q) ==> PathTo(a, path, q) && p in path;
      assert Dominates(b, p, q) ==> forall path :: PathTo(a, path, q) ==> PathTo(b, path, q) && p in path;
    }
  }

  // ---------------------------------------------------------------- substitution

  /** Wherever w has its value so does v. */
  ghost predicate Follows(body: Body, w: InstId, v: ValueId) {
    && Attached(body, w) && v != InstValue(w)
    && forall b, k: nat :: Reachable(body, b) && Before(body, w, b, k) ==> Available(body, v, b, k)
  }

  /** In this world the two agree wherever w has its value, in every run. */
  ghost predicate AgreesIn(W: World, body: Body, w: InstId, v: ValueId) {
    Follows(body, w, v) &&
    forall b, k: nat, env: Env :: Reachable(body, b) && Before(body, w, b, k) && KnownAt(W, body, b, k, env) ==>
      env[w] == Value(W, body.consts, v, env)
  }

  /** Wherever w has its value so does v, and the equations alone make the two agree, in every world. */
  ghost predicate Interchangeable(body: Body, w: InstId, v: ValueId) {
    && Attached(body, w) && v != InstValue(w)
    && (forall b, k: nat :: Reachable(body, b) && Before(body, w, b, k) ==> Available(body, v, b, k))
    && (forall W, b, k: nat, env: Env ::
         Reachable(body, b) && Before(body, w, b, k) && EquationsHold(W, body, b, k, env) ==>
          env[w] == Value(W, body.consts, v, env))
  }

  lemma InterchangeableAgrees(W: World, body: Body, w: InstId, v: ValueId)
    requires Interchangeable(body, w, v)
    ensures AgreesIn(W, body, w, v) && Follows(body, w, v)
  {
    hide Reachable, Before, EquationsHold, EnvTyped, Typed;
  }

  lemma ArgsSubst(kind: InstKind, from: ValueId, to: ValueId)
    requires !kind.Phi?
    ensures Args(Subst(kind, from, to)) == SwapAll(Args(kind), from, to)
  {
    hide Swap;
    match kind {
      case GetElementPtr(_, base, indices) =>
        var all := SwapAll([base] + indices, from, to);
        assert all[0] == Swap(base, from, to) && all[1..] == SwapAll(indices, from, to);
      case Binary(_, lhs, rhs) => assert SwapAll([lhs, rhs], from, to) == [Swap(lhs, from, to), Swap(rhs, from, to)];
      case ICmp(_, lhs, rhs) => assert SwapAll([lhs, rhs], from, to) == [Swap(lhs, from, to), Swap(rhs, from, to)];
      case Store(a, b) => assert SwapAll([a, b], from, to) == [Swap(a, from, to), Swap(b, from, to)];
      case Select(a, b, c) => assert SwapAll([a, b, c], from, to)
        == [Swap(a, from, to), Swap(b, from, to), Swap(c, from, to)];
      case _ =>
    }
  }

  lemma OperatorSubst(i: InstId, d: InstData, from: ValueId, to: ValueId)
    ensures OperatorOf(i, d.(kind := Subst(d.kind, from, to))) == OperatorOf(i, d)
    ensures IsPure(Subst(d.kind, from, to)) == IsPure(d.kind)
    ensures IsTerminator(Subst(d.kind, from, to)) == IsTerminator(d.kind)
    ensures Subst(d.kind, from, to).Phi? == d.kind.Phi?
  {
  }

  lemma SubstEdges(body: Body, from: ValueId, to: ValueId)
    ensures SameEdges(body, SubstituteAll(body, from, to))
  {
    var b := SubstituteAll(body, from, to);
    forall p, q ensures Edge(body, p, q) <==> Edge(b, p, q) {
    }
  }

  lemma SubstBefore(body: Body, from: ValueId, to: ValueId, o: InstId, b: BlockId, k: int)
    requires SameEdges(body, SubstituteAll(body, from, to))
    ensures Before(SubstituteAll(body, from, to), o, b, k) <==> Before(body, o, b, k)
  {
    SamePaths(body, SubstituteAll(body, from, to));
    hide Dominates, Edge, Subst;
  }

  /** Operand values are unchanged where w's exchange for v is sound. */
  lemma SubstArgVals(W: World, consts: seq<ConstData>, args: seq<ValueId>, w: InstId, v: ValueId, env: Env)
    requires InstValue(w) in args ==> env[w] == Value(W, consts, v, env)
    ensures Values(W, consts, SwapAll(args, InstValue(w), v), env) == Values(W, consts, args, env)
  {
    forall k | 0 <= k < |args|
      ensures Value(W, consts, SwapAll(args, InstValue(w), v)[k], env) == Value(W, consts, args[k], env)
    {
      assert args[k] in args;
    }
  }

  lemma SameArgVals(W: World, body: Body, i: InstId, w: InstId, v: ValueId, b: BlockId, k: nat, env: Env)
    requires AgreesIn(W, body, w, v) && Reachable(body, b) && KnownAt(W, body, b, k, env)
    requires Attached(body, i) && !body.insts[i].kind.Phi? && ArgsAvailable(body, i, b, k)
    ensures ArgVals(W, SubstituteAll(body, InstValue(w), v), i, env) == ArgVals(W, body, i, env)
  {
    hide KnownAt, Dominates, Reachable, Before, Args;
    ArgsSubst(body.insts[i].kind, InstValue(w), v);
    if InstValue(w) in Args(body.insts[i].kind) {
      assert Available(body, InstValue(w), b, k);
    }
    SubstArgVals(W, body.consts, Args(body.insts[i].kind), w, v, env);
  }

  lemma SubstStep(W: World, body: Body, obs: set<InstId>, w: InstId, v: ValueId, b: BlockId, k: nat, st: State)
    requires SSA(body) && AgreesIn(W, body, w, v) && b in body.blocks && Reachable(body, b)
    requires k < |body.blocks[b].insts|
    requires KnownAt(W, body, b, k, st.env)
    ensures StepInst(W, SubstituteAll(body, InstValue(w), v), obs, body.blocks[b].insts[k], st)
      == StepInst(W, body, obs, body.blocks[b].insts[k], st)
  {
    hide Perform, KnownAt, Dominates, Reachable, OperandsExist, Subst, PhiOk, AgreesIn, ArgVals, WellPlaced;
    var i := body.blocks[b].insts[k];
    assert BlockOk(body, b) && Contains(body.blocks[b], i);
    ListedHere(body, b, i);
    SameArgVals(W, body, i, w, v, b, k, st.env);
    OperatorSubst(i, body.insts[i], InstValue(w), v);
  }

  lemma {:induction false} SubstList(W: World, body: Body, obs: set<InstId>, w: InstId, v: ValueId, b: BlockId, k: nat,
                                     st: State)
    requires SSA(body) && AgreesIn(W, body, w, v) && b in body.blocks && Reachable(body, b)
    requires k <= |body.blocks[b].insts|
    requires KnownAt(W, body, b, 0, st.env)
    ensures ExecInsts(W, SubstituteAll(body, InstValue(w), v), obs, body.blocks[b].insts[..k], st)
      == StateAt(W, body, obs, b, k, st)
    decreases k
  {
    hide KnownAt, SSA, Reachable, StepInst, AgreesIn, SubstituteAll;
    if k > 0 {
      var list := body.blocks[b].insts;
      SubstList(W, body, obs, w, v, b, k - 1, st);
      assert list[..k][..k - 1] == list[..k - 1];
      BlockKeepsKnown(W, body, obs, b, k - 1, st);
      SubstStep(W, body, obs, w, v, b, k - 1, StateAt(W, body, obs, b, k - 1, st));
    }
  }

  lemma SubstLeave(W: World, body: Body, obs: set<InstId>, w: InstId, v: ValueId, b: BlockId, st: State)
    requires SSA(body) && AgreesIn(W, body, w, v) && b in body.blocks && Reachable(body, b)
    requires KnownAt(W, body, b, |body.blocks[b].insts|, st.env)
    ensures Leave(W, SubstituteAll(body, InstValue(w), v), obs, body.blocks[b].terminator, st)
      == Leave(W, body, obs, body.blocks[b].terminator, st)
  {
    hide KnownAt, Dominates, Reachable, OperandsExist, PhiOk, Truthy, AgreesIn, ArgVals, WellPlaced;
    var t := body.blocks[b].terminator;
    if t.Some? {
      assert BlockOk(body, b) && Contains(body.blocks[b], t.value);
      ListedHere(body, b, t.value);
      SameArgVals(W, body, t.value, w, v, b, |body.blocks[b].insts|, st.env);
      OperatorSubst(t.value, body.insts[t.value], InstValue(w), v);
    }
  }

  lemma SubstPhi(W: World, body: Body, w: InstId, v: ValueId, p: BlockId, b: BlockId, phi: InstId, env: Env)
    requires SSA(body) && AgreesIn(W, body, w, v) && b in body.blocks && Reachable(body, p) && Edge(body, p, b)
    requires KnownAt(W, body, p, |body.blocks[p].insts|, env) && phi in body.blocks[b].phis
    ensures PhiValue(W, SubstituteAll(body, InstValue(w), v), phi, p, env) == PhiValue(W, body, phi, p, env)
  {
    hide KnownAt, Dominates, Reachable, SSA, Edge, PhiValue, AgreesIn, Available, SubstituteAll;
    PhiListed(body, p, b, phi);
    var kind := body.insts[phi].kind;
    var idx :| HasIncoming(kind, idx, p);
    PhiValueIs(W, body, phi, p, idx, env);
    SubstEntries(body, w, v, phi, p);
    PhiValueIs(W, SubstituteAll(body, InstValue(w), v), phi, p, idx, env);
    assert Available(body, kind.incomings[idx].value, p, |body.blocks[p].insts|);
    SwapAgrees(W, body, w, v, p, kind.incomings[idx].value, env);
  }

  lemma PhiListed(body: Body, p: BlockId, b: BlockId, phi: InstId)
    requires SSA(body) && b in body.blocks && Reachable(body, p) && Edge(body, p, b) && phi in body.blocks[b].phis
    ensures Attached(body, phi) && body.insts[phi].kind.Phi? && PhiOk(body, phi, b) && p in body.blocks
  {
    ReachStep(body, p, b);
    hide Reachable, OperandsExist, PhiOk;
    assert BlockOk(body, b) && Contains(body.blocks[b], phi);
    ListedHere(body, b, phi);
  }

  /** Exchanging operands leaves a phi's entries where they are. */
  lemma SubstEntries(body: Body, w: InstId, v: ValueId, phi: InstId, p: BlockId)
    requires phi in body.insts && Attached(body, phi) && body.insts[phi].kind.Phi?
    ensures var body' := SubstituteAll(body, InstValue(w), v);
      && phi in body'.insts && body'.insts[phi].kind.Phi? && body'.consts == body.consts
      && (forall j :: HasIncoming(body'.insts[phi].kind, j, p) <==> HasIncoming(body.insts[phi].kind, j, p))
      && forall j :: HasIncoming(body.insts[phi].kind, j, p) ==>
           body'.insts[phi].kind.incomings[j].value == Swap(body.insts[phi].kind.incomings[j].value, InstValue(w), v)
  {
    var kind, kind' := body.insts[phi].kind, SubstituteAll(body, InstValue(w), v).insts[phi].kind;
    assert kind'.incomings.Keys == kind.incomings.Keys;
  }

  /** At a block's end the exchanged operand has the value the original has. */
  lemma SwapAgrees(W: World, body: Body, w: InstId, v: ValueId, p: BlockId, x: ValueId, env: Env)
    requires AgreesIn(W, body, w, v) && p in body.blocks && Reachable(body, p)
    requires KnownAt(W, body, p, |body.blocks[p].insts|, env)
    requires Available(body, x, p, |body.blocks[p].insts|)
    ensures Value(W, body.consts, Swap(x, InstValue(w), v), env) == Value(W, body.consts, x, env)
  {
    hide KnownAt, Reachable, Before;
  }

  lemma SubstPhis(W: World, body: Body, w: InstId, v: ValueId, p: BlockId, b: BlockId, env: Env)
    requires SSA(body) && AgreesIn(W, body, w, v) && b in body.blocks && Reachable(body, p) && Edge(body, p, b)
    requires KnownAt(W, body, p, |body.blocks[p].insts|, env)
    ensures PhiEnv(W, SubstituteAll(body, InstValue(w), v), body.blocks[b].phis, p, env)
      == PhiEnv(W, body, body.blocks[b].phis, p, env)
  {
    hide KnownAt, SSA, AgreesIn, Reachable, Edge, PhiValue, SubstituteAll;
    forall phi | phi in body.blocks[b].phis
      ensures PhiValue(W, SubstituteAll(body, InstValue(w), v), phi, p, env) == PhiValue(W, body, phi, p, env)
    {
      SubstPhi(W, body, w, v, p, b, phi, env);
    }
  }

  lemma SubstBlock(W: World, body: Body, obs: set<InstId>, w: InstId, v: ValueId, place: Place, st: State)
    requires SSA(body) && AgreesIn(W, body, w, v) && OnKnownCourse(W, body, place, st.env)
    ensures StepBlock(W, SubstituteAll(body, InstValue(w), v), obs, place, st) == StepBlock(W, body, obs, place, st)
  {
    hide KnownAt, SSA, AgreesIn, Reachable, Edge, PhiEnv, PhiTrace, StepInst, Leave;
    var body' := SubstituteAll(body, InstValue(w), v);
    if place.At? {
      var blk := body.blocks[place.b];
      if place.from.Some? {
        SubstPhis(W, body, w, v, place.from.value, place.b, st.env);
      }
      var st1 := EnterBlock(W, body, obs, blk.phis, place.from, st);
      EntersKnown(W, body, obs, place, st);
      SubstList(W, body, obs, w, v, place.b, |blk.insts|, st1);
      BlockKeepsKnown(W, body, obs, place.b, |blk.insts|, st1);
      assert blk.insts[..|blk.insts|] == blk.insts;
      SubstLeave(W, body, obs, w, v, place.b, StateAt(W, body, obs, place.b, |blk.insts|, st1));
    }
  }

  lemma {:induction false} SubstRuns(W: World, body: Body, obs: set<InstId>, w: InstId, v: ValueId, mem: Memory, n: nat)
    requires SSA(body) && AgreesIn(W, body, w, v)
    ensures Execute(W, SubstituteAll(body, InstValue(w), v), obs, mem, n) == Execute(W, body, obs, mem, n)
  {
    hide SSA, AgreesIn, OnKnownCourse, StepBlock, SubstituteAll;
    assert SubstituteAll(body, InstValue(w), v).entry == body.entry by { SubstEdges(body, InstValue(w), v); }
    if n > 0 {
      SubstRuns(W, body, obs, w, v, mem, n - 1);
      SsaKnown(W, body, obs, mem, n - 1);
      var (place, st) := Execute(W, body, obs, mem, n - 1);
      SubstBlock(W, body, obs, w, v, place, st);
    }
  }

  /** Exchanging an instruction for a value it always equals changes no run. */
  lemma SubstLockstep(body: Body, obs: set<InstId>, w: InstId, v: ValueId)
    requires SSA(body) && Interchangeable(body, w, v)
    ensures Lockstep(body, SubstituteAll(body, InstValue(w), v), obs)
  {
    hide SSA, Interchangeable, Execute;
    forall W, mem, n: nat
      ensures SameSoFar(Execute(W, body, obs, mem, n), Execute(W, SubstituteAll(body, InstValue(w), v), obs, mem, n))
    {
      InterchangeableAgrees(W, body, w, v);
      SubstRuns(W, body, obs, w, v, mem, n);
    }
  }

  lemma SubAllMember(args: seq<ValueId>, from: ValueId, to: ValueId, x: ValueId)
    requires x in SwapAll(args, from, to)
    ensures (x in args && x != from) || (x == to && from in args)
  {
    var k :| 0 <= k < |args| && SwapAll(args, from, to)[k] == x;
    assert args[k] in args;
  }

  lemma SubstArgsAvailable(body: Body, w: InstId, v: ValueId, i: InstId, b: BlockId, k: nat)
    requires Follows(body, w, v) && Reachable(body, b) && Attached(body, i) && !body.insts[i].kind.Phi?
    requires ArgsAvailable(body, i, b, k)
    requires SameEdges(body, SubstituteAll(body, InstValue(w), v))
    ensures ArgsAvailable(SubstituteAll(body, InstValue(w), v), i, b, k)
  {
    hide Dominates, Reachable, Edge, Subst, Before, EquationsHold;
    var body' := SubstituteAll(body, InstValue(w), v);
    ArgsSubst(body.insts[i].kind, InstValue(w), v);
    forall x | x in Args(body'.insts[i].kind) ensures Available(body', x, b, k) {
      SubAllMember(Args(body.insts[i].kind), InstValue(w), v, x);
      assert InstValue(w) in Args(body.insts[i].kind) ==> Available(body, InstValue(w), b, k);
      if x.InstValue? {
        SubstBefore(body, InstValue(w), v, x.inst, b, k);
      }
    }
  }

  lemma SubstPhiOk(body: Body, w: InstId, v: ValueId, i: InstId, b: BlockId)
    requires Follows(body, w, v) && Attached(body, i) && PhiOk(body, i, b) && body.insts[i].kind.Phi?
    requires SameEdges(body, SubstituteAll(body, InstValue(w), v))
    ensures PhiOk(SubstituteAll(body, InstValue(w), v), i, b)
  {
    var body' := SubstituteAll(body, InstValue(w), v);
    SamePaths(body, body');
    hide Dominates, Reachable, Before, EquationsHold;
    var kind, kind' := body.insts[i].kind, body'.insts[i].kind;
    assert kind'.incomings.Keys == kind.incomings.Keys;
    forall p | Reachable(body', p) && Edge(body', p, b)
      ensures exists idx :: HasIncoming(kind', idx, p)
      ensures forall idx, idx' :: HasIncoming(kind', idx, p) && HasIncoming(kind', idx', p) ==> idx == idx'
      ensures forall idx :: HasIncoming(kind', idx, p) ==>
        Available(body', kind'.incomings[idx].value, p, |body'.blocks[p].insts|)
    {
      assert Reachable(body, p) && Edge(body, p, b);
      hide Edge;
      assert forall idx :: HasIncoming(kind', idx, p) <==> HasIncoming(kind, idx, p);
      forall idx | HasIncoming(kind', idx, p)
        ensures Available(body', kind'.incomings[idx].value, p, |body'.blocks[p].insts|)
      {
        assert Available(body, kind.incomings[idx].value, p, |body.blocks[p].insts|);
        var x := kind'.incomings[idx].value;
        if x.InstValue? {
          SubstBefore(body, InstValue(w), v, x.inst, p, |body.blocks[p].insts|);
        }
      }
    }
  }

  lemma SubstBlockOk(body: Body, w: InstId, v: ValueId, b: BlockId)
    requires WellPlaced(body) && Follows(body, w, v) && b in body.blocks && Reachable(body, b) && BlockOk(body, b)
    requires SameEdges(body, SubstituteAll(body, InstValue(w), v))
    ensures BlockOk(SubstituteAll(body, InstValue(w), v), b)
  {
    hide ArgsAvailable, PhiOk, Follows, SameEdges, Reachable, OperandsExist;
    var body' := SubstituteAll(body, InstValue(w), v);
    var blk := body.blocks[b];
    forall i | i in blk.phis ensures i in body'.insts && PhiOk(body', i, b) {
      assert Contains(blk, i);
      SubstPhiOk(body, w, v, i, b);
    }
    forall k | 0 <= k < |blk.insts| ensures blk.insts[k] in body'.insts && ArgsAvailable(body', blk.insts[k], b, k) {
      assert Contains(blk, blk.insts[k]);
      SubstArgsAvailable(body, w, v, blk.insts[k], b, k);
    }
    if blk.terminator.Some? {
      assert Contains(blk, blk.terminator.value);
      SubstArgsAvailable(body, w, v, blk.terminator.value, b, |blk.insts|);
    }
  }

  lemma SubstPlaced(body: Body, from: ValueId, to: ValueId)
    requires WellPlaced(body) && Knows(body, to)
    ensures WellPlaced(SubstituteAll(body, from, to))
  {
    hide ValueOperands, BlockOperands, Subst, IsTerminator;
    var body' := SubstituteAll(body, from, to);
    assert forall v :: Knows(body', v) <==> Knows(body, v);
    forall i | Attached(body', i) ensures WellHeld(body', i) {
      assert WellHeld(body, i);
      SubstExact(body.insts[i].kind, from, to);
      OperatorSubst(i, body.insts[i], from, to);
    }
    hide OperandsExist, Knows;
    forall b, i | b in body'.blocks && Contains(body'.blocks[b], i)
      ensures i in body'.insts && body'.insts[i].parent == Some(b) && Lists(body'.blocks[b], body'.insts[i].kind, i)
    {
      assert Contains(body.blocks[b], i);
      OperatorSubst(i, body.insts[i], from, to);
    }
  }

  /** The substituted body is still in SSA form. */
  lemma FollowsSSA(body: Body, w: InstId, v: ValueId)
    requires SSA(body) && Follows(body, w, v) && Knows(body, v)
    ensures SSA(SubstituteAll(body, InstValue(w), v))
  {
    var body' := SubstituteAll(body, InstValue(w), v);
    SubstPlaced(body, InstValue(w), v);
    SubstEdges(body, InstValue(w), v);
    SamePaths(body, body');
    hide WellPlaced, Follows, SameEdges, Reachable, BlockOk, Dominates;
    forall b | b in body'.blocks && Reachable(body', b) ensures BlockOk(body', b) {
      assert Reachable(body, b);
      SubstBlockOk(body, w, v, b);
    }
  }

  lemma SubstSSA(body: Body, w: InstId, v: ValueId)
    requires SSA(body) && Interchangeable(body, w, v) && Knows(body, v)
    ensures SSA(SubstituteAll(body, InstValue(w), v))
  {
    assert Follows(body, w, v) by { hide Reachable, Before; }
    hide SSA, Interchangeable, Follows;
    FollowsSSA(body, w, v);
  }

  /** An agreeing phi can be exchanged for the value its entries agree on. */
  lemma UniformInterchangeable(body: Body, phi: InstId, v: ValueId)
    requires SSA(body) && Attached(body, phi) && Uniform(body.insts[phi].kind)
    requires Reachable(body, body.insts[phi].parent.value)
    requires exists idx :: idx in body.insts[phi].kind.incomings && body.insts[phi].kind.incomings[idx].value == v
    ensures Interchangeable(body, phi, v)
  {
    hide Reachable, WellPlaced, BlockOk;
    var kind := body.insts[phi].kind;
    assert Mentions(kind, v);
    var idx :| idx in kind.incomings && kind.incomings[idx].value == v;
    if v.InstValue? {
      UniformFromAbove(body, phi, v.inst);
      forall b, k: nat | Reachable(body, b) && Before(body, phi, b, k) ensures Available(body, v, b, k) {
        AboveIsBefore(body, v.inst, phi, b, k);
      }
    }
    assert IsEquation(body, phi);
    forall W, b, k: nat, env: Env | Reachable(body, b) && Before(body, phi, b, k) && EquationsHold(W, body, b, k, env)
      ensures env[phi] == Value(W, body.consts, v, env)
    {
      assert Holds(W, body, phi, env);
    }
  }

  /** A definition strictly above another is available wherever the other is. */
  lemma AboveIsBefore(body: Body, o: InstId, d: InstId, b: BlockId, k: nat)
    requires SSA(body) && Reachable(body, b) && Before(body, d, b, k) && Attached(body, o) && Attached(body, d)
    requires body.insts[o].parent.value != body.insts[d].parent.value
    requires Dominates(body, body.insts[o].parent.value, body.insts[d].parent.value)
    ensures Before(body, o, b, k)
  {
    var ho, hd := body.insts[o].parent.value, body.insts[d].parent.value;
    if hd != b {
      DominatesTransitive(body, ho, hd, b);
      if ho == b {
        var path :| PathTo(body, path, b);
        NoMutualDominance(body, hd, b, path);
      }
    }
    hide SSA, Dominates, Reachable;
  }
}
