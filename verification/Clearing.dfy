/** Dropping instructions that have no effect and whose results nobody reads
    (the erasures of src/ir/opt/dce.rs, global_gvn.rs, algebraic.rs and cfg_simpilfy.rs). */
module Clearing {
  import opened Sequences
  import opened CoreInts
  import opened Ir
  import opened UseLists
  import opened Semantics
  import opened Ssa
  import opened Rewrites

  function WithoutAll(list: seq<InstId>, gone: set<InstId>): (r: seq<InstId>)
    ensures forall x :: x in r <==> x in list && x !in gone
    ensures |r| <= |list|
  {
    if list == [] then []
    else
      var i := list[|list| - 1];
      assert list == list[..|list| - 1] + [i];
      WithoutAll(list[..|list| - 1], gone) + (if i in gone then [] else [i])
  }

  function ClearBlock(blk: BlockData, gone: set<InstId>): BlockData {
    BlockData(WithoutAll(blk.phis, gone), WithoutAll(blk.insts, gone), blk.terminator)
  }

  /** Instructions a pass may drop when nobody reads them: no store, call or terminator. */
  predicate Droppable(kind: InstKind) {
    !kind.Call? && !kind.Store? && !IsTerminator(kind)
  }

  /** No remaining instruction has one of these as an operand, and none of them has an effect. */
  ghost predicate Unread(body: Body, gone: set<InstId>) {
    && (forall i :: i in gone && i in body.insts ==> Droppable(body.insts[i].kind))
    && (forall i, s :: Attached(body, i) && i !in gone && s in ValueOperands(body.insts[i].kind) ==>
          !IsGone(ValueOperands(body.insts[i].kind)[s], gone))
  }

  predicate IsGone(v: ValueId, gone: set<InstId>) {
    v.InstValue? && v.inst in gone
  }

  /** b is a without those instructions; constants may have been added. */
  ghost predicate Cleared(a: Body, b: Body, gone: set<InstId>) {
    && b.entry == a.entry && b.order == a.order && b.numArgs == a.numArgs && b.numGlobals == a.numGlobals
    && a.consts <= b.consts
    && b.blocks == (map c | c in a.blocks :: ClearBlock(a.blocks[c], gone))
    && b.insts.Keys == a.insts.Keys - gone
    && forall i :: i in b.insts ==> b.insts[i] == a.insts[i]
  }

  // ---------------------------------------------------------------- simulation

  ghost predicate AgreeOutside(gone: set<InstId>, e: Env, f: Env) {
    forall i: InstId :: i !in gone ==> e[i] == f[i]
  }

  /** Same place, memory and observations; same values outside the dropped instructions. */
  ghost predicate Near(gone: set<InstId>, x: State, y: State) {
    x.mem == y.mem && x.trace == y.trace && AgreeOutside(gone, x.env, y.env)
  }

  lemma OperandKept(a: Body, gone: set<InstId>, i: InstId, v: ValueId)
    requires WellPlaced(a) && Unread(a, gone) && Attached(a, i) && i !in gone
    requires !a.insts[i].kind.Phi? && v in Args(a.insts[i].kind)
    ensures Knows(a, v) && !IsGone(v, gone)
  {
    assert WellHeld(a, i);
    hide ValueOperands, Args, BlockOperands, WellPlaced;
    ArgsAreOperands(a.insts[i].kind, v);
    var s :| s in ValueOperands(a.insts[i].kind) && ValueOperands(a.insts[i].kind)[s] == v;
  }

  lemma SameValue(a: Body, b: Body, gone: set<InstId>, v: ValueId, W: World, e: Env, f: Env)
    requires a.consts <= b.consts && AgreeOutside(gone, e, f) && Knows(a, v) && !IsGone(v, gone)
    ensures Value(W, b.consts, v, f) == Value(W, a.consts, v, e)
  {
  }

  lemma KnownArgs(a: Body, b: Body, gone: set<InstId>, i: InstId, W: World, e: Env, f: Env)
    requires WellPlaced(a) && Unread(a, gone) && Cleared(a, b, gone) && AgreeOutside(gone, e, f)
    requires Attached(a, i) && i !in gone && !a.insts[i].kind.Phi?
    ensures ArgVals(W, b, i, f) == ArgVals(W, a, i, e)
  {
    var args := Args(a.insts[i].kind);
    hide WellPlaced, Args, Unread, Value;
    forall k | 0 <= k < |args| ensures Value(W, b.consts, args[k], f) == Value(W, a.consts, args[k], e) {
      OperandKept(a, gone, i, args[k]);
      SameValue(a, b, gone, args[k], W, e, f);
    }
  }

  lemma PerformNear(W: World, obs: set<InstId>, gone: set<InstId>, i: InstId, op: Operator, args: seq<Val>, x: State,
                    y: State)
    requires Near(gone, x, y)
    ensures Near(gone, Perform(W, obs, i, op, args, x), Perform(W, obs, i, op, args, y))
  {
    hide Apply;
  }

  lemma StepKept(W: World, a: Body, b: Body, obs: set<InstId>, gone: set<InstId>, i: InstId, x: State, y: State)
    requires WellPlaced(a) && Unread(a, gone) && Cleared(a, b, gone) && Near(gone, x, y)
    requires Attached(a, i) && i !in gone && !a.insts[i].kind.Phi?
    ensures Near(gone, StepInst(W, a, obs, i, x), StepInst(W, b, obs, i, y))
  {
    hide Perform, WellPlaced, Unread, ArgVals;
    KnownArgs(a, b, gone, i, W, x.env, y.env);
    PerformNear(W, obs, gone, i, OperatorOf(i, a.insts[i]), ArgVals(W, a, i, x.env), x, y);
  }

  lemma StepDropped(W: World, a: Body, obs: set<InstId>, gone: set<InstId>, i: InstId, x: State, y: State)
    requires Near(gone, x, y) && i in gone && i in a.insts && Droppable(a.insts[i].kind) && i !in obs
    ensures Near(gone, StepInst(W, a, obs, i, x), y)
  {
    hide Apply;
  }

  lemma {:induction false} ListNear(W: World, a: Body, b: Body, obs: set<InstId>, gone: set<InstId>, list: seq<InstId>,
                                    x: State, y: State)
    requires WellPlaced(a) && Unread(a, gone) && Cleared(a, b, gone) && obs !! gone && Near(gone, x, y)
    requires forall i :: i in list ==> Attached(a, i) && !a.insts[i].kind.Phi?
    ensures Near(gone, ExecInsts(W, a, obs, list, x), ExecInsts(W, b, obs, WithoutAll(list, gone), y))
    decreases |list|
  {
    hide WellPlaced, Cleared, Near, StepInst;
    if list != [] {
      var init, i := list[..|list| - 1], list[|list| - 1];
      ListNear(W, a, b, obs, gone, init, x, y);
      var x', y' := ExecInsts(W, a, obs, init, x), ExecInsts(W, b, obs, WithoutAll(init, gone), y);
      assert i in list;
      if i in gone {
        hide Droppable;
        StepDropped(W, a, obs, gone, i, x', y');
        assert WithoutAll(list, gone) == WithoutAll(init, gone);
      } else {
        StepKept(W, a, b, obs, gone, i, x', y');
        assert WithoutAll(list, gone)[..|WithoutAll(list, gone)| - 1] == WithoutAll(init, gone);
      }
    }
  }

  lemma IncomingKept(a: Body, gone: set<InstId>, phi: InstId, k: nat)
    requires WellPlaced(a) && Unread(a, gone) && Attached(a, phi) && phi !in gone && a.insts[phi].kind.Phi?
    requires k in a.insts[phi].kind.incomings
    ensures Knows(a, a.insts[phi].kind.incomings[k].value) && !IsGone(a.insts[phi].kind.incomings[k].value, gone)
  {
    assert WellHeld(a, phi);
    assert PhiIncomingVal(k) in ValueOperands(a.insts[phi].kind);
    assert ValueOperands(a.insts[phi].kind)[PhiIncomingVal(k)] == a.insts[phi].kind.incomings[k].value;
    hide ValueOperands, BlockOperands, WellPlaced;
  }

  lemma PhiNear(W: World, a: Body, b: Body, gone: set<InstId>, phi: InstId, p: BlockId, e: Env, f: Env)
    requires WellPlaced(a) && Unread(a, gone) && Cleared(a, b, gone) && AgreeOutside(gone, e, f)
    requires Attached(a, phi) && phi !in gone
    ensures PhiValue(W, b, phi, p, f) == PhiValue(W, a, phi, p, e)
  {
    if a.insts[phi].kind.Phi? {
      var incomings := a.insts[phi].kind.incomings;
      forall k | k in incomings
        ensures Value(W, b.consts, incomings[k].value, f) == Value(W, a.consts, incomings[k].value, e)
      {
        IncomingKept(a, gone, phi, k);
        SameValue(a, b, gone, incomings[k].value, W, e, f);
      }
      hide Value, WellPlaced, Unread;
    }
  }

  lemma {:induction false} PhiTraceNear(obs: set<InstId>, gone: set<InstId>, phis: seq<InstId>, e: Env, f: Env,
                                        trace: seq<Event>)
    requires obs !! gone && AgreeOutside(gone, e, f)
    ensures PhiTrace(obs, WithoutAll(phis, gone), f, trace) == PhiTrace(obs, phis, e, trace)
    decreases |phis|
  {
    if phis != [] {
      var init, i := phis[..|phis| - 1], phis[|phis| - 1];
      PhiTraceNear(obs, gone, init, e, f, trace);
      if i in gone {
        assert WithoutAll(phis, gone) == WithoutAll(init, gone);
      } else {
        assert WithoutAll(phis, gone)[..|WithoutAll(phis, gone)| - 1] == WithoutAll(init, gone);
      }
    }
  }

  lemma EnterNear(W: World, a: Body, b: Body, obs: set<InstId>, gone: set<InstId>, phis: seq<InstId>,
                  from: Option<BlockId>, x: State, y: State)
    requires WellPlaced(a) && Unread(a, gone) && Cleared(a, b, gone) && obs !! gone && Near(gone, x, y)
    requires forall i :: i in phis ==> Attached(a, i)
    ensures Near(gone, EnterBlock(W, a, obs, phis, from, x), EnterBlock(W, b, obs, WithoutAll(phis, gone), from, y))
  {
    hide WellPlaced, Unread, Cleared, PhiValue;
    if from.Some? {
      var p := from.value;
      var e, f := PhiEnv(W, a, phis, p, x.env), PhiEnv(W, b, WithoutAll(phis, gone), p, y.env);
      forall i: InstId | i !in gone ensures e[i] == f[i] {
        if i in phis {
          PhiNear(W, a, b, gone, i, p, x.env, y.env);
        }
      }
      PhiTraceNear(obs, gone, phis, e, f, x.trace);
    }
  }

  lemma LeaveNear(W: World, a: Body, b: Body, obs: set<InstId>, gone: set<InstId>, t: Option<InstId>, x: State,
                  y: State)
    requires WellPlaced(a) && Unread(a, gone) && Cleared(a, b, gone) && Near(gone, x, y)
    requires t.Some? ==> Attached(a, t.value) && IsTerminator(a.insts[t.value].kind)
    ensures var (ex, sx) := Leave(W, a, obs, t, x);
      var (ey, sy) := Leave(W, b, obs, t, y);
      ex == ey && Near(gone, sx, sy)
  {
    hide WellPlaced, Truthy, ArgVals;
    if t.Some? {
      assert t.value !in gone by { hide Cleared; assert t.value in gone ==> Droppable(a.insts[t.value].kind); }
      KnownArgs(a, b, gone, t.value, W, x.env, y.env);
    }
  }

  lemma BlockNear(W: World, a: Body, b: Body, obs: set<InstId>, gone: set<InstId>, place: Place, x: State, y: State)
    requires WellPlaced(a) && Unread(a, gone) && Cleared(a, b, gone) && obs !! gone && Near(gone, x, y)
    ensures var (px, sx) := StepBlock(W, a, obs, place, x);
      var (py, sy) := StepBlock(W, b, obs, place, y);
      px == py && Near(gone, sx, sy)
  {
    assert a.blocks.Keys == b.blocks.Keys;
    if place.At? && place.b in a.blocks {
      var blk := a.blocks[place.b];
      ListedKinds(a, place.b);
      assert b.blocks[place.b] == ClearBlock(blk, gone);
      hide WellPlaced, Unread, Cleared, Near, EnterBlock, ExecInsts, Leave;
      var x1, y1 := EnterBlock(W, a, obs, blk.phis, place.from, x),
        EnterBlock(W, b, obs, WithoutAll(blk.phis, gone), place.from, y);
      EnterNear(W, a, b, obs, gone, blk.phis, place.from, x, y);
      ListNear(W, a, b, obs, gone, blk.insts, x1, y1);
      LeaveNear(W, a, b, obs, gone, blk.terminator, ExecInsts(W, a, obs, blk.insts, x1),
        ExecInsts(W, b, obs, WithoutAll(blk.insts, gone), y1));
    }
  }

  lemma ListedKinds(a: Body, b: BlockId)
    requires WellPlaced(a) && b in a.blocks
    ensures forall i :: i in a.blocks[b].phis ==> Attached(a, i) && a.insts[i].kind.Phi? && a.insts[i].parent == Some(b)
    ensures forall i :: i in a.blocks[b].insts ==>
      Attached(a, i) && !a.insts[i].kind.Phi? && !IsTerminator(a.insts[i].kind) && a.insts[i].parent == Some(b)
    ensures a.blocks[b].terminator.Some? ==> var t := a.blocks[b].terminator.value;
      Attached(a, t) && IsTerminator(a.insts[t].kind) && a.insts[t].parent == Some(b)
  {
    hide OperandsExist, IsTerminator;
    assert forall i :: i in a.blocks[b].phis ==> Contains(a.blocks[b], i);
    assert forall i :: i in a.blocks[b].insts ==> Contains(a.blocks[b], i);
    assert a.blocks[b].terminator.Some? ==> Contains(a.blocks[b], a.blocks[b].terminator.value);
  }

  lemma {:induction false} ExecuteNear(W: World, a: Body, b: Body, obs: set<InstId>, gone: set<InstId>, mem: Memory,
                                       n: nat)
    requires WellPlaced(a) && Unread(a, gone) && Cleared(a, b, gone) && obs !! gone
    ensures var (px, sx) := Execute(W, a, obs, mem, n);
      var (py, sy) := Execute(W, b, obs, mem, n);
      px == py && Near(gone, sx, sy)
  {
    hide WellPlaced, Unread, StepBlock;
    if n > 0 {
      ExecuteNear(W, a, b, obs, gone, mem, n - 1);
      hide Cleared, Near;
      var (px, sx) := Execute(W, a, obs, mem, n - 1);
      var (py, sy) := Execute(W, b, obs, mem, n - 1);
      BlockNear(W, a, b, obs, gone, px, sx, sy);
    }
  }

  /** Dropping effect-free instructions nobody reads changes nothing the others do. */
  lemma ClearedLockstep(a: Body, b: Body, obs: set<InstId>, gone: set<InstId>)
    requires WellPlaced(a) && Unread(a, gone) && Cleared(a, b, gone) && obs !! gone
    ensures Lockstep(a, b, obs)
  {
    hide WellPlaced, Unread, Cleared, Execute;
    forall W, mem, n: nat ensures SameSoFar(Execute(W, a, obs, mem, n), Execute(W, b, obs, mem, n)) {
      ExecuteNear(W, a, b, obs, gone, mem, n);
    }
  }

  // ---------------------------------------------------------------- the cleared body is well formed

  lemma {:induction false} WithoutAllDistinct(list: seq<InstId>, gone: set<InstId>)
    requires Distinct(list)
    ensures Distinct(WithoutAll(list, gone))
    decreases |list|
  {
    if list != [] {
      var init, i := list[..|list| - 1], list[|list| - 1];
      assert Distinct(init);
      WithoutAllDistinct(init, gone);
      assert i !in init;
    }
  }

  /** Where the kept element k' of a filtered list was before filtering. */
  lemma {:induction false} OldPosition(list: seq<InstId>, gone: set<InstId>, k': nat) returns (k: nat)
    requires k' < |WithoutAll(list, gone)|
    ensures k < |list| && list[k] == WithoutAll(list, gone)[k']
    ensures WithoutAll(list[..k], gone) == WithoutAll(list, gone)[..k']
    decreases |list|
  {
    hide WithoutAll;
    WithoutAllLast(list, gone);
    var init, i := list[..|list| - 1], list[|list| - 1];
    var all, r := WithoutAll(list, gone), WithoutAll(init, gone);
    if k' < |r| {
      k := OldPosition(init, gone, k');
      assert init[..k] == list[..k];
      assert all[..k'] == r[..k'];
    } else {
      k := |list| - 1;
      assert all[..k'] == r;
    }
  }

  lemma WithoutAllLast(list: seq<InstId>, gone: set<InstId>)
    ensures list == [] ==> WithoutAll(list, gone) == []
    ensures list != [] ==> var i := list[|list| - 1];
      WithoutAll(list, gone)
      == WithoutAll(list[..|list| - 1], gone) + (if i in gone then [] else [i])
  {
  }

  lemma ClearedEdges(a: Body, b: Body, gone: set<InstId>)
    requires WellPlaced(a) && Unread(a, gone) && Cleared(a, b, gone)
    ensures SameEdges(a, b)
  {
    forall p, q ensures Edge(a, p, q) <==> Edge(b, p, q) {
      if p in a.blocks {
        ListedKinds(a, p);
        hide WellPlaced;
        var t := a.blocks[p].terminator;
        if t.Some? {
          TerminatorKept(a, gone, t.value);
        }
      }
    }
  }

  lemma TerminatorKept(a: Body, gone: set<InstId>, t: InstId)
    requires Unread(a, gone) && t in a.insts && IsTerminator(a.insts[t].kind)
    ensures t !in gone
  {
    assert t in gone ==> Droppable(a.insts[t].kind);
  }

  lemma ClearedShape(a: Body, b: Body, gone: set<InstId>)
    requires Cleared(a, b, gone)
    ensures b.blocks.Keys == a.blocks.Keys && b.order == a.order && b.entry == a.entry
    ensures forall c :: c in a.blocks ==> b.blocks[c] == ClearBlock(a.blocks[c], gone)
  {
  }

  lemma ClearedListed(a: Body, b: Body, gone: set<InstId>, c: BlockId, i: InstId)
    requires WellPlaced(a) && Unread(a, gone) && Cleared(a, b, gone) && c in b.blocks && Contains(b.blocks[c], i)
    ensures i in b.insts && b.insts[i].parent == Some(c) && Lists(b.blocks[c], b.insts[i].kind, i)
  {
    assert Contains(a.blocks[c], i);
    ListedKinds(a, c);
    hide WellPlaced, Unread, IsTerminator;
    if a.blocks[c].terminator == Some(i) {
      TerminatorKept(a, gone, i);
      TerminatorIsNoPhi(a.insts[i].kind);
    }
  }

  lemma ClearedHeld(a: Body, b: Body, gone: set<InstId>, i: InstId)
    requires WellPlaced(a) && Unread(a, gone) && Cleared(a, b, gone) && Attached(b, i)
    ensures WellHeld(b, i)
  {
    assert WellHeld(a, i);
    hide WellPlaced, OperandsExist, IsTerminator;
    ClearedOperands(a, b, gone, i);
  }

  lemma ClearedPlaced(a: Body, b: Body, gone: set<InstId>)
    requires WellPlaced(a) && Unread(a, gone) && Cleared(a, b, gone)
    ensures WellPlaced(b)
  {
    hide ValueOperands, BlockOperands, IsTerminator, Unread, OperandsExist, Cleared;
    assert b.blocks.Keys == a.blocks.Keys && b.order == a.order && b.entry == a.entry by { ClearedShape(a, b, gone); }
    forall c, i | c in b.blocks && Contains(b.blocks[c], i)
      ensures i in b.insts && b.insts[i].parent == Some(c) && Lists(b.blocks[c], b.insts[i].kind, i)
    {
      ClearedListed(a, b, gone, c, i);
    }
    forall i | Attached(b, i) ensures WellHeld(b, i) {
      ClearedHeld(a, b, gone, i);
    }
    forall c | c in b.blocks ensures Distinct(b.blocks[c].phis) && Distinct(b.blocks[c].insts) {
      ClearedShape(a, b, gone);
      WithoutAllDistinct(a.blocks[c].phis, gone);
      WithoutAllDistinct(a.blocks[c].insts, gone);
    }
  }

  lemma ClearedOperands(a: Body, b: Body, gone: set<InstId>, i: InstId)
    requires Unread(a, gone) && Cleared(a, b, gone) && Attached(b, i) && OperandsExist(a, i)
    ensures OperandsExist(b, i)
  {
    hide ValueOperands, BlockOperands;
    forall s | s in ValueOperands(b.insts[i].kind) ensures Knows(b, ValueOperands(b.insts[i].kind)[s]) {
      assert Knows(a, ValueOperands(a.insts[i].kind)[s]);
      assert !IsGone(ValueOperands(a.insts[i].kind)[s], gone);
    }
  }

  lemma ClearedBefore(a: Body, b: Body, gone: set<InstId>, o: InstId, c: BlockId, k: nat, k': nat)
    requires Cleared(a, b, gone) && SameEdges(a, b) && Before(a, o, c, k) && o !in gone
    requires k <= |a.blocks[c].insts| && k' <= |b.blocks[c].insts|
    requires WithoutAll(a.blocks[c].insts[..k], gone) == b.blocks[c].insts[..k']
    ensures Before(b, o, c, k')
  {
    SamePaths(a, b);
    hide Edge, Dominates;
    if a.insts[o].parent.value == c && o !in a.blocks[c].phis {
      var j :| 0 <= j < k && j < |a.blocks[c].insts| && a.blocks[c].insts[j] == o;
      assert o in a.blocks[c].insts[..k];
      assert o in b.blocks[c].insts[..k'];
    }
  }

  lemma ClearedArgs(a: Body, b: Body, gone: set<InstId>, i: InstId, c: BlockId, k: nat, k': nat)
    requires Unread(a, gone) && Cleared(a, b, gone) && SameEdges(a, b) && Attached(a, i) && i !in gone
    requires !a.insts[i].kind.Phi?
    requires c in a.blocks && k <= |a.blocks[c].insts| && k' <= |b.blocks[c].insts|
    requires WithoutAll(a.blocks[c].insts[..k], gone) == b.blocks[c].insts[..k'] && ArgsAvailable(a, i, c, k)
    ensures ArgsAvailable(b, i, c, k')
  {
    hide ValueOperands, Args, SameEdges, Before;
    forall v | v in Args(b.insts[i].kind) ensures Available(b, v, c, k') {
      ArgsAreOperands(a.insts[i].kind, v);
      var s :| s in ValueOperands(a.insts[i].kind) && ValueOperands(a.insts[i].kind)[s] == v;
      assert !IsGone(v, gone);
      assert Available(a, v, c, k);
      if v.InstValue? {
        ClearedBefore(a, b, gone, v.inst, c, k, k');
      }
    }
  }

  lemma EdgeFrom(body: Body, p: BlockId, c: BlockId)
    requires Edge(body, p, c)
    ensures p in body.blocks
  {
  }

  lemma EntryStays(a: Body, gone: set<InstId>, i: InstId, idx: nat)
    requires Unread(a, gone) && Attached(a, i) && i !in gone && a.insts[i].kind.Phi? && idx in a.insts[i].kind.incomings
    ensures !IsGone(a.insts[i].kind.incomings[idx].value, gone)
  {
    assert ValueOperands(a.insts[i].kind)[PhiIncomingVal(idx)] == a.insts[i].kind.incomings[idx].value;
  }

  /** What was available at the end of a block still is. */
  lemma StillAvailable(a: Body, b: Body, gone: set<InstId>, v: ValueId, p: BlockId)
    requires Cleared(a, b, gone) && SameEdges(a, b) && p in a.blocks && Available(a, v, p, |a.blocks[p].insts|)
    requires !IsGone(v, gone)
    ensures p in b.blocks && Available(b, v, p, |b.blocks[p].insts|)
  {
    hide Before, WithoutAll, Edge;
    var list, list' := a.blocks[p].insts, b.blocks[p].insts;
    assert list[..|list|] == list && list'[..|list'|] == list';
    if v.InstValue? {
      ClearedBefore(a, b, gone, v.inst, p, |list|, |list'|);
    }
  }

  lemma ClearedPhiOk(a: Body, b: Body, gone: set<InstId>, i: InstId, c: BlockId)
    requires Unread(a, gone) && Cleared(a, b, gone) && SameEdges(a, b) && Attached(a, i) && i !in gone
    requires a.insts[i].kind.Phi? && PhiOk(a, i, c)
    ensures PhiOk(b, i, c)
  {
    hide Dominates, Reachable, Before, Edge, WithoutAll, ValueOperands, IsGone;
    SamePaths(a, b);
    var kind := a.insts[i].kind;
    forall p | Edge(b, p, c) ensures p in b.blocks {
      EdgeFrom(b, p, c);
    }
    forall p | Reachable(b, p) && Edge(b, p, c)
      ensures exists idx :: HasIncoming(kind, idx, p)
      ensures forall idx, idx' :: HasIncoming(kind, idx, p) && HasIncoming(kind, idx', p) ==> idx == idx'
      ensures forall idx :: HasIncoming(kind, idx, p) ==>
        Available(b, kind.incomings[idx].value, p, |b.blocks[p].insts|)
    {
      assert Reachable(a, p) && Edge(a, p, c);
      EdgeFrom(a, p, c);
      forall idx | HasIncoming(kind, idx, p) ensures Available(b, kind.incomings[idx].value, p, |b.blocks[p].insts|) {
        assert Available(a, kind.incomings[idx].value, p, |a.blocks[p].insts|);
        EntryStays(a, gone, i, idx);
        StillAvailable(a, b, gone, kind.incomings[idx].value, p);
      }
    }
  }

  lemma ClearedKeeps(a: Body, b: Body, gone: set<InstId>, i: InstId)
    requires Cleared(a, b, gone) && i in a.insts && i !in gone
    ensures i in b.insts && b.insts[i] == a.insts[i]
  {
  }

  lemma ClearedInstOk(a: Body, b: Body, gone: set<InstId>, c: BlockId, k': nat)
    requires WellPlaced(a) && Unread(a, gone) && Cleared(a, b, gone) && SameEdges(a, b) && c in a.blocks
    requires c in b.blocks && BlockOk(a, c)
    requires k' < |b.blocks[c].insts|
    ensures b.blocks[c].insts[k'] in b.insts && ArgsAvailable(b, b.blocks[c].insts[k'], c, k')
  {
    ListedKinds(a, c);
    ClearedShape(a, b, gone);
    hide WellPlaced, SameEdges, ArgsAvailable, PhiOk, IsTerminator, Unread, Cleared;
    var k := OldPosition(a.blocks[c].insts, gone, k');
    var i := a.blocks[c].insts[k];
    assert i == b.blocks[c].insts[k'] && i in WithoutAll(a.blocks[c].insts, gone);
    ClearedKeeps(a, b, gone, i);
    ClearedArgs(a, b, gone, i, c, k, k');
  }

  lemma ClearedTermOk(a: Body, b: Body, gone: set<InstId>, c: BlockId)
    requires WellPlaced(a) && Unread(a, gone) && Cleared(a, b, gone) && SameEdges(a, b) && c in a.blocks
    requires c in b.blocks && BlockOk(a, c)
    requires a.blocks[c].terminator.Some?
    ensures b.blocks[c].terminator == a.blocks[c].terminator
    ensures b.blocks[c].terminator.value in b.insts
    ensures ArgsAvailable(b, b.blocks[c].terminator.value, c, |b.blocks[c].insts|)
  {
    ListedKinds(a, c);
    ClearedShape(a, b, gone);
    hide WellPlaced, SameEdges, ArgsAvailable, PhiOk, IsTerminator, Unread, Cleared;
    var t := a.blocks[c].terminator.value;
    var list, list' := a.blocks[c].insts, b.blocks[c].insts;
    TerminatorKept(a, gone, t);
    TerminatorIsNoPhi(a.insts[t].kind);
    ClearedKeeps(a, b, gone, t);
    assert list[..|list|] == list && list'[..|list'|] == list';
    ClearedArgs(a, b, gone, t, c, |list|, |list'|);
  }

  lemma ClearedBlockOk(a: Body, b: Body, gone: set<InstId>, c: BlockId)
    requires WellPlaced(a) && Unread(a, gone) && Cleared(a, b, gone) && SameEdges(a, b) && c in a.blocks
    requires BlockOk(a, c)
    ensures BlockOk(b, c)
  {
    hide WellPlaced, SameEdges, ArgsAvailable, PhiOk, IsTerminator, Unread, Cleared, WithoutAll;
    ListedKinds(a, c);
    ClearedShape(a, b, gone);
    forall i | i in b.blocks[c].phis ensures i in b.insts && PhiOk(b, i, c) {
      assert i in b.insts by { ClearedKeeps(a, b, gone, i); }
      ClearedPhiOk(a, b, gone, i, c);
    }
    forall k' | 0 <= k' < |b.blocks[c].insts|
      ensures b.blocks[c].insts[k'] in b.insts && ArgsAvailable(b, b.blocks[c].insts[k'], c, k')
    {
      ClearedInstOk(a, b, gone, c, k');
    }
    if a.blocks[c].terminator.Some? {
      ClearedTermOk(a, b, gone, c);
    }
  }

  /** The cleared body is still in SSA form. */
  lemma ClearedSSA(a: Body, b: Body, gone: set<InstId>)
    requires SSA(a) && Unread(a, gone) && Cleared(a, b, gone)
    ensures SSA(b)
  {
    ClearedPlaced(a, b, gone);
    ClearedEdges(a, b, gone);
    SamePaths(a, b);
    hide WellPlaced, Unread, SameEdges, Reachable, BlockOk, Dominates, Edge;
    forall c | c in b.blocks && Reachable(b, c) ensures BlockOk(b, c) {
      assert c in a.blocks && Reachable(a, c);
      ClearedBlockOk(a, b, gone, c);
    }
  }

  // ---------------------------------------------------------------- erasing one instruction

  lemma {:induction false} WithoutIsWithoutAll(list: seq<InstId>, i: InstId)
    ensures Without(list, i) == WithoutAll(list, {i})
    decreases |list|
  {
    if list != [] {
      WithoutIsWithoutAll(list[..|list| - 1], i);
      WithoutSnoc(list[..|list| - 1], list[|list| - 1], i);
      assert list == list[..|list| - 1] + [list[|list| - 1]];
    }
  }

  lemma {:induction false} WithoutSnoc(list: seq<InstId>, x: InstId, i: InstId)
    ensures Without(list + [x], i) == Without(list, i) + (if x == i then [] else [x])
    decreases |list|
  {
    if list == [] {
      assert (list + [x])[1..] == [];
    } else {
      assert (list + [x])[1..] == list[1..] + [x];
      WithoutSnoc(list[1..], x, i);
    }
  }

  lemma {:induction false} WithoutAllAbsent(list: seq<InstId>, gone: set<InstId>)
    requires forall x :: x in list ==> x !in gone
    ensures WithoutAll(list, gone) == list
    decreases |list|
  {
    if list != [] {
      var init, i := list[..|list| - 1], list[|list| - 1];
      assert list == init + [i];
      assert i in list;
      WithoutAllAbsent(init, gone);
    }
  }

  lemma {:induction false} TwiceWithout(list: seq<InstId>, gone: set<InstId>, i: InstId)
    ensures Without(WithoutAll(list, gone), i) == WithoutAll(list, gone + {i})
    decreases |list|
  {
    if list != [] {
      var init, x := list[..|list| - 1], list[|list| - 1];
      TwiceWithout(init, gone, i);
      var r := WithoutAll(init, gone);
      WithoutSnoc(r, x, i);
      assert Without(r, i) + [] == Without(r, i) && r + [] == r;
    }
  }

  lemma EraseClearsBlock(body: Body, i: InstId, c: BlockId)
    requires WellPlaced(body) && Attached(body, i) && Droppable(body.insts[i].kind) && c in body.blocks
    ensures c in Erase(body, i).blocks && Erase(body, i).blocks[c] == ClearBlock(body.blocks[c], {i})
  {
    hide WellPlaced, Droppable, Without, WithoutAll;
    var blk := body.blocks[c];
    HeldAtHome(body, i, c);
    if c == body.insts[i].parent.value {
      WithoutIsWithoutAll(blk.phis, i);
      WithoutIsWithoutAll(blk.insts, i);
    } else {
      WithoutAllAbsent(blk.phis, {i});
      WithoutAllAbsent(blk.insts, {i});
    }
  }

  /** An instruction that can be dropped is no terminator, and listed in its own block only. */
  lemma HeldAtHome(body: Body, i: InstId, c: BlockId)
    requires WellPlaced(body) && Attached(body, i) && Droppable(body.insts[i].kind) && c in body.blocks
    ensures body.insts[i].parent.value in body.blocks && body.blocks[c].terminator != Some(i)
    ensures c != body.insts[i].parent.value ==> i !in body.blocks[c].phis && i !in body.blocks[c].insts
  {
    hide OperandsExist;
    assert WellHeld(body, i);
    if Contains(body.blocks[c], i) {
      assert body.insts[i].parent == Some(c);
    }
  }

  /** Erasing one instruction is clearing it. */
  lemma EraseClears(body: Body, i: InstId)
    requires WellPlaced(body) && Attached(body, i) && Droppable(body.insts[i].kind)
    ensures Cleared(body, Erase(body, i), {i})
  {
    hide WellPlaced, ClearBlock, Droppable, Erase;
    var e := Erase(body, i);
    EraseShape(body, i);
    forall c | c in body.blocks ensures e.blocks[c] == ClearBlock(body.blocks[c], {i}) {
      EraseClearsBlock(body, i, c);
    }
    assert e.blocks == map c | c in body.blocks :: ClearBlock(body.blocks[c], {i});
  }

  lemma EraseShape(body: Body, i: InstId)
    requires WellPlaced(body) && Attached(body, i)
    ensures var e := Erase(body, i);
      && e.entry == body.entry && e.order == body.order && e.numArgs == body.numArgs && e.numGlobals == body.numGlobals
      && e.consts == body.consts
      && e.blocks.Keys == body.blocks.Keys && e.insts.Keys == body.insts.Keys - {i}
      && forall j :: j in e.insts ==> e.insts[j] == body.insts[j]
  {
    assert WellHeld(body, i);
    hide WellPlaced, RemoveFrom;
  }

  /** Erasing one more. */
  lemma EraseAfterClearing(start: Body, now: Body, gone: set<InstId>, i: InstId)
    requires Cleared(start, now, gone) && WellPlaced(now) && Attached(now, i) && Droppable(now.insts[i].kind)
    ensures Cleared(start, Erase(now, i), gone + {i})
  {
    hide WellPlaced, Droppable, Erase, WithoutAll;
    EraseClears(now, i);
    EraseShape(now, i);
    var after := Erase(now, i);
    forall c | c in start.blocks ensures after.blocks[c] == ClearBlock(start.blocks[c], gone + {i}) {
      ClearTwice(start.blocks[c], gone, i);
    }
    assert after.blocks == map c | c in start.blocks :: ClearBlock(start.blocks[c], gone + {i});
  }

  lemma ClearTwice(blk: BlockData, gone: set<InstId>, i: InstId)
    ensures ClearBlock(ClearBlock(blk, gone), {i}) == ClearBlock(blk, gone + {i})
  {
    hide Without, WithoutAll;
    TwiceWithout(blk.phis, gone, i);
    TwiceWithout(blk.insts, gone, i);
    WithoutIsWithoutAll(WithoutAll(blk.phis, gone), i);
    WithoutIsWithoutAll(WithoutAll(blk.insts, gone), i);
  }

  lemma UnreferencedUnread(body: Body, i: InstId)
    requires Attached(body, i) && Droppable(body.insts[i].kind)
    requires forall u :: u in Registry(body) ==> Registry(body)[u] != InstValue(i)
    ensures Unread(body, {i})
  {
    hide ValueOperands;
    forall j, s | Attached(body, j) && j !in {i} && s in ValueOperands(body.insts[j].kind)
      ensures !IsGone(ValueOperands(body.insts[j].kind)[s], {i})
    {
      assert Use(j, s) in Registry(body);
    }
  }
}
