/** The block merging pass over the module (src/ir/opt/cfg_simpilfy.rs:17-24, 100-164). */
module MergePass {
  import opened Sequences
  import opened CoreInts
  import opened Ir
  import opened UseLists
  import opened ModuleCores
  import opened Semantics
  import opened Ssa
  import opened Rewrites
  import opened Clearing
  import opened Trim
  import opened EraseBlocks
  import opened Cfg
  import opened CfgSimplify
  import opened BlockMerges

  // ---------------------------------------------------------------- moving a block's contents

  /** The first k instructions of s have moved to the end of a. */
  ghost function MovedOver(body: Body, a: BlockId, s: BlockId, k: nat): Body
    requires CanMerge(body, a, s) && k <= |body.blocks[s].insts|
  {
    var list := body.blocks[s].insts;
    var ba := body.blocks[a].(insts := body.blocks[a].insts + list[..k]);
    var bs := body.blocks[s].(insts := list[k..]);
    body.(blocks := body.blocks[a := ba][s := bs],
          insts := map i | i in body.insts ::
            if i in list[..k] then body.insts[i].(parent := Some(a)) else body.insts[i])
  }

  lemma MovedNone(body: Body, a: BlockId, s: BlockId)
    requires CanMerge(body, a, s)
    ensures MovedOver(body, a, s, 0) == body
  {
    var m := MovedOver(body, a, s, 0);
    assert body.blocks[a].insts + body.blocks[s].insts[..0] == body.blocks[a].insts;
    assert m.insts == body.insts;
    assert m.blocks == body.blocks;
  }

  lemma MoveOne(body: Body, a: BlockId, s: BlockId, k: nat)
    requires WellPlaced(body) && CanMerge(body, a, s) && k < |body.blocks[s].insts|
    ensures var i := body.blocks[s].insts[k];
      var m := MovedOver(body, a, s, k);
      && i in m.insts && m.insts[i].parent == Some(s) && a in m.blocks
      && var d := Detach(m, i);
      a in d.blocks && Attach(d, a, d.blocks[a].(insts := d.blocks[a].insts + [i]), i) == MovedOver(body, a, s, k + 1)
  {
    hide WellPlaced;
    ListedKinds(body, s);
    var list := body.blocks[s].insts;
    var i := list[k];
    var m := MovedOver(body, a, s, k);
    var d := Detach(m, i);
    assert i in list && Distinct(list) by { DistinctIn(body, s); }
    assert i !in list[..k];
    DropHead(list, k);
    assert body.blocks[s].terminator != Some(i);
    var e := Attach(d, a, d.blocks[a].(insts := d.blocks[a].insts + [i]), i);
    var want := MovedOver(body, a, s, k + 1);
    assert list[..k + 1] == list[..k] + [i];
    assert e.blocks[a] == want.blocks[a] && e.blocks[s] == want.blocks[s];
    assert e.blocks == want.blocks;
    assert e.insts == want.insts;
  }

  lemma DistinctIn(body: Body, b: BlockId)
    requires WellPlaced(body) && b in body.blocks
    ensures Distinct(body.blocks[b].insts) && Distinct(body.blocks[b].phis)
  {
    hide OperandsExist;
  }

  lemma DropHead(list: seq<InstId>, k: nat)
    requires Distinct(list) && k < |list|
    ensures Without(list[k..], list[k]) == list[k + 1..]
  {
    assert list[k..][0] == list[k];
    RemoveAt(list[k..], 0);
    assert list[k..][..0] + list[k..][0 + 1..] == list[k + 1..];
  }

  /** After the moves and the erasure of a's jump. */
  ghost function JumpErased(body: Body, a: BlockId, s: BlockId): Body
    requires CanMerge(body, a, s)
  {
    var list, ta := body.blocks[s].insts, body.blocks[a].terminator.value;
    var ba := BlockData(body.blocks[a].phis, body.blocks[a].insts + list, None);
    var bs := BlockData([], [], body.blocks[s].terminator);
    body.(blocks := body.blocks[a := ba][s := bs],
          insts := map i | i in body.insts && i != ta ::
            if i in list then body.insts[i].(parent := Some(a)) else body.insts[i])
  }

  /** The jump stands in no list. */
  lemma JumpNowhere(body: Body, a: BlockId, s: BlockId)
    requires WellPlaced(body) && CanMerge(body, a, s)
    ensures var ta := body.blocks[a].terminator.value;
      && ta in body.insts && body.insts[ta].parent == Some(a)
      && ta !in body.blocks[s].insts && ta !in body.blocks[a].insts && ta !in body.blocks[a].phis
  {
    ListedKinds(body, s);
    ListedKinds(body, a);
    hide WellPlaced;
  }

  lemma EraseJump(body: Body, a: BlockId, s: BlockId)
    requires WellPlaced(body) && CanMerge(body, a, s)
    ensures var m := MovedOver(body, a, s, |body.blocks[s].insts|);
      var ta := body.blocks[a].terminator.value;
      ta in m.insts && Erase(m, ta) == JumpErased(body, a, s)
  {
    hide WellPlaced, Without, Edge;
    var list, ta := body.blocks[s].insts, body.blocks[a].terminator.value;
    var m := MovedOver(body, a, s, |list|);
    JumpNowhere(body, a, s);
    assert list[..|list|] == list && list[|list|..] == [];
    WithoutAbsent(body.blocks[a].insts + list, ta);
    WithoutAbsent(body.blocks[a].phis, ta);
    var e, want := Erase(m, ta), JumpErased(body, a, s);
    assert m.insts[ta].parent == Some(a);
    assert m.blocks[a] == BlockData(body.blocks[a].phis, body.blocks[a].insts + list, Some(ta));
    assert e.blocks == m.blocks[a := RemoveFrom(m.blocks[a], ta)];
    assert m.blocks[s] == BlockData(body.blocks[s].phis, [], body.blocks[s].terminator);
    assert e.blocks == want.blocks;
    assert e.insts == want.insts by { hide RemoveFrom; }
  }

  /** After s's terminator has moved to a as well. */
  ghost function TerminatorMoved(body: Body, a: BlockId, s: BlockId): Body
    requires CanMerge(body, a, s)
  {
    var list, ta, ts := body.blocks[s].insts, body.blocks[a].terminator.value, body.blocks[s].terminator;
    var ba := BlockData(body.blocks[a].phis, body.blocks[a].insts + list, ts);
    body.(blocks := body.blocks[a := ba][s := BlockData([], [], None)],
          insts := map i | i in body.insts && i != ta ::
            if i in list || ts == Some(i) then body.insts[i].(parent := Some(a)) else body.insts[i])
  }

  lemma MoveTerminator(body: Body, a: BlockId, s: BlockId)
    requires WellPlaced(body) && CanMerge(body, a, s)
    ensures var m := JumpErased(body, a, s);
      var ts := body.blocks[s].terminator.value;
      && ts in m.insts && m.insts[ts].parent == Some(s) && s in m.blocks && m.insts[ts].kind == body.insts[ts].kind
      && IsTerminator(m.insts[ts].kind)
      && var d := Detach(m, ts);
      && a in d.blocks && d.blocks[a].terminator.None? && d.insts[ts].parent.None?
      && Attach(d, a, d.blocks[a].(terminator := Some(ts)), ts) == TerminatorMoved(body, a, s)
  {
    var m, ts := JumpErased(body, a, s), body.blocks[s].terminator.value;
    ListedKinds(body, s);
    ListedKinds(body, a);
    OtherTerminator(body, a, s, s);
    hide WellPlaced, IsTerminator;
    var d := Detach(m, ts);
    var e, want := Attach(d, a, d.blocks[a].(terminator := Some(ts)), ts), TerminatorMoved(body, a, s);
    assert e.blocks == want.blocks;
    assert e.insts == want.insts;
  }

  lemma RetargetMerges(body: Body, a: BlockId, s: BlockId)
    requires WellPlaced(body) && CanMerge(body, a, s)
    ensures RetargetAll(TerminatorMoved(body, a, s), s, a) == Merge(body, a, s)
  {
    var x, y := RetargetAll(TerminatorMoved(body, a, s), s, a), Merge(body, a, s);
    forall i | i in y.insts ensures x.insts[i] == y.insts[i] {
      InMovedBlock(body, a, s, i);
    }
    assert x.insts == y.insts;
    assert x.blocks == y.blocks;
  }

  lemma InMovedBlock(body: Body, a: BlockId, s: BlockId, i: InstId)
    requires WellPlaced(body) && CanMerge(body, a, s) && i in body.insts
    ensures body.insts[i].parent == Some(s) <==> i in body.blocks[s].insts || body.blocks[s].terminator == Some(i)
  {
    ListedKinds(body, s);
    if body.insts[i].parent == Some(s) {
      WellHeldIn(body, i);
    }
    hide WellPlaced;
  }

  lemma DetachedOperands(body: Body, i: InstId)
    requires WellPlaced(body) && Attached(body, i)
    ensures i in Detach(body, i).insts && Detach(body, i).insts[i].parent.None? && OperandsExist(Detach(body, i), i)
    ensures Detach(body, i).blocks.Keys == body.blocks.Keys
  {
    assert WellHeld(body, i);
    OperandsStillExist(body, Detach(body, i));
    hide WellPlaced;
  }

  lemma TerminatorHasNoUses(body: Body, now: Body, vu: ValueUses, bu: BlockUses, a: BlockId, s: BlockId)
    requires WellPlaced(body) && Consistent(now, vu, bu) && CanMerge(body, a, s) && TerminatorsUnused(body)
    requires now == MovedOver(body, a, s, |body.blocks[s].insts|)
    ensures InstValue(body.blocks[a].terminator.value) in vu && vu[InstValue(body.blocks[a].terminator.value)] == []
  {
    hide WellPlaced, Exact, ValueOperands;
    var t := body.blocks[a].terminator.value;
    forall u | u in Registry(now) ensures Registry(now)[u] != InstValue(t) {
      MovedAttached(body, a, s, u.user);
      assert !NamesTerminator(body, ValueOperands(body.insts[u.user].kind)[u.slot]);
    }
    assert Knows(now, InstValue(t));
    ExactNone(vu, Registry(now), InstValue(t));
  }

  lemma MovedAttached(body: Body, a: BlockId, s: BlockId, i: InstId)
    requires WellPlaced(body) && CanMerge(body, a, s) && Attached(MovedOver(body, a, s, |body.blocks[s].insts|), i)
    ensures Attached(body, i) && MovedOver(body, a, s, |body.blocks[s].insts|).insts[i].kind == body.insts[i].kind
  {
    ListedKinds(body, s);
    hide WellPlaced;
  }

  /** Moves everything of s into a and turns mentions of s into mentions of a. */
  method MergeInto(m: ModuleCore, a: BlockId, s: BlockId)
    requires m.Valid() && CanMerge(m.Now(), a, s) && TerminatorsUnused(m.Now())
    modifies m
    ensures m.Valid() && m.Now() == Merge(old(m.Now()), a, s)
  {
    hide WellPlaced, Exact, Registry, BlockRegistry, ValueOperands, BlockOperands, OperandsExist, MovedOver, JumpErased,
      TerminatorMoved, Merge, CanMerge, TerminatorsUnused, Attach, Detach, Erase, RetargetAll;
    ghost var body := m.Now();
    assert WellPlaced(body);
    MergeBlocksExist(body, a, s);
    var list := m.blocks[s].insts;
    MovedNone(body, a, s);
    for k := 0 to |list|
      invariant m.Valid() && m.Now() == MovedOver(body, a, s, k)
    {
      var i := list[k];
      MoveOne(body, a, s, k);
      MovedKind(body, a, s, k);
      DetachedOperands(m.Now(), i);
      DetachKind(m.Now(), i);
      m.DetachInst(i);
      m.AppendInst(a, i);
    }
    MovedTerminator(body, a, s);
    var oldTerm := m.blocks[a].terminator.value;
    EraseJump(body, a, s);
    TerminatorHasNoUses(body, m.Now(), m.valueUses, m.blockUses, a, s);
    m.EraseInstFromParent(oldTerm);
    MovedBlocks(body, a, s);
    MoveTerminator(body, a, s);
    var term := m.blocks[s].terminator.value;
    DetachedOperands(m.Now(), term);
    DetachKind(m.Now(), term);
    m.DetachInst(term);
    m.SetTerminator(a, term);
    RetargetMerges(body, a, s);
    m.ReplaceAllBlockUsesWith(s, a);
  }

  lemma MergeBlocksExist(body: Body, a: BlockId, s: BlockId)
    requires CanMerge(body, a, s)
    ensures a in body.blocks && s in body.blocks && a != s && body.blocks[a].terminator.Some?
    ensures body.blocks[s].terminator.Some?
  {
  }

  lemma MovedKind(body: Body, a: BlockId, s: BlockId, k: nat)
    requires WellPlaced(body) && CanMerge(body, a, s) && k < |body.blocks[s].insts|
    ensures var i := body.blocks[s].insts[k];
      i in body.insts && i in MovedOver(body, a, s, k).insts
        && MovedOver(body, a, s, k).insts[i].kind == body.insts[i].kind && !body.insts[i].kind.Phi?
        && !IsTerminator(body.insts[i].kind)
  {
    ListedKinds(body, s);
    hide WellPlaced;
    assert body.blocks[s].insts[k] in body.blocks[s].insts;
  }

  lemma DetachKind(body: Body, i: InstId)
    requires i in body.insts
    ensures i in Detach(body, i).insts && Detach(body, i).insts[i].kind == body.insts[i].kind
  {
  }

  lemma MovedTerminator(body: Body, a: BlockId, s: BlockId)
    requires WellPlaced(body) && CanMerge(body, a, s)
    ensures var m := MovedOver(body, a, s, |body.blocks[s].insts|);
      && a in m.blocks && m.blocks[a].terminator == body.blocks[a].terminator
      && var t := body.blocks[a].terminator.value;
      t in m.insts && m.insts[t].parent.Some?
  {
    ListedKinds(body, a);
    hide WellPlaced;
  }

  lemma MovedBlocks(body: Body, a: BlockId, s: BlockId)
    requires CanMerge(body, a, s)
    ensures a in TerminatorMoved(body, a, s).blocks && s in TerminatorMoved(body, a, s).blocks
    ensures JumpErased(body, a, s).blocks[s].terminator == body.blocks[s].terminator
  {
  }

  // ---------------------------------------------------------------- which pairs there are

  /** p is the only block control comes to b from. */
  ghost predicate SolePred(body: Body, p: BlockId, b: BlockId) {
    Edge(body, p, b) && forall q :: Edge(body, q, b) ==> q == p
  }

  ghost predicate OnePred(body: Body, b: BlockId) {
    exists p :: SolePred(body, p, b)
  }

  /** a ends in an unconditional jump to s. */
  ghost predicate JumpsTo(body: Body, a: BlockId, s: BlockId) {
    && a in body.blocks && body.blocks[a].terminator.Some? && body.blocks[a].terminator.value in body.insts
    && body.insts[body.blocks[a].terminator.value].kind == Branch(s, None)
  }

  /** The blocks that merging takes away, those with one predecessor that jumps to them, are not the entry
      and end in a terminator. */
  ghost predicate MayLeave(body: Body) {
    forall a, s :: JumpsTo(body, a, s) && OnePred(body, s) ==>
      s != body.entry && s in body.blocks && body.blocks[s].terminator.Some?
  }

  lemma JumpIsTheEdge(body: Body, a: BlockId, s: BlockId)
    requires JumpsTo(body, a, s)
    ensures forall q :: Edge(body, a, q) <==> q == s
  {
  }

  lemma OnePredCount(body: Body, cfg: ControlFlowGraph, b: BlockId)
    requires CfgOf(body, cfg) && b in cfg.preds
    ensures |cfg.preds[b]| == 1 <==> OnePred(body, b)
  {
    hide Edge;
    var ps := cfg.preds[b];
    if |ps| == 1 {
      var p :| p in ps;
      assert |ps - {p}| == 0 && ps == {p};
      assert SolePred(body, p, b);
    }
    if OnePred(body, b) {
      var p: BlockId :| SolePred(body, p, b);
      assert p in ps;
      forall q | q in ps ensures q == p {
        assert Edge(body, q, b);
      }
      assert ps == {p};
    }
  }

  /** Merging does not change how many predecessors any other block has. */
  lemma MergedOnePred(body: Body, a: BlockId, s: BlockId, b: BlockId)
    requires WellPlaced(body) && CanMerge(body, a, s) && b != s
    ensures OnePred(Merge(body, a, s), b) <==> OnePred(body, b)
  {
    MergedEntry(body, a, s);
    JumpIsEdge(body, a, s, b);
    hide WellPlaced, CanMerge, Edge, Merge;
    var merged := Merge(body, a, s);
    forall q ensures Edge(merged, q, b) <==> q != s && Edge(body, if q == a then s else q, b) {
      MergedEdge(body, a, s, q, b);
    }
    forall p ensures p != a && SolePred(body, p, b) ==> SolePred(merged, Redirect(p, a, s), b) {
    }
    forall p ensures SolePred(merged, p, b) ==> SolePred(body, if p == a then s else p, b) {
      if SolePred(merged, p, b) {
        forall q | Edge(body, q, b) ensures q == if p == a then s else p {
          assert Edge(merged, Redirect(q, a, s), b);
        }
      }
    }
  }

  /** A block whose only predecessor jumps to it has no phis left: each would have exactly one entry. */
  lemma NoPhis(body: Body, a: BlockId, s: BlockId)
    requires SSA(body) && PhisClean(body) && s in body.blocks && Reachable(body, a) && SolePred(body, a, s)
    ensures body.blocks[s].phis == []
  {
    ReachStep(body, a, s);
    assert BlockOk(body, s);
    ListedKinds(body, s);
    hide SSA, Reachable, Edge, WellPlaced;
    if body.blocks[s].phis != [] {
      var phi := body.blocks[s].phis[0];
      assert phi in body.blocks[s].phis && PhiOk(body, phi, s) && CleanPhi(body, phi);
      var kind := body.insts[phi].kind;
      var idx: nat :| HasIncoming(kind, idx, a);
      forall k | k in kind.incomings ensures k == idx {
        assert k in PhiBlocks(kind) && Edge(body, PhiBlocks(kind)[k], s);
        assert PhiBlocks(kind)[k] == a && HasIncoming(kind, k, a);
      }
      OneEntry(kind, idx);
    }
  }

  lemma OneEntry(kind: InstKind, idx: nat)
    requires kind.Phi? && idx in kind.incomings && forall k :: k in kind.incomings ==> k == idx
    ensures |PhiBlocks(kind)| == 1
  {
    assert PhiBlocks(kind).Keys == {idx};
    assert |PhiBlocks(kind)| == |PhiBlocks(kind).Keys|;
  }

  // ---------------------------------------------------------------- the state of the pass

  /** Same blocks; of the instructions, the erased ones were plain jumps. */
  ghost predicate MergeFrame(start: Body, now: Body, gone: set<InstId>) {
    && now.entry == start.entry && now.order == start.order && now.blocks.Keys == start.blocks.Keys
    && now.insts.Keys == start.insts.Keys - gone
    && (forall i :: i in gone ==> i in start.insts && Jumps(start.insts[i].kind))
    && (forall i :: i in now.insts ==>
         Jumps(now.insts[i].kind) == Jumps(start.insts[i].kind) && now.insts[i].kind.Phi? == start.insts[i].kind.Phi?)
  }

  /** The blocks merged away are the unreachable ones, and empty; the others have kept their number of predecessors. */
  ghost predicate MergeBlocks(start: Body, now: Body, removed: set<BlockId>) {
    && (forall b :: b in removed ==> b in now.blocks && now.blocks[b] == BlockData([], [], None) && !Reachable(now, b))
    && (forall b :: b in now.blocks && b !in removed ==>
          Reachable(now, b) && (OnePred(now, b) <==> OnePred(start, b)))
  }

  /** Part way through the pass. */
  ghost predicate Merging(start: Body, now: Body, removed: set<BlockId>, gone: set<InstId>) {
    && SSA(now) && TerminatorsUnused(now) && PhisClean(now) && MayLeave(now)
    && MergeFrame(start, now, gone) && MergeBlocks(start, now, removed)
    && forall obs: set<InstId> :: obs !! gone ==> SameBehaviour(start, now, obs)
  }

  lemma StartMerging(start: Body)
    requires SSA(start) && TerminatorsUnused(start) && PhisClean(start) && AllReachable(start) && MayLeave(start)
    ensures Merging(start, start, {}, {})
  {
    hide SSA, TerminatorsUnused, PhisClean, Reachable, OnePred, Lockstep, MayLeave;
    forall obs: set<InstId> ensures SameBehaviour(start, start, obs) {
      LockstepReflexive(start, obs);
      LockstepBehaves(start, start, obs);
    }
    hide SameBehaviour;
  }

  /** A jump to a block that had one predecessor at the start can be merged, and the check that the
      block has no phis passes. */
  lemma Mergeable(start: Body, now: Body, removed: set<BlockId>, gone: set<InstId>, a: BlockId, s: BlockId)
    requires Merging(start, now, removed, gone)
    requires a in now.blocks && a !in removed && JumpsTo(now, a, s) && OnePred(start, s)
    ensures CanMerge(now, a, s) && s !in removed && Reachable(now, a) && Reachable(now, s)
  {
    JumpIsTheEdge(now, a, s);
    hide TerminatorsUnused, Reachable, Edge, SameBehaviour;
    assert SSA(now) && Reachable(now, a);
    ReachStep(now, a, s);
    assert s in now.blocks by { TargetsExist(now, a); TargetsAreEdges(now, a, s); }
    hide SSA, PhisClean;
    assert OnePred(now, s);
    assert SolePred(now, a, s);
    NoPhis(now, a, s);
    NotAboveItself(now, s);
    hide Dominates;
  }

  lemma MergingStep(start: Body, now: Body, removed: set<BlockId>, gone: set<InstId>, a: BlockId, s: BlockId)
    requires Merging(start, now, removed, gone) && CanMerge(now, a, s) && s !in removed && a !in removed
    requires WellPlaced(Merge(now, a, s))
    ensures Merging(start, Merge(now, a, s), removed + {s}, gone + {now.blocks[a].terminator.value})
  {
    var next, ta := Merge(now, a, s), now.blocks[a].terminator.value;
    assert WellPlaced(now);
    MergedFrame(start, now, gone, a, s);
    MergedBlocks(start, now, removed, a, s);
    MergedMayLeave(now, a, s);
    MergedUnused(now, a, s);
    MergedClean(now, a, s);
    assert Reachable(now, s) && Reachable(now, a);
    MergedSSA(now, a, s);
    hide SSA, TerminatorsUnused, PhisClean, Reachable, CanMerge, Merge, MergeFrame, MergeBlocks, WellPlaced,
      SameBehaviour, MayLeave;
    forall obs: set<InstId> | obs !! gone + {ta} ensures SameBehaviour(start, next, obs) {
      MergeBehaves(now, a, s, obs);
      SameBehaviourTransitive(start, now, next, obs);
    }
  }

  lemma MergedMayLeave(now: Body, a: BlockId, s: BlockId)
    requires WellPlaced(now) && CanMerge(now, a, s) && MayLeave(now)
    ensures MayLeave(Merge(now, a, s))
  {
    hide WellPlaced, OnePred, Edge, Retarget;
    var next := Merge(now, a, s);
    forall x, t | JumpsTo(next, x, t) && OnePred(next, t)
      ensures t != next.entry && t in next.blocks && next.blocks[t].terminator.Some?
    {
      MergedJump(now, a, s, x, t);
      MergedOnePred(now, a, s, t);
    }
  }

  /** A jump of the merged body was one before, from s if it is a's now, and not to s. */
  lemma MergedJump(now: Body, a: BlockId, s: BlockId, x: BlockId, t: BlockId)
    requires WellPlaced(now) && CanMerge(now, a, s) && JumpsTo(Merge(now, a, s), x, t)
    ensures x != s && t != s && JumpsTo(now, if x == a then s else x, t)
  {
    hide WellPlaced, Retarget;
    var from := if x == a then s else x;
    SameTargets(now, a, s, from);
    assert JumpsTo(now, from, t);
    JumpIsTheEdge(now, from, t);
    assert Edge(now, from, t);
    if t == s {
      JumpIsEdge(now, a, s, t);
    }
  }

  lemma MergedFrame(start: Body, now: Body, gone: set<InstId>, a: BlockId, s: BlockId)
    requires MergeFrame(start, now, gone) && CanMerge(now, a, s)
    ensures MergeFrame(start, Merge(now, a, s), gone + {now.blocks[a].terminator.value})
  {
    hide Retarget;
    forall i | i in now.insts
      ensures Jumps(Retarget(now.insts[i].kind, s, a)) == Jumps(now.insts[i].kind)
      ensures Retarget(now.insts[i].kind, s, a).Phi? == now.insts[i].kind.Phi?
    {
      RetargetJumps(now.insts[i].kind, s, a);
    }
  }

  lemma RetargetJumps(kind: InstKind, s: BlockId, a: BlockId)
    ensures Jumps(Retarget(kind, s, a)) == Jumps(kind) && Retarget(kind, s, a).Phi? == kind.Phi?
  {
  }

  lemma MergedBlocks(start: Body, now: Body, removed: set<BlockId>, a: BlockId, s: BlockId)
    requires WellPlaced(now) && MergeBlocks(start, now, removed) && CanMerge(now, a, s) && s !in removed
    requires a !in removed
    ensures MergeBlocks(start, Merge(now, a, s), removed + {s})
  {
    hide WellPlaced, Reachable, OnePred, Edge;
    var next := Merge(now, a, s);
    forall b | b in now.blocks
      ensures Reachable(next, b) <==> Reachable(now, b) && b != s
      ensures b != s ==> (OnePred(next, b) <==> OnePred(now, b))
    {
      MergedReachable(now, a, s, b);
      if b != s {
        MergedOnePred(now, a, s, b);
      }
    }
  }

  // ---------------------------------------------------------------- what has been settled

  /** The visited blocks that remain do not jump to a block that could be merged into them. */
  ghost predicate Settled(now: Body, visited: set<BlockId>, removed: set<BlockId>, mergeable: set<BlockId>) {
    forall x, t :: x in visited && x !in removed && JumpsTo(now, x, t) ==> t !in mergeable
  }

  lemma SettledStep(now: Body, visited: set<BlockId>, removed: set<BlockId>, mergeable: set<BlockId>, a: BlockId,
                    s: BlockId)
    requires WellPlaced(now) && CanMerge(now, a, s) && Settled(now, visited - {a}, removed, mergeable)
    ensures Settled(Merge(now, a, s), visited - {a}, removed + {s}, mergeable)
  {
    var next := Merge(now, a, s);
    hide WellPlaced, Retarget;
    forall x, t | x in visited - {a} && x !in removed + {s} && JumpsTo(next, x, t) ensures t !in mergeable {
      assert x != a && x != s && next.blocks[x] == now.blocks[x];
      SameTargets(now, a, s, x);
      assert JumpsTo(now, x, t);
    }
  }

  function SuccessorList(kind: InstKind): seq<BlockId> {
    match kind
    case Branch(target, Some(cond)) => [cond.elseBlock, target]
    case Branch(target, None) => [target]
    case _ => []
  }

  /** Erasing the empty blocks, seen from the merged body. */
  lemma RemovedAreDead(start: Body, now: Body, removed: set<BlockId>)
    requires WellPlaced(now) && MergeBlocks(start, now, removed)
    ensures ExactlyUnreachable(now, removed) && HeldIn(now, removed) == {}
    ensures now.entry !in removed
  {
    hide Reachable, OnePred, OperandsExist;
    EntryReachable(now);
    forall i | i in now.insts && now.insts[i].parent.Some? ensures now.insts[i].parent.value !in removed {
      assert WellHeld(now, i);
    }
  }

  lemma PrunedEdges(now: Body, mid: Body, removed: set<BlockId>)
    requires SSA(now) && ExactlyUnreachable(now, removed) && Trimmed(now, WithoutBlocks(mid, removed))
    requires forall b :: b in removed ==> b in now.blocks && now.blocks[b].terminator.None?
    requires WithoutBlocks(mid, removed).blocks.Keys == now.blocks.Keys - removed
    ensures SameEdges(now, WithoutBlocks(mid, removed))
  {
    var b := WithoutBlocks(mid, removed);
    forall p, q ensures Edge(now, p, q) <==> Edge(b, p, q) {
      if p in now.blocks && p !in removed {
        assert Reachable(now, p) && WellPlaced(now);
        TrimmedEdge(now, b, p, q);
      }
    }
    hide SSA, Reachable;
  }

  /** A jump of the trimmed body was a jump already. */
  lemma PrunedJump(now: Body, b: Body, x: BlockId, t: BlockId)
    requires WellPlaced(now) && Trimmed(now, b) && AllReachable(b) && JumpsTo(b, x, t)
    ensures JumpsTo(now, x, t)
  {
    TrimmedGraph(now, b);
    ListedKinds(now, x);
    assert Contains(now.blocks[x], now.blocks[x].terminator.value);
    assert TrimmedInst(now, b, x, now.blocks[x].terminator.value);
    TerminatorIsNoPhi(now.insts[now.blocks[x].terminator.value].kind);
    hide WellPlaced, Reachable;
  }

  /** Nor does a quiet step make a jump. */
  lemma QuietJump(a: Body, b: Body, gone: set<InstId>, x: BlockId, t: BlockId)
    requires WellPlaced(a) && QuietStep(a, b, gone) && JumpsTo(b, x, t)
    ensures JumpsTo(a, x, t)
  {
    JumpIsTheEdge(b, x, t);
    ListedKinds(a, x);
    assert Edge(b, x, t) && Edge(a, x, t);
    hide SSA, WellPlaced, Lockstep;
  }

  lemma SameOnePred(a: Body, b: Body, t: BlockId)
    requires SameEdges(a, b)
    ensures OnePred(a, t) <==> OnePred(b, t)
  {
    hide Edge;
    forall p ensures SolePred(a, p, t) <==> SolePred(b, p, t) {
    }
  }

  /** No two blocks that could be merged are left. */
  ghost predicate NothingToMerge(body: Body) {
    forall a, s :: JumpsTo(body, a, s) ==> !OnePred(body, s)
  }

  lemma QuietKeys(a: Body, b: Body, gone: set<InstId>)
    requires QuietStep(a, b, gone)
    ensures b.blocks.Keys == a.blocks.Keys && b.insts.Keys == a.insts.Keys - gone
    ensures forall i :: i in gone && i in a.insts ==> a.insts[i].kind.Phi?
  {
    hide SSA, Lockstep, SameEdges, SameJumps;
  }

  lemma WithoutKeys(mid: Body, dead: set<BlockId>)
    ensures var b := WithoutBlocks(mid, dead);
      && b.insts.Keys == mid.insts.Keys && b.blocks.Keys == mid.blocks.Keys - dead
      && forall i :: i in mid.insts ==> b.insts[i].kind.Phi? == mid.insts[i].kind.Phi?
  {
  }

  lemma EraseNone(now: Body, mid: Body)
    requires UndefErased(now, mid, {})
    ensures mid.insts.Keys == now.insts.Keys && mid.blocks.Keys == now.blocks.Keys
    ensures forall i :: i in mid.insts ==> mid.insts[i].kind.Phi? == now.insts[i].kind.Phi?
  {
    ErasedKeys(now, mid, {});
    assert now.insts.Keys - {} == now.insts.Keys;
    hide UndefErased;
    forall i | i in mid.insts ensures mid.insts[i].kind.Phi? == now.insts[i].kind.Phi? {
      SurvivorUndef(now, mid, {}, i);
      SurvivorPhi(now, mid, {}, i);
    }
  }

  /** What is left of the start: all but some jumps, some phis and the merged blocks. */
  lemma PassErases(start: Body, now: Body, mid: Body, removed: set<BlockId>, gone: set<InstId>, last: Body,
                   phis: set<InstId>)
    requires MergeFrame(start, now, gone) && UndefErased(now, mid, HeldIn(now, removed)) && HeldIn(now, removed) == {}
    requires QuietStep(WithoutBlocks(mid, removed), last, phis)
    ensures last.insts.Keys <= start.insts.Keys && last.insts.Keys !! gone && last.insts.Keys !! phis
    ensures last.blocks.Keys == start.blocks.Keys - removed
    ensures forall i :: i in start.insts && i !in last.insts ==> start.insts[i].kind.Phi? || Jumps(start.insts[i].kind)
  {
    hide QuietStep, UndefErased, WithoutBlocks, HeldIn, Jumps;
    QuietKeys(WithoutBlocks(mid, removed), last, phis);
    WithoutKeys(mid, removed);
    EraseNone(now, mid);
  }

  lemma PassBehaves(start: Body, now: Body, mid: Body, removed: set<BlockId>, gone: set<InstId>, last: Body,
                    phis: set<InstId>)
    requires Merging(start, now, removed, gone) && Trimmed(now, WithoutBlocks(mid, removed))
    requires QuietStep(WithoutBlocks(mid, removed), last, phis)
    requires last.insts.Keys !! gone && last.insts.Keys !! phis
    ensures SameBehaviour(start, last, last.insts.Keys)
  {
    var obs, trimmed := last.insts.Keys, WithoutBlocks(mid, removed);
    hide SSA, Lockstep, SameBehaviour, SameEdges, SameJumps, Trimmed, MergeBlocks, MergeFrame, TerminatorsUnused,
      PhisClean, WithoutBlocks;
    TrimmedLockstep(now, trimmed, obs);
    LockstepTransitive(now, trimmed, last, obs);
    LockstepBehaves(now, last, obs);
    SameBehaviourTransitive(start, now, last, obs);
  }

  lemma PassGraph(start: Body, now: Body, mid: Body, removed: set<BlockId>)
    requires SSA(now) && MergeBlocks(start, now, removed) && ExactlyUnreachable(now, removed)
    requires UndefErased(now, mid, HeldIn(now, removed))
    requires Trimmed(now, WithoutBlocks(mid, removed))
    ensures SameEdges(now, WithoutBlocks(mid, removed)) && AllReachable(WithoutBlocks(mid, removed)) && WellPlaced(now)
    ensures WithoutBlocks(mid, removed).blocks.Keys == now.blocks.Keys - removed
  {
    TrimmedAllReachable(now, mid, removed);
    ErasedKeys(now, mid, HeldIn(now, removed));
    SsaPlaced(now);
    hide SSA, Trimmed, UndefErased, HeldIn, WellPlaced, Reachable, OnePred, SameEdges;
    PrunedEdges(now, mid, removed);
  }

  lemma PassSettled(start: Body, now: Body, trimmed: Body, removed: set<BlockId>, last: Body, phis: set<InstId>,
                    mergeable: set<BlockId>)
    requires MergeBlocks(start, now, removed) && WellPlaced(now) && WellPlaced(trimmed)
    requires trimmed.blocks.Keys == now.blocks.Keys - removed
    requires Trimmed(now, trimmed) && SameEdges(now, trimmed) && AllReachable(trimmed) && QuietStep(trimmed, last, phis)
    requires Settled(now, now.blocks.Keys, removed, mergeable)
    requires forall b :: b in now.blocks && OnePred(start, b) ==> b in mergeable
    ensures NothingToMerge(last)
  {
    hide Trimmed, QuietStep, JumpsTo, OnePred, SameEdges, WellPlaced, Reachable, AllReachable;
    assert SameEdges(trimmed, last) by { QuietEdges(trimmed, last, phis); }
    forall x, t | JumpsTo(last, x, t) ensures !OnePred(last, t) {
      QuietJump(trimmed, last, phis, x, t);
      PrunedJump(now, trimmed, x, t);
      SameOnePred(trimmed, last, t);
      SameOnePred(now, trimmed, t);
      LeadsSomewhere(trimmed, x, t);
      LeadsSomewhere(now, x, t);
    }
  }

  lemma QuietEdges(a: Body, b: Body, gone: set<InstId>)
    requires QuietStep(a, b, gone)
    ensures SameEdges(a, b)
  {
    hide SSA, Lockstep, Edge;
  }

  /** The blocks with exactly one predecessor. */
  method FindMergeable(m: ModuleCore) returns (mergeable: set<BlockId>)
    requires m.Valid()
    ensures forall b :: b in mergeable <==> b in m.blocks && OnePred(m.Now(), b)
  {
    hide Consistent, OnePred, Edge;
    var cfg := BuildCfg(m);
    mergeable := set b | b in m.blocks && |cfg.preds[b]| == 1;
    forall b | b in m.blocks ensures b in mergeable <==> OnePred(m.Now(), b) {
      OnePredCount(m.Now(), cfg, b);
    }
  }

  lemma NoJump(body: Body, b: BlockId)
    requires b in body.blocks && body.blocks[b].terminator.None?
    ensures forall t :: !JumpsTo(body, b, t)
  {
  }

  /** Merges block with the block it jumps to. */
  method MergeStep(m: ModuleCore, block: BlockId, s: BlockId, ghost start: Body, ghost removed: set<BlockId>,
                   ghost gone: set<InstId>, ghost visited: set<BlockId>, ghost mergeable: set<BlockId>)
    requires m.Valid() && Merging(start, m.Now(), removed, gone) && Settled(m.Now(), visited, removed, mergeable)
    requires block in m.blocks && block !in removed && block !in visited && JumpsTo(m.Now(), block, s)
    requires OnePred(start, s)
    modifies m
    ensures m.Valid() && m.blocks.Keys == old(m.blocks).Keys && s in m.blocks && s !in removed
    ensures old(m.blocks)[block].terminator.Some?
    ensures Merging(start, m.Now(), removed + {s}, gone + {old(m.blocks)[block].terminator.value})
    ensures Settled(m.Now(), visited, removed + {s}, mergeable)
  {
    hide WellPlaced, Exact, Registry, BlockRegistry, Consistent, SSA, Merging, MergeBlocks, CanMerge, Merge, OnePred,
      Reachable, TerminatorsUnused, Settled, JumpsTo;
    ghost var now := m.Now();
    MergingUnused(start, now, removed, gone);
    LeadsSomewhere(now, block, s);
    Mergeable(start, now, removed, gone, block, s);
    NoPhisLeft(now, block, s);
    assert m.blocks[s].phis == [];
    MergeInto(m, block, s);
    ValidPlaced(m);
    MergingStep(start, now, removed, gone, block, s);
    assert visited - {block} == visited;
    SettledStep(now, visited, removed, mergeable, block, s);
    MergeKeys(now, block, s);
  }

  lemma ValidPlaced(m: ModuleCore)
    requires m.Valid()
    ensures WellPlaced(m.Now())
  {
    hide WellPlaced;
  }

  lemma MergeKeys(now: Body, a: BlockId, s: BlockId)
    requires CanMerge(now, a, s)
    ensures Merge(now, a, s).blocks.Keys == now.blocks.Keys && now.blocks[a].terminator.Some?
  {
  }

  /** One round of the worklist loop: merges the block with what it jumps to, or finds nothing to do. */
  method MergeAt(m: ModuleCore, block: BlockId, mergeable: set<BlockId>, ghost start: Body, ghost removed: set<BlockId>,
                 ghost gone: set<InstId>, ghost visited: set<BlockId>)
    returns (found: Option<BlockId>)
    requires m.Valid() && Merging(start, m.Now(), removed, gone) && Settled(m.Now(), visited, removed, mergeable)
    requires block in m.blocks && block !in visited
    requires forall b :: b in mergeable <==> b in start.blocks && OnePred(start, b)
    modifies m
    ensures m.Valid() && m.blocks.Keys == old(m.blocks).Keys
    ensures found.None? ==> m.Now() == old(m.Now()) && Settled(m.Now(), visited + {block}, removed, mergeable)
    ensures found.Some? ==> var s := found.value;
      && s in m.blocks && s !in removed && old(m.blocks)[block].terminator.Some?
      && Merging(start, m.Now(), removed + {s}, gone + {old(m.blocks)[block].terminator.value})
      && Settled(m.Now(), visited, removed + {s}, mergeable)
  {
    hide Consistent, JumpsTo, SuccessorList, WellPlaced, Exact, Registry, BlockRegistry, Merging, OnePred, Settled;
    ghost var now := m.Now();
    var term := m.blocks[block].terminator;
    if term.None? {
      NoJump(now, block);
      SettledMore(now, visited, removed, mergeable, block);
      return None;
    }
    NotRemoved(start, now, removed, gone, block);
    var succ := SuccessorList(m.insts[term.value].kind);
    OnlySuccessor(now, block);
    if |succ| != 1 || succ[0] !in mergeable {
      SettledMore(now, visited, removed, mergeable, block);
      return None;
    }
    MergeStep(m, block, succ[0], start, removed, gone, visited, mergeable);
    found := Some(succ[0]);
  }

  /** The worklist loop: when it ends, no block that remains jumps to a block it could be merged with. */
  method MergeAll(m: ModuleCore, ghost start: Body)
    returns (removed: set<BlockId>, ghost gone: set<InstId>, ghost mergeable: set<BlockId>)
    requires m.Valid() && start == m.Now() && Merging(start, start, {}, {})
    modifies m
    ensures m.Valid() && Merging(start, m.Now(), removed, gone) && Settled(m.Now(), m.blocks.Keys, removed, mergeable)
    ensures forall b :: b in m.blocks && OnePred(start, b) ==> b in mergeable
  {
    hide Consistent, JumpsTo, WellPlaced, Exact, Registry, BlockRegistry, Merging, OnePred, Settled;
    var visited: set<BlockId> := {};
    var work := m.order;
    var mergeableBlocks := FindMergeable(m);
    mergeable := mergeableBlocks;
    removed, gone := {}, {};
    ValidPlaced(m);
    OrderIsBlocks(start);
    NothingVisited(start, mergeable);
    while work != []
      invariant m.Valid() && Merging(start, m.Now(), removed, gone) && Settled(m.Now(), visited, removed, mergeable)
      invariant m.blocks.Keys == start.blocks.Keys && (forall b :: b in work ==> b in m.blocks)
      invariant removed <= m.blocks.Keys && visited <= m.blocks.Keys
      invariant forall b :: b in m.blocks ==> b in visited || b in work
      decreases |m.blocks.Keys - removed|, |work|
    {
      var block := work[|work| - 1];
      work := work[..|work| - 1];
      assert forall b :: b in m.blocks ==> b in visited || b in work || b == block;
      if block in visited {
        continue;
      }
      ghost var term := m.blocks[block].terminator;
      var found := MergeAt(m, block, mergeableBlocks, start, removed, gone, visited);
      if found.None? {
        visited := visited + {block};
      } else {
        FewerLeft(m.blocks.Keys, removed, found.value);
        removed := removed + {found.value};
        gone := gone + {term.value};
        work := work + [block];
      }
    }
    assert visited == m.blocks.Keys;
  }

  lemma FewerLeft(all: set<BlockId>, removed: set<BlockId>, s: BlockId)
    requires s in all && s !in removed
    ensures |all - (removed + {s})| < |all - removed|
  {
    assert all - removed == (all - (removed + {s})) + {s};
  }

  /** Block merging: afterwards no block jumps to one that has no other predecessor, and the function
      can be seen to do exactly what it did before. Only plain jumps and one-entry phis are erased. */
  method BlockMerge(m: ModuleCore) returns (ghost removedBlocks: set<BlockId>)
    requires m.Valid() && SSA(m.Now()) && AllReachable(m.Now()) && PhisClean(m.Now()) && TerminatorsUnused(m.Now())
    requires MayLeave(m.Now())
    modifies m
    ensures m.Valid() && SSA(m.Now()) && AllReachable(m.Now()) && PhisClean(m.Now())
    ensures SameBehaviour(old(m.Now()), m.Now(), m.insts.Keys) && m.insts.Keys <= old(m.insts).Keys
    ensures forall i :: i in old(m.insts) && i !in m.insts ==> old(m.insts[i]).kind.Phi? || Jumps(old(m.insts[i]).kind)
    ensures m.blocks.Keys == old(m.blocks).Keys - removedBlocks && NothingToMerge(m.Now())
  {
    hide Consistent, AllReachable, Merging, SSA, OnePred, PhisClean, TerminatorsUnused, Settled, SameBehaviour,
      NothingToMerge;
    ghost var start := m.Now();
    StartMerging(start);
    var removed: set<BlockId>;
    ghost var gone, mergeable;
    removed, gone, mergeable := MergeAll(m, start);
    removedBlocks := removed;
    FinishMerge(m, start, removed, gone, mergeable);
  }

  /** Erases the blocks merged away and cleans the phis. */
  method FinishMerge(m: ModuleCore, ghost start: Body, removed: set<BlockId>, ghost gone: set<InstId>,
                     ghost mergeable: set<BlockId>)
    requires m.Valid() && Merging(start, m.Now(), removed, gone) && Settled(m.Now(), m.blocks.Keys, removed, mergeable)
    requires forall b :: b in m.blocks && OnePred(start, b) ==> b in mergeable
    modifies m
    ensures m.Valid() && SSA(m.Now()) && AllReachable(m.Now()) && PhisClean(m.Now())
    ensures SameBehaviour(start, m.Now(), m.insts.Keys) && m.insts.Keys <= start.insts.Keys
    ensures forall i :: i in start.insts && i !in m.insts ==> start.insts[i].kind.Phi? || Jumps(start.insts[i].kind)
    ensures m.blocks.Keys == start.blocks.Keys - removed && NothingToMerge(m.Now())
  {
    hide WellPlaced, Exact, Registry, BlockRegistry, SSA, QuietStep, Merging, MergeBlocks, OnePred, Reachable,
      UndefErased, WithoutBlocks, HeldIn, Trimmed, CleanPhi, TerminatorsUnused, Settled, Edge, SameBehaviour,
      NothingToMerge;
    ghost var now := m.Now();
    MergingFacts(start, now, removed, gone);
    RemovedAreDead(start, now, removed);
    var dead := ListOf(removed);
    DeadNotTargeted(now, removed);
    ghost var mid := EraseBlocksFromParent(m, dead);
    PrunedIsTrimmed(now, mid, removed);
    ghost var trimmed := m.Now();
    assert WellPlaced(trimmed);
    TrimmedSSA(now, trimmed);
    TrimmedAllReachable(now, mid, removed);
    ghost var phis := UselessPhiElimination(m);
    PassErases(start, now, mid, removed, gone, m.Now(), phis);
    PassBehaves(start, now, mid, removed, gone, m.Now(), phis);
    PassGraph(start, now, mid, removed);
    PassSettled(start, now, trimmed, removed, m.Now(), phis, mergeable);
    QuietReachable(trimmed, m.Now(), phis);
    QuietSSA(trimmed, m.Now(), phis);
  }

  lemma QuietSSA(a: Body, b: Body, gone: set<InstId>)
    requires QuietStep(a, b, gone)
    ensures SSA(b)
  {
    hide SSA, Lockstep;
  }

  lemma MergingFacts(start: Body, now: Body, removed: set<BlockId>, gone: set<InstId>)
    requires Merging(start, now, removed, gone)
    ensures SSA(now) && WellPlaced(now) && MergeBlocks(start, now, removed) && MergeFrame(start, now, gone)
    ensures forall b :: b in removed ==> b in now.blocks
  {
    hide Reachable, OnePred, WellPlaced, SameBehaviour;
  }

  method ListOf(s: set<BlockId>) returns (r: seq<BlockId>)
    ensures Distinct(r) && Members(r) == s
  {
    r := [];
    var todo := s;
    while todo != {}
      invariant todo <= s && Distinct(r) && forall b :: b in r <==> b in s && b !in todo
      decreases todo
    {
      var b: BlockId :| b in todo;
      r := r + [b];
      todo := todo - {b};
    }
  }

  lemma SettledMore(now: Body, visited: set<BlockId>, removed: set<BlockId>, mergeable: set<BlockId>, b: BlockId)
    requires Settled(now, visited, removed, mergeable) && forall t :: JumpsTo(now, b, t) ==> t !in mergeable
    ensures Settled(now, visited + {b}, removed, mergeable)
  {
  }

  lemma NotRemoved(start: Body, now: Body, removed: set<BlockId>, gone: set<InstId>, b: BlockId)
    requires Merging(start, now, removed, gone) && b in now.blocks && now.blocks[b].terminator.Some?
    ensures b !in removed && now.blocks[b].terminator.value in now.insts
  {
    ListedKinds(now, b);
    hide SSA, SameBehaviour, Reachable, OnePred;
  }

  lemma OnlySuccessor(now: Body, b: BlockId)
    requires b in now.blocks && now.blocks[b].terminator.Some? && now.blocks[b].terminator.value in now.insts
    ensures var succ := SuccessorList(now.insts[now.blocks[b].terminator.value].kind);
      forall t :: JumpsTo(now, b, t) <==> |succ| == 1 && succ[0] == t
  {
  }

  lemma NoPhisLeft(now: Body, a: BlockId, s: BlockId)
    requires CanMerge(now, a, s)
    ensures now.blocks[s].phis == []
  {
  }

  lemma MergingUnused(start: Body, now: Body, removed: set<BlockId>, gone: set<InstId>)
    requires Merging(start, now, removed, gone)
    ensures TerminatorsUnused(now) && WellPlaced(now)
  {
    hide WellPlaced, SameBehaviour, Reachable;
  }

  lemma OrderIsBlocks(body: Body)
    requires WellPlaced(body)
    ensures forall b :: b in body.order <==> b in body.blocks
  {
    hide OperandsExist;
  }

  lemma NothingVisited(now: Body, mergeable: set<BlockId>)
    ensures Settled(now, {}, {}, mergeable)
  {
  }

  lemma LeadsSomewhere(body: Body, x: BlockId, t: BlockId)
    requires WellPlaced(body) && JumpsTo(body, x, t)
    ensures x in body.blocks && t in body.blocks
  {
    TargetsExist(body, x);
    TargetsAreEdges(body, x, t);
    JumpIsTheEdge(body, x, t);
    hide WellPlaced;
  }
}
