/** The control flow simplification of a function: dead blocks first, then merging
    (src/ir/opt/cfg_simpilfy.rs:17-24). */
module CfgPass {
  import opened Ir
  import opened UseLists
  import opened ModuleCores
  import opened Semantics
  import opened Ssa
  import opened CfgSimplify
  import opened BlockMerges
  import opened MergePass

  /** What the pass may erase: phis, plain jumps, and whatever no run reaches. */
  ghost predicate Superfluous(body: Body, i: InstId)
    requires i in body.insts
  {
    body.insts[i].kind.Phi? || Jumps(body.insts[i].kind) || InDeadBlock(body, i)
  }

  /** a, which a run reaches, jumps to s, and nothing else that a run reaches leads there. */
  ghost predicate Joins(body: Body, a: BlockId, s: BlockId) {
    Reachable(body, a) && JumpsTo(body, a, s) && forall q :: Reachable(body, q) && Edge(body, q, s) ==> q == a
  }

  /** Nothing uses a terminator, and a block joined to another is not the entry and ends in a terminator. */
  ghost predicate Joinable(body: Body) {
    TerminatorsUnused(body) && forall a, s :: Joins(body, a, s) ==>
      s != body.entry && s in body.blocks && body.blocks[s].terminator.Some?
  }

  lemma ReadyToMerge(before: Body, mid: Body)
    requires Joinable(before) && EndsAsBefore(before, mid) && WellPlaced(mid)
    requires forall b :: b in mid.blocks <==> b in before.blocks && Reachable(before, b)
    ensures TerminatorsUnused(mid) && MayLeave(mid)
  {
    hide TerminatorsUnused, Edge, Reachable, WellPlaced, JumpsTo;
    forall a, s | JumpsTo(mid, a, s) && OnePred(mid, s)
      ensures s != mid.entry && s in mid.blocks && mid.blocks[s].terminator.Some?
    {
      JumpedBefore(before, mid, a, s);
      LeadsSomewhere(mid, a, s);
      JumpIsTheEdge(mid, a, s);
      forall q | Reachable(before, q) && Edge(before, q, s) ensures q == a {
        EdgeSource(before, q, s);
        assert Edge(mid, q, s) && Edge(mid, a, s);
      }
      assert Joins(before, a, s);
    }
  }

  lemma JumpedBefore(before: Body, mid: Body, a: BlockId, s: BlockId)
    requires EndsAsBefore(before, mid) && JumpsTo(mid, a, s)
    ensures JumpsTo(before, a, s) && a in mid.blocks
  {
    hide TerminatorsUnused, Edge;
    assert SameEnding(before, mid, mid.blocks[a].terminator.value);
    JumpIsTheEdge(mid, a, s);
    assert Edge(before, a, s);
    JumpLeads(before, a, s);
  }

  lemma JumpLeads(body: Body, a: BlockId, s: BlockId)
    requires a in body.blocks && body.blocks[a].terminator.Some? && body.blocks[a].terminator.value in body.insts
    requires Jumps(body.insts[body.blocks[a].terminator.value].kind) && Edge(body, a, s)
    ensures JumpsTo(body, a, s)
  {
  }

  lemma SurvivorKind(before: Body, mid: Body, i: InstId)
    requires EndsAsBefore(before, mid) && i in before.insts && i in mid.insts
    requires (mid.insts[i].kind.Phi? || Jumps(mid.insts[i].kind))
    ensures Superfluous(before, i)
  {
    hide TerminatorsUnused, Edge;
    assert SameEnding(before, mid, i);
  }

  /** The whole pass: only reachable blocks remain, none of them jumps to a block that has no other
      predecessor, and the function can be seen to do exactly what it did before. */
  method FuncCfgSimplify(m: ModuleCore)
    requires m.Valid() && SSA(m.Now()) && Joinable(m.Now())
    modifies m
    ensures m.Valid() && SSA(m.Now()) && AllReachable(m.Now()) && PhisClean(m.Now()) && NothingToMerge(m.Now())
    ensures SameBehaviour(old(m.Now()), m.Now(), m.insts.Keys) && m.insts.Keys <= old(m.insts).Keys
    ensures forall b :: b in m.blocks ==> b in old(m.blocks) && Reachable(old(m.Now()), b)
    ensures forall i :: i in old(m.insts) && i !in m.insts ==> Superfluous(old(m.Now()), i)
  {
    hide WellPlaced, Exact, Registry, BlockRegistry, SSA, Edge, CleanPhi, Reachable, Lockstep, SameBehaviour,
      NothingToMerge, TerminatorsUnused, AllReachable,
      EndsAsBefore, OnePred, InDeadBlock, Jumps;
    ghost var before := m.Now();
    DeadBlockElimination(m);
    ghost var mid := m.Now();
    ReadyToMerge(before, mid);
    ghost var removed := BlockMerge(m);
    ghost var now := m.Now();
    assert now.insts.Keys <= mid.insts.Keys && Lockstep(before, mid, now.insts.Keys);
    LockstepBehaves(before, mid, now.insts.Keys);
    SameBehaviourTransitive(before, mid, now, now.insts.Keys);
    forall i | i in before.insts && i !in now.insts ensures Superfluous(before, i) {
      if i in mid.insts && i in before.insts {
        SurvivorKind(before, mid, i);
      }
    }
  }
}
