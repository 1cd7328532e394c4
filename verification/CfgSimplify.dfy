/** Dead-block elimination and useless-phi elimination (src/ir/opt/cfg_simpilfy.rs:26-98). */
module CfgSimplify {
  import opened Sequences
  import opened CoreInts
  import opened Ir
  import opened UseLists
  import opened ModuleCores
  import opened Semantics
  import opened Ssa
  import opened Rewrites
  import opened Clearing
  import opened Trim
  import opened EraseBlocks
  import opened Cfg

  // ---------------------------------------------------------------- erasing unreachable blocks is trimming

  ghost predicate ExactlyUnreachable(body: Body, dead: set<BlockId>) {
    forall b :: b in dead <==> b in body.blocks && !Reachable(body, b)
  }

  /** Control never branches from a reachable block into an unreachable one. */
  lemma DeadNotTargeted(body: Body, dead: set<BlockId>)
    requires WellPlaced(body) && ExactlyUnreachable(body, dead)
    ensures NotTargeted(body, dead)
  {
    forall i, s | Attached(body, i) && body.insts[i].parent.value !in dead && s in BlockOperands(body.insts[i].kind)
      && BlockOperands(body.insts[i].kind)[s] in dead
      ensures s.PhiIncomingBlock?
    {
      BranchStaysReachable(body, dead, i, s);
    }
  }

  lemma BranchStaysReachable(body: Body, dead: set<BlockId>, i: InstId, s: BlockOperandSlot)
    requires WellPlaced(body) && ExactlyUnreachable(body, dead)
    requires Attached(body, i) && body.insts[i].parent.value !in dead && s in BlockOperands(body.insts[i].kind)
    requires BlockOperands(body.insts[i].kind)[s] in dead
    ensures s.PhiIncomingBlock?
  {
    assert WellHeld(body, i);
    hide WellPlaced, OperandsExist, Reachable;
    var b := body.insts[i].parent.value;
    var kind := body.insts[i].kind;
    if kind.Branch? {
      assert Edge(body, b, BlockOperands(kind)[s]);
      ReachStep(body, b, BlockOperands(kind)[s]);
    }
  }

  lemma ReachableNotHeld(body: Body, dead: set<BlockId>, o: InstId, c: BlockId, k: int)
    requires ExactlyUnreachable(body, dead) && Reachable(body, c) && Before(body, o, c, k)
    ensures o !in HeldIn(body, dead)
  {
    if body.insts[o].parent.value != c {
      DominatorReachable(body, body.insts[o].parent.value, c);
    }
    hide Reachable, Dominates;
  }

  /** Instructions of reachable blocks never had an erased operand. */
  lemma ReachableInstKept(before: Body, mid: Body, dead: set<BlockId>, c: BlockId, i: InstId, k: nat)
    requires ExactlyUnreachable(before, dead) && UndefErased(before, mid, HeldIn(before, dead)) && Reachable(before, c)
    requires i in before.insts && before.insts[i].parent == Some(c) && c !in dead && !before.insts[i].kind.Phi?
    requires ArgsAvailable(before, i, c, k)
    ensures i in mid.insts && mid.insts[i] == before.insts[i]
  {
    var gone := HeldIn(before, dead);
    assert i in mid.insts;
    hide ExactlyUnreachable, Reachable, Before, ValueOperands, BlockOperands, Skeleton, Args, RemoveSet;
    assert UndefinedInst(before.insts[i], mid.insts[i], gone, |before.consts|, mid.consts);
    var kind := before.insts[i].kind;
    forall s | s in ValueOperands(kind) ensures !Doomed(ValueOperands(kind)[s], gone) {
      var v := ValueOperands(kind)[s];
      ArgsAreOperands(kind, v);
      assert Available(before, v, c, k);
      if v.InstValue? {
        ReachableNotHeld(before, dead, v.inst, c, k);
      }
    }
    assert ValueOperands(mid.insts[i].kind) == ValueOperands(kind);
    KindDetermined(mid.insts[i].kind, kind);
  }

  lemma SkeletonPhi(a: InstKind, b: InstKind)
    requires Skeleton(a) == Skeleton(b) && a.Phi?
    ensures b.Phi? && b.idx == a.idx && b.incomings.Keys == a.incomings.Keys
  {
    var sa, sb := Skeleton(a), Skeleton(b);
    assert sa.incomings.Keys == a.incomings.Keys && sb.incomings.Keys == b.incomings.Keys;
  }

  /** On an edge control can take, the surviving entries are the original ones. */
  lemma ReachableEntryKept(before: Body, mid: Body, dead: set<BlockId>, c: BlockId, i: InstId, p: BlockId, idx: nat)
    requires ExactlyUnreachable(before, dead) && i in before.insts && i in mid.insts && before.insts[i].parent.Some?
    requires UndefinedInst(before.insts[i], mid.insts[i], HeldIn(before, dead), |before.consts|, mid.consts)
    requires before.insts[i].kind.Phi? && PhiOk(before, i, c) && Reachable(before, p) && Edge(before, p, c)
    ensures mid.insts[i].kind.Phi?
    ensures var ka, kb := before.insts[i].kind, KeepIncomings(mid.insts[i].kind, dead);
      && (HasIncoming(ka, idx, p) <==> HasIncoming(kb, idx, p))
      && (HasIncoming(ka, idx, p) ==> kb.incomings[idx].value == ka.incomings[idx].value)
  {
    var ka, km := before.insts[i].kind, mid.insts[i].kind;
    SkeletonPhi(ka, km);
    assert p !in dead;
    if idx in ka.incomings {
      EntrySlots(ka, idx);
      EntrySlots(km, idx);
      if HasIncoming(ka, idx, p) {
        var v := ka.incomings[idx].value;
        assert Available(before, v, p, |before.blocks[p].insts|);
        if v.InstValue? {
          ReachableNotHeld(before, dead, v.inst, p, |before.blocks[p].insts|);
        }
        assert !Doomed(v, HeldIn(before, dead));
      }
    }
    hide Edge, Reachable, Before, Skeleton, ValueOperands, BlockOperands, HeldIn, ExactlyUnreachable;
  }

  lemma EntrySlots(kind: InstKind, idx: nat)
    requires kind.Phi? && idx in kind.incomings
    ensures PhiIncomingBlock(idx) in BlockOperands(kind)
    ensures BlockOperands(kind)[PhiIncomingBlock(idx)] == kind.incomings[idx].block
    ensures PhiIncomingVal(idx) in ValueOperands(kind)
    ensures ValueOperands(kind)[PhiIncomingVal(idx)] == kind.incomings[idx].value
  {
  }

  lemma ReachablePhiKept(before: Body, mid: Body, dead: set<BlockId>, c: BlockId, i: InstId)
    requires ExactlyUnreachable(before, dead) && UndefErased(before, mid, HeldIn(before, dead)) && c !in dead
    requires i in before.insts && before.insts[i].parent == Some(c) && before.insts[i].kind.Phi? && PhiOk(before, i, c)
    ensures i in mid.insts && mid.insts[i].kind.Phi?
    ensures SamePhi(before, c, before.insts[i].kind, KeepIncomings(mid.insts[i].kind, dead))
  {
    SurvivorUndef(before, mid, HeldIn(before, dead), i);
    hide Edge, Reachable, HasIncoming, PhiOk, UndefErased, UndefinedInst, ExactlyUnreachable, HeldIn, KeepIncomings;
    assert mid.insts[i].kind.Phi? by { SurvivorPhi(before, mid, HeldIn(before, dead), i); }
    KeepJumps(mid.insts[i].kind, dead);
    var ka, kb := before.insts[i].kind, KeepIncomings(mid.insts[i].kind, dead);
    forall p, idx | Reachable(before, p) && Edge(before, p, c) ensures SameEntry(ka, kb, p, idx) {
      ReachableEntryKept(before, mid, dead, c, i, p, idx);
      IncomingIn(ka, idx, p);
      IncomingIn(kb, idx, p);
    }
    SameEntries(before, c, ka, kb);
  }

  predicate SameEntry(ka: InstKind, kb: InstKind, p: BlockId, idx: nat) {
    && (HasIncoming(ka, idx, p) <==> HasIncoming(kb, idx, p))
    && (HasIncoming(ka, idx, p) ==> kb.incomings[idx].value == ka.incomings[idx].value)
  }

  lemma SameEntries(body: Body, c: BlockId, ka: InstKind, kb: InstKind)
    requires ka.Phi? && kb.Phi? && forall p, idx :: Reachable(body, p) && Edge(body, p, c) ==> SameEntry(ka, kb, p, idx)
    ensures SamePhi(body, c, ka, kb)
  {
    hide Reachable, Edge;
    forall p, idx | Reachable(body, p) && Edge(body, p, c)
      ensures HasIncoming(ka, idx, p) <==> HasIncoming(kb, idx, p)
      ensures HasIncoming(ka, idx, p) ==> kb.incomings[idx].value == ka.incomings[idx].value
    {
      assert SameEntry(ka, kb, p, idx);
    }
  }

  lemma IncomingIn(kind: InstKind, idx: nat, p: BlockId)
    ensures HasIncoming(kind, idx, p) ==> kind.Phi? && idx in kind.incomings
  {
  }

  lemma SurvivorUndef(before: Body, mid: Body, gone: set<InstId>, i: InstId)
    requires UndefErased(before, mid, gone) && i in before.insts && i !in gone
    ensures i in mid.insts && UndefinedInst(before.insts[i], mid.insts[i], gone, |before.consts|, mid.consts)
  {
    hide UndefinedInst;
  }

  lemma SurvivorPhi(before: Body, mid: Body, gone: set<InstId>, i: InstId)
    requires i in before.insts && i in mid.insts
    requires UndefinedInst(before.insts[i], mid.insts[i], gone, |before.consts|, mid.consts)
    ensures mid.insts[i].kind.Phi? == before.insts[i].kind.Phi?
  {
    hide ValueOperands, BlockOperands;
    if before.insts[i].parent.Some? {
      if before.insts[i].kind.Phi? {
        SkeletonPhi(before.insts[i].kind, mid.insts[i].kind);
      }
      if mid.insts[i].kind.Phi? {
        SkeletonPhi(mid.insts[i].kind, before.insts[i].kind);
      }
    }
    hide Skeleton;
  }

  lemma PrunedInst(before: Body, mid: Body, dead: set<BlockId>, c: BlockId, i: InstId)
    requires SSA(before) && ExactlyUnreachable(before, dead) && UndefErased(before, mid, HeldIn(before, dead))
    requires c in before.blocks && Reachable(before, c) && Contains(before.blocks[c], i)
    ensures TrimmedInst(before, WithoutBlocks(mid, dead), c, i)
  {
    ListedHere(before, c, i);
    assert BlockOk(before, c) && c !in dead;
    HeldMember(before, dead, i);
    hide SSA, ExactlyUnreachable, Reachable, ArgsAvailable, PhiOk, HeldIn, UndefErased, SamePhi, WellPlaced;
    SurvivorUndef(before, mid, HeldIn(before, dead), i);
    hide UndefinedInst;
    if before.insts[i].kind.Phi? {
      ReachablePhiKept(before, mid, dead, c, i);
      ErasedParents(before, mid, HeldIn(before, dead), i);
      UndefTypes(before, mid, HeldIn(before, dead), i);
    } else {
      assert mid.insts[i] == before.insts[i] by { OrdinaryKept(before, mid, dead, c, i); }
    }
    hide KeepIncomings;
  }

  lemma OrdinaryKept(before: Body, mid: Body, dead: set<BlockId>, c: BlockId, i: InstId)
    requires ExactlyUnreachable(before, dead) && UndefErased(before, mid, HeldIn(before, dead)) && c in before.blocks
    requires Reachable(before, c) && c !in dead
    requires BlockOk(before, c) && Contains(before.blocks[c], i) && i in before.insts
    requires before.insts[i].parent == Some(c) && !before.insts[i].kind.Phi?
    requires Lists(before.blocks[c], before.insts[i].kind, i)
    ensures i in mid.insts && mid.insts[i] == before.insts[i]
  {
    hide ExactlyUnreachable, Reachable, ArgsAvailable, PhiOk, HeldIn, UndefErased;
    var blk := before.blocks[c];
    if blk.terminator == Some(i) {
      ReachableInstKept(before, mid, dead, c, i, |blk.insts|);
    } else {
      var k :| 0 <= k < |blk.insts| && blk.insts[k] == i;
      ReachableInstKept(before, mid, dead, c, i, k);
    }
  }

  lemma UndefTypes(before: Body, mid: Body, gone: set<InstId>, i: InstId)
    requires UndefErased(before, mid, gone) && i in mid.insts
    ensures i in before.insts && mid.insts[i].ty == before.insts[i].ty
  {
    hide ValueOperands, BlockOperands, Skeleton;
    assert UndefinedInst(before.insts[i], mid.insts[i], gone, |before.consts|, mid.consts);
  }

  /** Erasing the unreachable blocks trims the body. */
  lemma PrunedIsTrimmed(before: Body, mid: Body, dead: set<BlockId>)
    requires SSA(before) && ExactlyUnreachable(before, dead) && UndefErased(before, mid, HeldIn(before, dead))
    ensures Trimmed(before, WithoutBlocks(mid, dead))
  {
    var after := WithoutBlocks(mid, dead);
    forall c | c in before.blocks && c !in dead ensures mid.blocks[c] == before.blocks[c] {
      LiveBlockKept(before, mid, dead, c);
    }
    forall c, i | c in before.blocks && Reachable(before, c) && Contains(before.blocks[c], i)
      ensures TrimmedInst(before, after, c, i)
    {
      PrunedInst(before, mid, dead, c, i);
    }
    assert before.consts <= mid.consts && mid.blocks.Keys == before.blocks.Keys;
    hide SSA, TrimmedInst, HeldIn, RemoveSet, UndefinedInst, Reachable;
  }

  lemma LiveBlockKept(before: Body, mid: Body, dead: set<BlockId>, c: BlockId)
    requires WellPlaced(before) && UndefErased(before, mid, HeldIn(before, dead)) && c in before.blocks && c !in dead
    ensures c in mid.blocks && mid.blocks[c] == before.blocks[c]
  {
    hide OperandsExist, UndefinedInst, HeldIn, WellPlaced;
    var blk, gone := before.blocks[c], HeldIn(before, dead);
    forall i ensures Contains(blk, i) ==> i !in gone {
      ContainedHere(before, c, i);
      if i in before.insts {
        HeldMember(before, dead, i);
      }
    }
    KeptBlock(blk, gone);
    hide RemoveSet, Contains;
  }

  lemma KeptBlock(blk: BlockData, gone: set<InstId>)
    requires forall i :: Contains(blk, i) ==> i !in gone
    ensures RemoveSet(blk, gone) == blk
  {
    assert forall i :: i in blk.phis ==> Contains(blk, i);
    assert forall i :: i in blk.insts ==> Contains(blk, i);
    assert blk.terminator.Some? ==> Contains(blk, blk.terminator.value);
    WithoutAllAbsent(blk.phis, gone);
    WithoutAllAbsent(blk.insts, gone);
    hide WithoutAll;
  }

  // ---------------------------------------------------------------- one phi at a time

  /** The blocks a phi has entries for. */
  function PhiBlocks(kind: InstKind): map<nat, BlockId> {
    if kind.Phi? then map k | k in kind.incomings :: kind.incomings[k].block else map[]
  }

  /** Entries only for real predecessors, and never exactly one. */
  ghost predicate CleanPhi(body: Body, i: InstId) {
    Attached(body, i) && body.insts[i].kind.Phi? ==>
      |PhiBlocks(body.insts[i].kind)| != 1 &&
      forall k :: k in PhiBlocks(body.insts[i].kind) ==>
        Edge(body, PhiBlocks(body.insts[i].kind)[k], body.insts[i].parent.value)
  }

  /** Blocks end in the same instructions, and the same of them are plain jumps. */
  ghost predicate SameJumps(a: Body, b: Body) {
    && (forall c :: c in a.blocks && c in b.blocks ==> b.blocks[c].terminator == a.blocks[c].terminator)
    && (forall i :: i in a.insts && i in b.insts ==> Jumps(b.insts[i].kind) == Jumps(a.insts[i].kind))
  }

  predicate Jumps(kind: InstKind) {
    kind.Branch? && kind.cond.None?
  }

  /** Terminators produce no value, so nothing has one as an operand. */
  ghost predicate TerminatorsUnused(body: Body) {
    forall i, s :: Attached(body, i) && s in ValueOperands(body.insts[i].kind) ==>
      !NamesTerminator(body, ValueOperands(body.insts[i].kind)[s])
  }

  ghost predicate NamesTerminator(body: Body, v: ValueId) {
    v.InstValue? && v.inst in body.insts && IsTerminator(body.insts[v.inst].kind)
  }

  /** A rewriting step that erases some phis and that observers of everything else cannot notice. */
  ghost predicate QuietStep(a: Body, b: Body, gone: set<InstId>) {
    && SSA(b) && SameEdges(a, b) && SameJumps(a, b) && b.blocks.Keys == a.blocks.Keys
    && b.insts.Keys == a.insts.Keys - gone
    && (forall i :: i in gone && i in a.insts ==> a.insts[i].kind.Phi?)
    && (forall obs: set<InstId> :: obs !! gone ==> Lockstep(a, b, obs))
    && (forall i :: i in b.insts ==>
         b.insts[i].parent == a.insts[i].parent && b.insts[i].kind.Phi? == a.insts[i].kind.Phi?)
    && (TerminatorsUnused(a) ==> TerminatorsUnused(b))
  }

  /** Every operand of b that an instruction produces is one of a. */
  lemma OperandsFromBefore(a: Body, b: Body)
    requires TerminatorsUnused(a)
    requires forall i :: i in b.insts ==> i in a.insts && IsTerminator(b.insts[i].kind) == IsTerminator(a.insts[i].kind)
    requires forall i, s :: Attached(b, i) && s in ValueOperands(b.insts[i].kind) ==>
      ValueOperands(b.insts[i].kind)[s].InstValue? ==>
      IsOperand(a, ValueOperands(b.insts[i].kind)[s])
    ensures TerminatorsUnused(b)
  {
    hide ValueOperands, IsTerminator;
    forall i, s | Attached(b, i) && s in ValueOperands(b.insts[i].kind)
      ensures !NamesTerminator(b, ValueOperands(b.insts[i].kind)[s])
    {
      var v := ValueOperands(b.insts[i].kind)[s];
      if v.InstValue? {
        assert IsOperand(a, v);
      }
    }
  }

  ghost predicate IsOperand(body: Body, v: ValueId) {
    exists i, s :: OperandAt(body, i, s, v)
  }

  ghost predicate OperandAt(body: Body, i: InstId, s: OperandSlot, v: ValueId) {
    Attached(body, i) && s in ValueOperands(body.insts[i].kind) && ValueOperands(body.insts[i].kind)[s] == v
  }

  lemma QuietTransitive(a: Body, b: Body, c: Body, g: set<InstId>, h: set<InstId>)
    requires QuietStep(a, b, g) && QuietStep(b, c, h)
    ensures QuietStep(a, c, g + h)
  {
    hide SSA, Lockstep, Edge;
    forall obs: set<InstId> | obs !! g + h ensures Lockstep(a, c, obs) {
      LockstepTransitive(a, b, c, obs);
    }
  }

  lemma QuietReflexive(a: Body)
    requires SSA(a)
    ensures QuietStep(a, a, {})
  {
    hide SSA, Execute, Edge;
    forall obs: set<InstId> ensures Lockstep(a, a, obs) {
      LockstepReflexive(a, obs);
    }
  }

  /** Dropping an entry for a block that is no predecessor. */
  lemma DropForeign(body: Body, phi: InstId, k: nat)
    requires SSA(body) && Attached(body, phi) && body.insts[phi].kind.Phi? && k in body.insts[phi].kind.incomings
    requires !Edge(body, body.insts[phi].kind.incomings[k].block, body.insts[phi].parent.value)
    requires WellPlaced(WithKind(body, phi, DropIncoming(body.insts[phi].kind, k)))
    ensures QuietStep(body, WithKind(body, phi, DropIncoming(body.insts[phi].kind, k)), {})
  {
    var b := WithKind(body, phi, DropIncoming(body.insts[phi].kind, k));
    DropTrims(body, phi, k);
    TrimmedSSA(body, b);
    DropEdges(body, phi, k);
    DropUnused(body, phi, k);
    hide TerminatorsUnused;
    hide SSA, Trimmed, Edge, Lockstep, WellPlaced;
    forall obs: set<InstId> ensures Lockstep(body, b, obs) {
      TrimmedLockstep(body, b, obs);
    }
  }

  lemma DropEdges(body: Body, phi: InstId, k: nat)
    requires Attached(body, phi) && body.insts[phi].kind.Phi?
    ensures SameEdges(body, WithKind(body, phi, DropIncoming(body.insts[phi].kind, k)))
  {
  }

  lemma DropUnused(body: Body, phi: InstId, k: nat)
    requires Attached(body, phi) && body.insts[phi].kind.Phi? && k in body.insts[phi].kind.incomings
    ensures TerminatorsUnused(body) ==> TerminatorsUnused(WithKind(body, phi, DropIncoming(body.insts[phi].kind, k)))
  {
    var b := WithKind(body, phi, DropIncoming(body.insts[phi].kind, k));
    if TerminatorsUnused(body) {
      forall i, s | Attached(b, i) && s in ValueOperands(b.insts[i].kind)
        && ValueOperands(b.insts[i].kind)[s].InstValue?
        ensures IsOperand(body, ValueOperands(b.insts[i].kind)[s])
      {
        assert OperandAt(body, i, s, ValueOperands(b.insts[i].kind)[s]);
      }
      OperandsFromBefore(body, b);
    }
  }

  lemma DropTrims(body: Body, phi: InstId, k: nat)
    requires WellPlaced(body) && Attached(body, phi) && body.insts[phi].kind.Phi? && k in body.insts[phi].kind.incomings
    requires !Edge(body, body.insts[phi].kind.incomings[k].block, body.insts[phi].parent.value)
    ensures Trimmed(body, WithKind(body, phi, DropIncoming(body.insts[phi].kind, k)))
  {
    hide OperandsExist, Edge, Reachable;
    var b := WithKind(body, phi, DropIncoming(body.insts[phi].kind, k));
    forall c, i | c in body.blocks && Reachable(body, c) && Contains(body.blocks[c], i)
      ensures TrimmedInst(body, b, c, i)
    {
      ListedHere(body, c, i);
    }
  }

  lemma SingleIsUniform(kind: InstKind)
    requires kind.Phi? && |kind.incomings| == 1
    ensures Uniform(kind) && exists k :: kind.incomings.Keys == {k}
  {
    var k :| k in kind.incomings;
    assert |kind.incomings.Keys - {k}| == 0;
    assert kind.incomings.Keys == {k};
  }

  /** Exchanging a phi with one entry for that entry's value, and erasing it. */
  lemma ReplaceSingle(body: Body, phi: InstId, v: ValueId, k: nat)
    requires SSA(body) && Attached(body, phi) && body.insts[phi].kind.Phi?
    requires Reachable(body, body.insts[phi].parent.value)
    requires body.insts[phi].kind.incomings.Keys == {k} && body.insts[phi].kind.incomings[k].value == v
    ensures Knows(body, v) && v != InstValue(phi) && Interchangeable(body, phi, v)
    ensures QuietStep(body, SubstituteAll(body, InstValue(phi), v), {})
  {
    IncomingKnown(body, phi, k);
    UniformInterchangeable(body, phi, v);
    SubstSSA(body, phi, v);
    SubstEdges(body, InstValue(phi), v);
    var b := SubstituteAll(body, InstValue(phi), v);
    forall i | i in b.insts
      ensures b.insts[i].kind.Phi? == body.insts[i].kind.Phi? && Jumps(b.insts[i].kind) == Jumps(body.insts[i].kind)
    {
      SubstRole(body.insts[i].kind, InstValue(phi), v);
    }
    SingleUnused(body, phi, v, k);
    hide SSA, Edge, Lockstep, Reachable, Subst, TerminatorsUnused;
    forall obs: set<InstId> ensures Lockstep(body, b, obs) {
      SubstLockstep(body, obs, phi, v);
    }
    assert v != InstValue(phi);
    hide Interchangeable;
  }

  lemma SingleUnused(body: Body, phi: InstId, v: ValueId, k: nat)
    requires Attached(body, phi) && body.insts[phi].kind.Phi? && k in body.insts[phi].kind.incomings
    requires body.insts[phi].kind.incomings[k].value == v
    ensures TerminatorsUnused(body) ==> TerminatorsUnused(SubstituteAll(body, InstValue(phi), v))
  {
    var b := SubstituteAll(body, InstValue(phi), v);
    if TerminatorsUnused(body) {
      forall i | i in b.insts ensures IsTerminator(b.insts[i].kind) == IsTerminator(body.insts[i].kind) {
        OperatorSubst(i, body.insts[i], InstValue(phi), v);
      }
      assert OperandAt(body, phi, PhiIncomingVal(k), v);
      forall i, s | Attached(b, i) && s in ValueOperands(b.insts[i].kind)
        && ValueOperands(b.insts[i].kind)[s].InstValue?
        ensures IsOperand(body, ValueOperands(b.insts[i].kind)[s])
      {
        SubstOperand(body, phi, v, i, s);
      }
      hide SubstituteAll;
      OperandsFromBefore(body, b);
    }
  }

  lemma SubstOperand(body: Body, phi: InstId, v: ValueId, i: InstId, s: OperandSlot)
    requires IsOperand(body, v) && Attached(SubstituteAll(body, InstValue(phi), v), i)
    requires s in ValueOperands(SubstituteAll(body, InstValue(phi), v).insts[i].kind)
    ensures IsOperand(body, ValueOperands(SubstituteAll(body, InstValue(phi), v).insts[i].kind)[s])
  {
    hide ValueOperands, Subst, Skeleton, BlockOperands;
    SubstExact(body.insts[i].kind, InstValue(phi), v);
    assert OperandAt(body, i, s, ValueOperands(body.insts[i].kind)[s]);
  }

  lemma SubstRole(kind: InstKind, from: ValueId, to: ValueId)
    ensures Subst(kind, from, to).Phi? == kind.Phi? && Jumps(Subst(kind, from, to)) == Jumps(kind)
  {
  }

  lemma EraseQuiet(body: Body, i: InstId)
    requires SSA(body) && Attached(body, i) && body.insts[i].kind.Phi?
    requires forall u :: u in Registry(body) ==> Registry(body)[u] != InstValue(i)
    ensures QuietStep(body, Erase(body, i), {i})
  {
    var b := Erase(body, i);
    PhiErasedJumps(body, i);
    EraseClears(body, i);
    UnreferencedUnread(body, i);
    ErasedUnused(body, i);
    ClearedSSA(body, b, {i});
    ClearedEdges(body, b, {i});
    hide SSA, WellPlaced, Erase, Unread, Edge, ClearBlock, TerminatorsUnused;
    forall obs: set<InstId> | obs !! {i} ensures Lockstep(body, b, obs) {
      assert WellPlaced(body) by { SsaPlaced(body); }
      ClearedLockstep(body, b, obs, {i});
    }
    hide Lockstep;
    assert b.blocks.Keys == body.blocks.Keys;
  }

  lemma ErasedUnused(body: Body, i: InstId)
    requires WellPlaced(body) && Attached(body, i)
    ensures TerminatorsUnused(body) ==> TerminatorsUnused(Erase(body, i))
  {
    EraseShape(body, i);
    var b := Erase(body, i);
    hide WellPlaced, Erase, ValueOperands, IsTerminator;
    if TerminatorsUnused(body) {
      forall j, s | Attached(b, j) && s in ValueOperands(b.insts[j].kind)
        && ValueOperands(b.insts[j].kind)[s].InstValue?
        ensures IsOperand(body, ValueOperands(b.insts[j].kind)[s])
      {
        assert OperandAt(body, j, s, ValueOperands(b.insts[j].kind)[s]);
      }
      OperandsFromBefore(body, b);
    }
  }

  lemma PhiErasedJumps(body: Body, i: InstId)
    requires WellPlaced(body) && Attached(body, i) && body.insts[i].kind.Phi?
    ensures SameJumps(body, Erase(body, i))
  {
    EraseShape(body, i);
    assert WellHeld(body, i);
    hide WellPlaced, Without;
  }

  // ---------------------------------------------------------------- the passes

  ghost predicate AllReachable(body: Body) {
    forall b :: b in body.blocks ==> Reachable(body, b)
  }

  lemma QuietReachable(a: Body, b: Body, gone: set<InstId>)
    requires QuietStep(a, b, gone) && AllReachable(a)
    ensures AllReachable(b)
  {
    hide SSA, Lockstep;
    SamePaths(a, b);
    hide Reachable;
  }

  lemma QuietCfg(a: Body, b: Body, gone: set<InstId>, cfg: ControlFlowGraph)
    requires QuietStep(a, b, gone) && CfgOf(a, cfg)
    ensures CfgOf(b, cfg)
  {
    hide SSA, Lockstep, Edge;
  }

  /** Part way through the phis: those done are clean or gone. */
  ghost predicate Cleaning(start: Body, now: Body, gone: set<InstId>, done: set<InstId>) {
    && QuietStep(start, now, gone) && gone <= done
    && forall i :: i in done && i in now.insts ==> CleanPhi(now, i)
  }

  /** A quiet step keeps clean phis clean when it keeps the blocks they have entries for. */
  lemma CleanStep(start: Body, now: Body, next: Body, gone: set<InstId>, more: set<InstId>, done: set<InstId>)
    requires Cleaning(start, now, gone, done) && QuietStep(now, next, more)
    requires forall i :: i in next.insts && i in done ==> PhiBlocks(next.insts[i].kind) == PhiBlocks(now.insts[i].kind)
    ensures Cleaning(start, next, gone + more, done + more)
  {
    QuietTransitive(start, now, next, gone, more);
    hide SSA, Lockstep, Edge, PhiBlocks;
    forall i | i in done + more && i in next.insts ensures CleanPhi(next, i) {
      assert CleanPhi(now, i);
    }
  }

  lemma SubstBlocks(kind: InstKind, from: ValueId, to: ValueId)
    ensures PhiBlocks(Subst(kind, from, to)) == PhiBlocks(kind)
  {
  }

  /** Removes the entries of one phi whose blocks are no predecessors. */
  method DropForeignEntries(m: ModuleCore, cfg: ControlFlowGraph, phi: InstId, parent: BlockId, ghost start: Body,
                            ghost gone: set<InstId>, ghost done: set<InstId>)
    requires m.Valid() && Cleaning(start, m.Now(), gone, done) && CfgOf(m.Now(), cfg) && parent in m.blocks
    requires phi in m.insts && m.insts[phi].parent == Some(parent) && m.insts[phi].kind.Phi? && phi !in done
    modifies m`insts, m`valueUses, m`blockUses
    ensures m.Valid() && Cleaning(start, m.Now(), gone, done) && CfgOf(m.Now(), cfg) && m.blocks == old(m.blocks)
    ensures phi in m.insts && m.insts[phi].parent == Some(parent) && m.insts[phi].kind.Phi?
    ensures forall k :: k in m.insts[phi].kind.incomings ==> Edge(m.Now(), m.insts[phi].kind.incomings[k].block, parent)
  {
    hide WellPlaced, Exact, Registry, BlockRegistry, QuietStep, SSA, Edge;
    var incomings := m.insts[phi].kind.incomings;
    var labels := set k | k in incomings && incomings[k].block !in cfg.preds[parent];
    while labels != {}
      invariant m.Valid() && Cleaning(start, m.Now(), gone, done) && CfgOf(m.Now(), cfg) && m.blocks == old(m.blocks)
      invariant phi in m.insts && m.insts[phi].parent == Some(parent) && m.insts[phi].kind.Phi?
      invariant labels <= m.insts[phi].kind.incomings.Keys
      invariant forall k :: k in m.insts[phi].kind.incomings && k !in labels ==>
        m.insts[phi].kind.incomings[k].block in cfg.preds[parent]
      invariant forall k :: k in labels ==> m.insts[phi].kind.incomings[k].block !in cfg.preds[parent]
      decreases labels
    {
      var k :| k in labels;
      ghost var now := m.Now();
      CleaningSSA(start, now, gone, done);
      m.PhiRemoveIncomingFrom(phi, k);
      assert WellPlaced(m.Now());
      DropForeign(now, phi, k);
      CleanStep(start, now, m.Now(), gone, {}, done);
      assert gone + {} == gone && done + {} == done;
      QuietCfg(now, m.Now(), {}, cfg);
      labels := labels - {k};
    }
  }

  lemma CleaningSSA(start: Body, now: Body, gone: set<InstId>, done: set<InstId>)
    requires Cleaning(start, now, gone, done)
    ensures SSA(now) && QuietStep(start, now, gone)
  {
    hide SSA, Lockstep;
  }

  /** Exchanges a phi with exactly one entry for its value, and erases it. */
  method ReplaceSinglePhi(m: ModuleCore, phi: InstId, ghost start: Body, ghost gone: set<InstId>,
                          ghost done: set<InstId>)
    requires m.Valid() && Cleaning(start, m.Now(), gone, done) && AllReachable(m.Now())
    requires Attached(m.Now(), phi) && m.insts[phi].kind.Phi? && |m.insts[phi].kind.incomings| == 1
    requires m.insts[phi].parent.value in m.blocks
    modifies m
    ensures m.Valid() && Cleaning(start, m.Now(), gone + {phi}, done + {phi})
  {
    hide WellPlaced, Exact, Registry, BlockRegistry, QuietStep, SSA, Edge, PhiBlocks, Subst, Reachable, Erase;
    ghost var now := m.Now();
    SingleIsUniform(m.insts[phi].kind);
    var k :| k in m.insts[phi].kind.incomings;
    var v := m.insts[phi].kind.incomings[k].value;
    assert m.insts[phi].kind.incomings.Keys == {k};
    CleaningSSA(start, now, gone, done);
    ReplaceSingle(now, phi, v, k);
    m.ReplaceAllUsesWith(InstValue(phi), v);
    ghost var mid := m.Now();
    forall i | i in mid.insts && i in done ensures PhiBlocks(mid.insts[i].kind) == PhiBlocks(now.insts[i].kind) {
      SubstBlocks(now.insts[i].kind, InstValue(phi), v);
    }
    CleanStep(start, now, mid, gone, {}, done);
    assert gone + {} == gone && done + {} == done;
    CleaningSSA(start, mid, gone, done);
    NoUsesNoReferences(mid, m.valueUses, InstValue(phi));
    assert mid.insts[phi].kind.Phi? by { OperatorSubst(phi, now.insts[phi], InstValue(phi), v); }
    EraseQuiet(mid, phi);
    m.EraseInstFromParent(phi);
    ErasedSame(mid, phi);
    CleanStep(start, mid, m.Now(), gone, {phi}, done);
  }

  lemma ErasedSame(body: Body, i: InstId)
    requires SSA(body) && Attached(body, i)
    ensures forall j :: j in Erase(body, i).insts ==> j in body.insts && Erase(body, i).insts[j] == body.insts[j]
  {
    EraseShape(body, i);
    hide WellPlaced, Erase;
  }

  /** Cleans every phi: foreign entries go, and a phi left with one entry becomes that entry's value. */
  method UselessPhiElimination(m: ModuleCore) returns (ghost gone: set<InstId>)
    requires m.Valid() && SSA(m.Now()) && AllReachable(m.Now())
    modifies m
    ensures m.Valid() && QuietStep(old(m.Now()), m.Now(), gone)
    ensures forall i :: CleanPhi(m.Now(), i)
  {
    hide WellPlaced, Exact, Registry, BlockRegistry, QuietStep, SSA, Edge, CleanPhi, Reachable;
    ghost var start := m.Now();
    var cfg := BuildCfg(m);
    var phis := set i | i in m.insts && m.insts[i].parent.Some? && m.insts[i].kind.Phi?;
    ghost var done: set<InstId> := {};
    gone := {};
    StartCleaning(start);
    while phis != {}
      invariant m.Valid() && Cleaning(start, m.Now(), gone, done) && CfgOf(m.Now(), cfg) && AllReachable(m.Now())
      invariant phis !! done && (forall i :: i in phis ==> i in start.insts)
      invariant forall i :: Attached(start, i) && start.insts[i].kind.Phi? ==> i in phis || i in done
      decreases phis
    {
      var phi :| phi in phis;
      ghost var now := m.Now();
      StillPhi(start, now, gone, done, phi);
      var parent := m.insts[phi].parent.value;
      DropForeignEntries(m, cfg, phi, parent, start, gone, done);
      ghost var mid := m.Now();
      CleaningReachable(start, now, mid, gone, done);
      if |m.insts[phi].kind.incomings| == 1 {
        ReplaceSinglePhi(m, phi, start, gone, done);
        gone := gone + {phi};
        CleaningGraph(start, m.Now(), gone, done + {phi}, cfg);
      } else {
        NowClean(start, mid, gone, done, phi);
      }
      done := done + {phi};
      phis := phis - {phi};
    }
    AllClean(start, m.Now(), gone, done);
  }

  lemma StartCleaning(start: Body)
    requires SSA(start)
    ensures Cleaning(start, start, {}, {})
  {
    hide SSA;
    QuietReflexive(start);
    hide QuietStep;
  }

  lemma StillPhi(start: Body, now: Body, gone: set<InstId>, done: set<InstId>, phi: InstId)
    requires Cleaning(start, now, gone, done) && WellPlaced(now) && phi in start.insts && phi !in done
    requires Attached(start, phi) && start.insts[phi].kind.Phi?
    ensures Attached(now, phi) && now.insts[phi].kind.Phi? && now.insts[phi].parent.value in now.blocks
  {
    hide SSA, Lockstep, CleanPhi;
    assert phi in now.insts;
    assert WellHeld(now, phi);
  }

  lemma CleaningReachable(start: Body, now: Body, mid: Body, gone: set<InstId>, done: set<InstId>)
    requires Cleaning(start, now, gone, done) && Cleaning(start, mid, gone, done) && AllReachable(now)
    ensures AllReachable(mid)
  {
    hide SSA, Lockstep, CleanPhi;
    SamePaths(now, mid);
    hide Reachable;
  }

  lemma CleaningGraph(start: Body, now: Body, gone: set<InstId>, done: set<InstId>, cfg: ControlFlowGraph)
    requires Cleaning(start, now, gone, done) && CfgOf(start, cfg) && AllReachable(start)
    ensures CfgOf(now, cfg) && AllReachable(now)
  {
    hide CleanPhi;
    QuietCfg(start, now, gone, cfg);
    QuietReachable(start, now, gone);
    hide QuietStep;
  }

  lemma NowClean(start: Body, now: Body, gone: set<InstId>, done: set<InstId>, phi: InstId)
    requires Cleaning(start, now, gone, done) && Attached(now, phi) && now.insts[phi].kind.Phi?
    requires |now.insts[phi].kind.incomings| != 1
    requires forall k :: k in now.insts[phi].kind.incomings ==>
      Edge(now, now.insts[phi].kind.incomings[k].block, now.insts[phi].parent.value)
    ensures Cleaning(start, now, gone, done + {phi})
  {
    hide QuietStep, Edge;
    var blocks := PhiBlocks(now.insts[phi].kind);
    assert blocks.Keys == now.insts[phi].kind.incomings.Keys;
    assert |blocks| == |blocks.Keys| && |now.insts[phi].kind.incomings| == |now.insts[phi].kind.incomings.Keys|;
    assert CleanPhi(now, phi);
  }

  lemma AllClean(start: Body, now: Body, gone: set<InstId>, done: set<InstId>)
    requires Cleaning(start, now, gone, done)
    requires forall i :: Attached(start, i) && start.insts[i].kind.Phi? ==> i in done
    ensures QuietStep(start, now, gone) && forall i :: CleanPhi(now, i)
  {
    hide SSA, Lockstep, Edge, PhiBlocks;
    forall i ensures CleanPhi(now, i) {
      if Attached(now, i) && now.insts[i].kind.Phi? {
        assert Attached(start, i);
      }
    }
  }

  ghost predicate InDeadBlock(body: Body, i: InstId)
    requires i in body.insts
  {
    body.insts[i].parent.Some? && !Reachable(body, body.insts[i].parent.value)
  }

  /** Dead-block elimination: the blocks that remain are exactly the reachable ones, phis have
      entries for real predecessors only, and every run from the entry is preserved. */
  method DeadBlockElimination(m: ModuleCore)
    requires m.Valid() && SSA(m.Now())
    modifies m
    ensures m.Valid() && SSA(m.Now()) && AllReachable(m.Now())
    ensures forall b :: b in m.blocks <==> b in old(m.blocks) && Reachable(old(m.Now()), b)
    ensures m.insts.Keys <= old(m.insts).Keys
    ensures (forall obs: set<InstId> :: obs <= m.insts.Keys ==> Lockstep(old(m.Now()), m.Now(), obs))
    ensures EndsAsBefore(old(m.Now()), m.Now())
    ensures forall i :: i in old(m.insts) && i !in m.insts ==> old(m.insts[i]).kind.Phi? || InDeadBlock(old(m.Now()), i)
    ensures forall i :: CleanPhi(m.Now(), i)
  {
    hide WellPlaced, Exact, Registry, BlockRegistry, QuietStep, SSA, Edge, CleanPhi, Reachable, UndefErased,
      WithoutBlocks, HeldIn, Trimmed, CfgOf, NumberingOf,
      EndsAsBefore, Lockstep;
    ghost var before := m.Now();
    var cfg := BuildCfg(m);
    var order, _, num := BuildDfn(cfg);
    var reachable := set b: BlockId | b in order;
    forall b ensures b in order <==> Reachable(before, b) {
      NumberedExactlyReachable(before, cfg, num, b);
    }
    var deadBlocks := FilterDead(m.order, reachable);
    ghost var dead := Members(deadBlocks);
    SsaPlaced(before);
    DeadList(before, m.order, reachable, deadBlocks);
    DeadNotTargeted(before, dead);
    ghost var mid := EraseBlocksFromParent(m, deadBlocks);
    PrunedIsTrimmed(before, mid, dead);
    ghost var trimmed := m.Now();
    assert WellPlaced(trimmed);
    TrimmedSSA(before, trimmed);
    TrimmedAllReachable(before, mid, dead);
    ghost var gone := UselessPhiElimination(m);
    PassDone(before, mid, dead, m.Now(), gone);
    PassEnds(before, mid, dead, m.Now(), gone);
  }

  function FilterDead(order: seq<BlockId>, reachable: set<BlockId>): (r: seq<BlockId>)
    ensures forall b :: b in r <==> b in order && b !in reachable
    ensures Distinct(order) ==> Distinct(r)
  {
    if order == [] then []
    else
      var r := FilterDead(order[1..], reachable);
      assert order == [order[0]] + order[1..];
      assert Distinct(order) ==> Distinct(order[1..]) && order[0] !in order[1..] && order[0] !in r;
      if order[0] in reachable then r else [order[0]] + r
  }

  lemma DeadList(body: Body, order: seq<BlockId>, reachable: set<BlockId>, deadBlocks: seq<BlockId>)
    requires WellPlaced(body) && order == body.order && deadBlocks == FilterDead(order, reachable)
    requires forall b :: b in reachable <==> Reachable(body, b)
    ensures Distinct(deadBlocks) && (forall b :: b in deadBlocks ==> b in body.blocks && b != body.entry)
    ensures ExactlyUnreachable(body, Members(deadBlocks))
  {
    EntryReachable(body);
    hide Reachable, OperandsExist;
  }

  lemma TrimmedAllReachable(before: Body, mid: Body, dead: set<BlockId>)
    requires SSA(before) && ExactlyUnreachable(before, dead) && UndefErased(before, mid, HeldIn(before, dead))
    requires Trimmed(before, WithoutBlocks(mid, dead))
    ensures AllReachable(WithoutBlocks(mid, dead))
    ensures forall b :: b in WithoutBlocks(mid, dead).blocks <==> b in before.blocks && Reachable(before, b)
  {
    TrimmedGraph(before, WithoutBlocks(mid, dead));
    hide SSA, Trimmed, Reachable, HeldIn;
    ErasedKeys(before, mid, HeldIn(before, dead));
    hide UndefErased;
  }

  lemma QuietLockstep(a: Body, b: Body, gone: set<InstId>, obs: set<InstId>)
    requires QuietStep(a, b, gone) && obs <= b.insts.Keys
    ensures Lockstep(a, b, obs)
  {
    hide SSA, Lockstep, Edge, TerminatorsUnused;
    assert obs !! gone;
  }

  lemma PassErases(before: Body, mid: Body, dead: set<BlockId>, now: Body, gone: set<InstId>)
    requires ExactlyUnreachable(before, dead) && UndefErased(before, mid, HeldIn(before, dead))
    requires QuietStep(WithoutBlocks(mid, dead), now, gone)
    ensures forall i :: i in before.insts && i !in now.insts ==> before.insts[i].kind.Phi? || InDeadBlock(before, i)
  {
    hide SSA, Lockstep, Reachable, Edge, HeldIn, SameEdges, SameJumps, UndefinedInst, RemoveSet;
    forall i | i in before.insts && i !in now.insts ensures before.insts[i].kind.Phi? || InDeadBlock(before, i) {
      HeldMember(before, dead, i);
      if i !in HeldIn(before, dead) {
        assert i in mid.insts && WithoutBlocks(mid, dead).insts[i].kind.Phi?;
        SurvivorUndef(before, mid, HeldIn(before, dead), i);
        SurvivorPhi(before, mid, HeldIn(before, dead), i);
      }
    }
  }

  lemma SkeletonTerminates(a: InstKind, b: InstKind)
    requires Skeleton(a) == Skeleton(b)
    ensures IsTerminator(a) == IsTerminator(b)
  {
  }

  /** What erasing dead blocks leaves has the operands it had, or undefined constants. */
  lemma PrunedUnused(before: Body, mid: Body, dead: set<BlockId>)
    requires UndefErased(before, mid, HeldIn(before, dead)) && TerminatorsUnused(before)
    ensures TerminatorsUnused(WithoutBlocks(mid, dead))
  {
    var b := WithoutBlocks(mid, dead);
    hide HeldIn, ValueOperands, IsTerminator, UndefErased, UndefinedInst, KeepIncomings, Skeleton, BlockOperands;
    ErasedKeys(before, mid, HeldIn(before, dead));
    forall i | i in b.insts
      ensures i in before.insts && IsTerminator(b.insts[i].kind) == IsTerminator(before.insts[i].kind)
    {
      SurvivorUndef(before, mid, HeldIn(before, dead), i);
      UndefKeepsRole(before.insts[i], mid.insts[i], HeldIn(before, dead), |before.consts|, mid.consts);
      KeepRole(mid.insts[i].kind, dead);
    }
    forall i, s | Attached(b, i) && s in ValueOperands(b.insts[i].kind) && ValueOperands(b.insts[i].kind)[s].InstValue?
      ensures IsOperand(before, ValueOperands(b.insts[i].kind)[s])
    {
      SurvivorUndef(before, mid, HeldIn(before, dead), i);
      KeepOperands(mid.insts[i].kind, dead, s);
      UndefOperand(before.insts[i], mid.insts[i], HeldIn(before, dead), |before.consts|, mid.consts, s);
      assert OperandAt(before, i, s, ValueOperands(b.insts[i].kind)[s]);
    }
    OperandsFromBefore(before, b);
  }

  lemma UndefKeepsRole(a: InstData, b: InstData, doomed: set<InstId>, base: nat, consts: seq<ConstData>)
    requires UndefinedInst(a, b, doomed, base, consts)
    ensures IsTerminator(b.kind) == IsTerminator(a.kind) && b.parent == a.parent
  {
    hide ValueOperands, BlockOperands, Skeleton, IsTerminator;
    if a.parent.Some? {
      SkeletonTerminates(a.kind, b.kind);
    }
  }

  lemma UndefOperand(a: InstData, b: InstData, doomed: set<InstId>, base: nat, consts: seq<ConstData>, s: OperandSlot)
    requires UndefinedInst(a, b, doomed, base, consts) && s in ValueOperands(b.kind)
    requires ValueOperands(b.kind)[s].InstValue?
    ensures s in ValueOperands(a.kind) && ValueOperands(a.kind)[s] == ValueOperands(b.kind)[s] && b.parent == a.parent
  {
    hide ValueOperands, BlockOperands, Skeleton;
  }

  lemma KeepRole(kind: InstKind, dead: set<BlockId>)
    ensures IsTerminator(KeepIncomings(kind, dead)) == IsTerminator(kind)
  {
  }

  lemma KeepOperands(kind: InstKind, dead: set<BlockId>, s: OperandSlot)
    requires s in ValueOperands(KeepIncomings(kind, dead))
    ensures s in ValueOperands(kind) && ValueOperands(kind)[s] == ValueOperands(KeepIncomings(kind, dead))[s]
  {
  }

  /** Blocks end as before, instructions keep their roles, and the edges out of a block that remains are the same. */
  ghost predicate EndsAsBefore(before: Body, now: Body) {
    && now.entry == before.entry && (forall p, q :: Edge(now, p, q) <==> p in now.blocks && Edge(before, p, q))
    && (forall c :: c in now.blocks ==> c in before.blocks && now.blocks[c].terminator == before.blocks[c].terminator)
    && (forall i :: i in now.insts ==> SameEnding(before, now, i))
    && (TerminatorsUnused(before) ==> TerminatorsUnused(now))
  }

  ghost predicate SameEnding(a: Body, b: Body, i: InstId) {
    i in a.insts && i in b.insts && b.insts[i].kind.Phi? == a.insts[i].kind.Phi?
      && Jumps(b.insts[i].kind) == Jumps(a.insts[i].kind)
  }

  lemma PassEnds(before: Body, mid: Body, dead: set<BlockId>, now: Body, gone: set<InstId>)
    requires SSA(before) && ExactlyUnreachable(before, dead) && UndefErased(before, mid, HeldIn(before, dead))
    requires Trimmed(before, WithoutBlocks(mid, dead))
    requires QuietStep(WithoutBlocks(mid, dead), now, gone)
    ensures EndsAsBefore(before, now)
  {
    hide TerminatorsUnused, Lockstep, HeldIn, UndefErased, SSA, WithoutBlocks, Edge, Reachable, Trimmed, QuietStep,
      ExactlyUnreachable, SameEnding;
    if TerminatorsUnused(before) {
      PrunedUnused(before, mid, dead);
    }
    PrunedEnds(before, mid, dead);
    QuietEnds(WithoutBlocks(mid, dead), now, gone);
    forall i | i in now.insts ensures SameEnding(before, now, i) {
      SameEndingTransitive(before, WithoutBlocks(mid, dead), now, i);
    }
  }

  lemma SameEndingTransitive(a: Body, b: Body, c: Body, i: InstId)
    requires SameEnding(b, c, i) && (i in b.insts ==> SameEnding(a, b, i))
    ensures SameEnding(a, c, i)
  {
    hide Jumps;
  }

  lemma QuietEnds(a: Body, b: Body, gone: set<InstId>)
    requires QuietStep(a, b, gone)
    ensures b.entry == a.entry && (forall p, q :: Edge(b, p, q) <==> Edge(a, p, q)) && b.blocks.Keys == a.blocks.Keys
    ensures forall c :: c in b.blocks ==> c in a.blocks && b.blocks[c].terminator == a.blocks[c].terminator
    ensures (forall i :: i in b.insts ==> SameEnding(a, b, i)) && (TerminatorsUnused(a) ==> TerminatorsUnused(b))
  {
    hide Lockstep, SSA, Edge, TerminatorsUnused, Jumps;
  }

  lemma PrunedEnds(before: Body, mid: Body, dead: set<BlockId>)
    requires SSA(before) && ExactlyUnreachable(before, dead) && UndefErased(before, mid, HeldIn(before, dead))
    requires Trimmed(before, WithoutBlocks(mid, dead))
    ensures var b := WithoutBlocks(mid, dead);
      && b.entry == before.entry && (forall p, q :: Edge(b, p, q) <==> p in b.blocks && Edge(before, p, q))
      && (forall c :: c in b.blocks ==> c in before.blocks && b.blocks[c].terminator == before.blocks[c].terminator)
      && (forall i :: i in b.insts ==> SameEnding(before, b, i))
  {
    var b := WithoutBlocks(mid, dead);
    hide HeldIn, UndefErased, SSA, WithoutBlocks, Edge, Reachable, SameEnding;
    SsaPlaced(before);
    ErasedReachable(before, mid, dead);
    TrimmedFrame(before, b);
    hide Trimmed;
    forall p, q ensures Edge(b, p, q) <==> p in b.blocks && Edge(before, p, q) {
      if p in b.blocks {
        TrimmedEdge(before, b, p, q);
      } else if Edge(b, p, q) {
        EdgeSource(b, p, q);
      }
    }
    forall i | i in b.insts ensures SameEnding(before, b, i) {
      PrunedRole(before, mid, dead, i);
    }
  }

  lemma TrimmedFrame(a: Body, b: Body)
    requires Trimmed(a, b)
    ensures b.entry == a.entry
    ensures forall c :: c in b.blocks ==> c in a.blocks && b.blocks[c].terminator == a.blocks[c].terminator
  {
    hide Reachable, TrimmedInst;
  }

  lemma PrunedRole(before: Body, mid: Body, dead: set<BlockId>, i: InstId)
    requires UndefErased(before, mid, HeldIn(before, dead)) && i in WithoutBlocks(mid, dead).insts
    ensures SameEnding(before, WithoutBlocks(mid, dead), i)
  {
    hide HeldIn, UndefErased, UndefinedInst, KeepIncomings, Jumps;
    ErasedKeys(before, mid, HeldIn(before, dead));
    SurvivorUndef(before, mid, HeldIn(before, dead), i);
    SurvivorPhi(before, mid, HeldIn(before, dead), i);
    UndefJumps(before.insts[i], mid.insts[i], HeldIn(before, dead), |before.consts|, mid.consts);
    KeepJumps(mid.insts[i].kind, dead);
  }

  lemma UndefJumps(a: InstData, b: InstData, doomed: set<InstId>, base: nat, consts: seq<ConstData>)
    requires UndefinedInst(a, b, doomed, base, consts)
    ensures Jumps(b.kind) == Jumps(a.kind)
  {
    hide ValueOperands, BlockOperands, Skeleton, Jumps;
    if a.parent.Some? {
      SkeletonJumps(a.kind, b.kind);
    }
  }

  lemma SkeletonJumps(a: InstKind, b: InstKind)
    requires Skeleton(a) == Skeleton(b)
    ensures Jumps(a) == Jumps(b)
  {
  }

  lemma KeepJumps(kind: InstKind, dead: set<BlockId>)
    ensures Jumps(KeepIncomings(kind, dead)) == Jumps(kind) && KeepIncomings(kind, dead).Phi? == kind.Phi?
  {
  }

  lemma EdgeSource(body: Body, p: BlockId, q: BlockId)
    requires Edge(body, p, q)
    ensures p in body.blocks
  {
  }

  lemma ErasedReachable(before: Body, mid: Body, dead: set<BlockId>)
    requires ExactlyUnreachable(before, dead) && UndefErased(before, mid, HeldIn(before, dead))
    ensures forall p :: p in WithoutBlocks(mid, dead).blocks ==> Reachable(before, p)
  {
    ErasedKeys(before, mid, HeldIn(before, dead));
    hide Reachable, UndefErased, HeldIn;
  }

  lemma PassDone(before: Body, mid: Body, dead: set<BlockId>, now: Body, gone: set<InstId>)
    requires SSA(before) && ExactlyUnreachable(before, dead) && UndefErased(before, mid, HeldIn(before, dead))
    requires Trimmed(before, WithoutBlocks(mid, dead))
    requires QuietStep(WithoutBlocks(mid, dead), now, gone) && AllReachable(WithoutBlocks(mid, dead))
    ensures SSA(now) && AllReachable(now) && now.insts.Keys <= before.insts.Keys
    ensures forall obs: set<InstId> :: obs <= now.insts.Keys ==> Lockstep(before, now, obs)
    ensures forall i :: i in before.insts && i !in now.insts ==> before.insts[i].kind.Phi? || InDeadBlock(before, i)
    ensures now.blocks.Keys == WithoutBlocks(mid, dead).blocks.Keys
  {
    var trimmed := WithoutBlocks(mid, dead);
    QuietReachable(trimmed, now, gone);
    forall obs: set<InstId> | obs <= now.insts.Keys ensures Lockstep(before, now, obs) {
      TrimmedLockstep(before, trimmed, obs);
      QuietLockstep(trimmed, now, gone, obs);
      LockstepTransitive(before, trimmed, now, obs);
    }
    hide SSA, Trimmed, Lockstep, Reachable, HeldIn, Edge;
    ErasedKeys(before, mid, HeldIn(before, dead));
    hide UndefErased, ExactlyUnreachable, WithoutBlocks, InDeadBlock;
    PassErases(before, mid, dead, now, gone);
  }
}
