/** The mutable module: instructions, blocks and their use lists under every structural edit
    (src/ir/core.rs:303-318, 440-470, 560-996). */
module ModuleCores {
  import opened Sequences
  import opened CoreInts
  import opened Ir
  import opened UseLists

  // ---------------------------------------------------------------- substitution, use by use

  ghost predicate MovedInst(a: InstData, b: InstData, j: InstId, done: seq<Use<OperandSlot>>, to: ValueId) {
    && b.parent == a.parent && b.ty == a.ty && Skeleton(b.kind) == Skeleton(a.kind)
    && BlockOperands(b.kind) == BlockOperands(a.kind)
    && ValueOperands(b.kind).Keys == ValueOperands(a.kind).Keys
    && forall s :: s in ValueOperands(a.kind) ==> ValueOperands(b.kind)[s] == if Use(j, s) in done then to
         else ValueOperands(a.kind)[s]
  }

  /** The listed uses now refer to `to`; every other operand is as it was. */
  ghost predicate Moved(before: Body, after: Body, done: seq<Use<OperandSlot>>, to: ValueId) {
    && after == before.(insts := after.insts) && after.insts.Keys == before.insts.Keys
    && forall j :: j in before.insts ==> MovedInst(before.insts[j], after.insts[j], j, done, to)
  }

  lemma MovedAt(before: Body, after: Body, done: seq<Use<OperandSlot>>, to: ValueId, i: InstId)
    requires Moved(before, after, done, to) && i in before.insts
    ensures i in after.insts && MovedInst(before.insts[i], after.insts[i], i, done, to)
    ensures after == before.(insts := after.insts) && after.insts.Keys == before.insts.Keys
  {
    hide MovedInst;
  }

  lemma MovedStep(before: Body, after: Body, done: seq<Use<OperandSlot>>, to: ValueId, u: Use<OperandSlot>)
    requires Moved(before, after, done, to) && u.user in before.insts
    requires u.slot in ValueOperands(before.insts[u.user].kind)
    ensures u.slot in ValueOperands(after.insts[u.user].kind)
    ensures Moved(before, WithKind(after, u.user, ReplaceOperand(after.insts[u.user].kind, u.slot, to)), done + [u], to)
  {
    hide ValueOperands, BlockOperands, ReplaceOperand, Skeleton;
    assert MovedInst(before.insts[u.user], after.insts[u.user], u.user, done, to);
    var kind := after.insts[u.user].kind;
    ReplaceOperandExact(kind, u.slot, to);
    var after' := WithKind(after, u.user, ReplaceOperand(kind, u.slot, to));
    forall j | j in before.insts ensures MovedInst(before.insts[j], after'.insts[j], j, done + [u], to) {
      assert MovedInst(before.insts[j], after.insts[j], j, done, to);
    }
  }

  lemma MovedNothing(before: Body, to: ValueId)
    ensures Moved(before, before, [], to)
  {
  }

  /** Moving every use of a value is substituting it. */
  lemma MovedAll(before: Body, after: Body, done: seq<Use<OperandSlot>>, from: ValueId, to: ValueId)
    requires Moved(before, after, done, to)
    requires forall u :: u in done <==> u in Registry(before) && Registry(before)[u] == from
    ensures after == SubstituteAll(before, from, to)
  {
    hide ValueOperands, BlockOperands, Skeleton, Subst, Registry, MovedInst;
    var want := SubstituteAll(before, from, to);
    forall j | j in before.insts ensures after.insts[j] == want.insts[j] {
      MovedAllInst(before, after, done, from, to, j);
    }
    assert after.insts == want.insts;
  }

  lemma MovedAllInst(before: Body, after: Body, done: seq<Use<OperandSlot>>, from: ValueId, to: ValueId, j: InstId)
    requires j in before.insts && j in after.insts && MovedInst(before.insts[j], after.insts[j], j, done, to)
    requires forall u :: u in done <==> u in Registry(before) && Registry(before)[u] == from
    ensures after.insts[j] == if before.insts[j].parent.Some?
      then before.insts[j].(kind := Subst(before.insts[j].kind, from, to)) else before.insts[j]
  {
    hide ValueOperands, BlockOperands, Skeleton, Subst;
    var a, b := before.insts[j], after.insts[j];
    if a.parent.Some? {
      SubstExact(a.kind, from, to);
      assert forall s :: s in ValueOperands(a.kind) ==> (Use(j, s) in done <==> ValueOperands(a.kind)[s] == from);
      assert ValueOperands(b.kind) == ValueOperands(Subst(a.kind, from, to));
      KindDetermined(b.kind, Subst(a.kind, from, to));
    } else {
      assert forall s :: Use(j, s) !in Registry(before);
      assert ValueOperands(b.kind) == ValueOperands(a.kind);
      KindDetermined(b.kind, a.kind);
    }
  }

  // the same for block references

  ghost predicate AimedInst(a: InstData, b: InstData, j: InstId, done: seq<Use<BlockOperandSlot>>, to: BlockId) {
    && b.parent == a.parent && b.ty == a.ty && Skeleton(b.kind) == Skeleton(a.kind)
    && ValueOperands(b.kind) == ValueOperands(a.kind)
    && BlockOperands(b.kind).Keys == BlockOperands(a.kind).Keys
    && forall s :: s in BlockOperands(a.kind) ==> BlockOperands(b.kind)[s] == if Use(j, s) in done then to
         else BlockOperands(a.kind)[s]
  }

  ghost predicate Aimed(before: Body, after: Body, done: seq<Use<BlockOperandSlot>>, to: BlockId) {
    && after == before.(insts := after.insts) && after.insts.Keys == before.insts.Keys
    && forall j :: j in before.insts ==> AimedInst(before.insts[j], after.insts[j], j, done, to)
  }

  lemma AimedNothing(before: Body, to: BlockId)
    ensures Aimed(before, before, [], to)
  {
  }

  lemma AimedStep(before: Body, after: Body, done: seq<Use<BlockOperandSlot>>, to: BlockId, u: Use<BlockOperandSlot>)
    requires Aimed(before, after, done, to) && u.user in before.insts
    requires u.slot in BlockOperands(before.insts[u.user].kind)
    ensures u.slot in BlockOperands(after.insts[u.user].kind)
    ensures Aimed(before, WithKind(after, u.user, ReplaceBlockOperand(after.insts[u.user].kind, u.slot, to)),
      done + [u], to)
  {
    hide ValueOperands, BlockOperands, ReplaceBlockOperand, Skeleton;
    assert AimedInst(before.insts[u.user], after.insts[u.user], u.user, done, to);
    var kind := after.insts[u.user].kind;
    ReplaceBlockOperandExact(kind, u.slot, to);
    var after' := WithKind(after, u.user, ReplaceBlockOperand(kind, u.slot, to));
    forall j | j in before.insts ensures AimedInst(before.insts[j], after'.insts[j], j, done + [u], to) {
      assert AimedInst(before.insts[j], after.insts[j], j, done, to);
    }
  }

  lemma AimedAll(before: Body, after: Body, done: seq<Use<BlockOperandSlot>>, from: BlockId, to: BlockId)
    requires Aimed(before, after, done, to)
    requires forall u :: u in done <==> u in BlockRegistry(before) && BlockRegistry(before)[u] == from
    ensures after == RetargetAll(before, from, to)
  {
    hide ValueOperands, BlockOperands, Skeleton, Retarget, BlockRegistry, AimedInst;
    var want := RetargetAll(before, from, to);
    forall j | j in before.insts ensures after.insts[j] == want.insts[j] {
      AimedAllInst(before, after, done, from, to, j);
    }
    assert after.insts == want.insts;
  }

  lemma AimedAllInst(before: Body, after: Body, done: seq<Use<BlockOperandSlot>>, from: BlockId, to: BlockId, j: InstId)
    requires j in before.insts && j in after.insts && AimedInst(before.insts[j], after.insts[j], j, done, to)
    requires forall u :: u in done <==> u in BlockRegistry(before) && BlockRegistry(before)[u] == from
    ensures after.insts[j] == if before.insts[j].parent.Some?
      then before.insts[j].(kind := Retarget(before.insts[j].kind, from, to)) else before.insts[j]
  {
    hide ValueOperands, BlockOperands, Skeleton, Retarget;
    var a, b := before.insts[j], after.insts[j];
    if a.parent.Some? {
      RetargetExact(a.kind, from, to);
      assert forall s :: s in BlockOperands(a.kind) ==> (Use(j, s) in done <==> BlockOperands(a.kind)[s] == from);
      assert BlockOperands(b.kind) == BlockOperands(Retarget(a.kind, from, to));
      KindDetermined(b.kind, Retarget(a.kind, from, to));
    } else {
      assert forall s :: Use(j, s) !in BlockRegistry(before);
      assert BlockOperands(b.kind) == BlockOperands(a.kind);
      KindDetermined(b.kind, a.kind);
    }
  }

  // ---------------------------------------------------------------- forced erasure

  predicate Doomed(v: ValueId, doomed: set<InstId>) {
    v.InstValue? && v.inst in doomed
  }

  /** A constant added after the first `base` ones, standing for an undefined value. */
  predicate FreshUndef(v: ValueId, base: nat, consts: seq<ConstData>) {
    v.ConstValue? && base <= v.id < |consts| && consts[v.id].UndefConst?
  }

  ghost predicate UndefinedInst(a: InstData, b: InstData, doomed: set<InstId>, base: nat, consts: seq<ConstData>) {
    if a.parent.None? then b == a
    else
      && b.parent == a.parent && b.ty == a.ty && Skeleton(b.kind) == Skeleton(a.kind)
      && BlockOperands(b.kind) == BlockOperands(a.kind)
      && ValueOperands(b.kind).Keys == ValueOperands(a.kind).Keys
      && forall s :: s in ValueOperands(a.kind) ==>
          if Doomed(ValueOperands(a.kind)[s], doomed) then FreshUndef(ValueOperands(b.kind)[s], base, consts)
          else ValueOperands(b.kind)[s] == ValueOperands(a.kind)[s]
  }

  /** Operands naming a doomed instruction became fresh undefined constants; nothing else changed. */
  ghost predicate Undefined(before: Body, after: Body, doomed: set<InstId>) {
    && before.consts <= after.consts && after == before.(insts := after.insts, consts := after.consts)
    && after.insts.Keys == before.insts.Keys
    && forall j :: j in before.insts ==>
         UndefinedInst(before.insts[j], after.insts[j], doomed, |before.consts|, after.consts)
  }

  /** Part way through: the listed uses are done. */
  ghost predicate UndefinedSoFar(before: Body, after: Body, done: seq<Use<OperandSlot>>) {
    && before.consts <= after.consts && after == before.(insts := after.insts, consts := after.consts)
    && after.insts.Keys == before.insts.Keys
    && forall j :: j in before.insts ==>
         UndefinedSoFarInst(before.insts[j], after.insts[j], j, done, |before.consts|, after.consts)
  }

  lemma UndefinedAt(before: Body, after: Body, done: seq<Use<OperandSlot>>, i: InstId)
    requires UndefinedSoFar(before, after, done) && i in before.insts
    ensures i in after.insts
    ensures UndefinedSoFarInst(before.insts[i], after.insts[i], i, done, |before.consts|, after.consts)
  {
    hide UndefinedSoFarInst;
  }

  ghost predicate UndefinedSoFarInst(a: InstData, b: InstData, j: InstId, done: seq<Use<OperandSlot>>, base: nat,
                                     consts: seq<ConstData>) {
    && b.parent == a.parent && b.ty == a.ty && Skeleton(b.kind) == Skeleton(a.kind)
    && BlockOperands(b.kind) == BlockOperands(a.kind)
    && ValueOperands(b.kind).Keys == ValueOperands(a.kind).Keys
    && forall s :: s in ValueOperands(a.kind) ==>
        if Use(j, s) in done then FreshUndef(ValueOperands(b.kind)[s], base, consts)
        else ValueOperands(b.kind)[s] == ValueOperands(a.kind)[s]
  }

  lemma UndefinedStep(before: Body, after: Body, done: seq<Use<OperandSlot>>, u: Use<OperandSlot>, ty: Type)
    requires UndefinedSoFar(before, after, done) && u.user in before.insts
    requires u.slot in ValueOperands(before.insts[u.user].kind)
    ensures u.slot in ValueOperands(after.insts[u.user].kind)
    ensures var grown := after.(consts := after.consts + [UndefConst(ty)]);
      UndefinedSoFar(before, WithKind(grown, u.user,
        ReplaceOperand(after.insts[u.user].kind, u.slot, ConstValue(|after.consts|))), done + [u])
  {
    hide ValueOperands, BlockOperands, ReplaceOperand, Skeleton;
    var v := ConstValue(|after.consts|);
    var consts' := after.consts + [UndefConst(ty)];
    assert UndefinedSoFarInst(before.insts[u.user], after.insts[u.user], u.user, done, |before.consts|, after.consts);
    var kind := after.insts[u.user].kind;
    ReplaceOperandExact(kind, u.slot, v);
    var after' := WithKind(after.(consts := consts'), u.user, ReplaceOperand(kind, u.slot, v));
    forall j | j in before.insts
      ensures UndefinedSoFarInst(before.insts[j], after'.insts[j], j, done + [u], |before.consts|, after'.consts)
    {
      assert UndefinedSoFarInst(before.insts[j], after.insts[j], j, done, |before.consts|, after.consts);
    }
  }

  lemma UndefinedNothing(before: Body)
    ensures UndefinedSoFar(before, before, [])
  {
  }

  lemma UndefinedAll(before: Body, after: Body, done: seq<Use<OperandSlot>>, i: InstId)
    requires UndefinedSoFar(before, after, done)
    requires forall u :: u in done <==> u in Registry(before) && Registry(before)[u] == InstValue(i)
    ensures Undefined(before, after, {i})
  {
    hide ValueOperands, BlockOperands, Skeleton;
    forall j | j in before.insts
      ensures UndefinedInst(before.insts[j], after.insts[j], {i}, |before.consts|, after.consts)
    {
      var a, b := before.insts[j], after.insts[j];
      assert UndefinedSoFarInst(a, b, j, done, |before.consts|, after.consts);
      assert forall s :: s in ValueOperands(a.kind) ==>
        (Use(j, s) in done <==> a.parent.Some? && ValueOperands(a.kind)[s] == InstValue(i));
      if a.parent.None? {
        assert ValueOperands(b.kind) == ValueOperands(a.kind);
        KindDetermined(b.kind, a.kind);
      }
    }
  }

  // ---------------------------------------------------------------- new things

  lemma MoreConsts(body: Body, vu: ValueUses, bu: BlockUses, data: ConstData)
    requires Consistent(body, vu, bu)
    ensures Consistent(body.(consts := body.consts + [data]), vu[ConstValue(|body.consts|) := []], bu)
  {
    hide Exact, ValueOperands, BlockOperands, Registry, BlockRegistry, OperandsExist;
    var body' := body.(consts := body.consts + [data]);
    var v := ConstValue(|body.consts|);
    assert !Knows(body, v) && forall w :: Knows(body', w) <==> Knows(body, w) || w == v;
    ExactNewKey(vu, Registry(body), v);
    SameRegistries(body, body');
    forall i | Attached(body', i) ensures WellHeld(body', i) {
      assert WellHeld(body, i);
      SameOperandsExist(body, body', i);
    }
  }

  lemma SameOperandsExist(body: Body, body': Body, i: InstId)
    requires i in body.insts && i in body'.insts && body'.insts[i].kind == body.insts[i].kind && OperandsExist(body, i)
    requires (forall v :: Knows(body, v) ==> Knows(body', v)) && (forall b :: b in body.blocks ==> b in body'.blocks)
    ensures OperandsExist(body', i)
  {
    hide ValueOperands, BlockOperands, Knows;
  }

  lemma MoreInsts(body: Body, vu: ValueUses, bu: BlockUses, i: InstId, data: InstData)
    requires Consistent(body, vu, bu) && i !in body.insts && data.parent.None?
    ensures Consistent(body.(insts := body.insts[i := data]), vu[InstValue(i) := []], bu)
  {
    hide Exact, ValueOperands, BlockOperands, Registry, BlockRegistry, OperandsExist;
    var body' := body.(insts := body.insts[i := data]);
    assert !Knows(body, InstValue(i)) && forall w :: Knows(body', w) <==> Knows(body, w) || w == InstValue(i);
    ExactNewKey(vu, Registry(body), InstValue(i));
    SameRegistries(body, body');
    forall j | Attached(body', j) ensures WellHeld(body', j) {
      assert WellHeld(body, j);
      SameOperandsExist(body, body', j);
    }
  }

  lemma MoreBlocks(body: Body, vu: ValueUses, bu: BlockUses, b: BlockId)
    requires Consistent(body, vu, bu) && b !in body.blocks
    ensures Consistent(body.(blocks := body.blocks[b := BlockData([], [], None)], order := body.order + [b]), vu,
      bu[b := []])
  {
    hide Exact, ValueOperands, BlockOperands, Registry, BlockRegistry, OperandsExist;
    var body' := body.(blocks := body.blocks[b := BlockData([], [], None)], order := body.order + [b]);
    assert forall w :: Knows(body', w) <==> Knows(body, w);
    ExactNewKey(bu, BlockRegistry(body), b);
    SameRegistries(body, body');
    forall j | Attached(body', j) ensures WellHeld(body', j) {
      assert WellHeld(body, j);
      SameOperandsExist(body, body', j);
    }
    forall c, j | c in body'.blocks && Contains(body'.blocks[c], j)
      ensures j in body'.insts && body'.insts[j].parent == Some(c) && Lists(body'.blocks[c], body'.insts[j].kind, j)
    {
      assert Contains(body.blocks[c], j);
    }
  }

  lemma LoseBlock(body: Body, vu: ValueUses, bu: BlockUses, b: BlockId)
    requires Consistent(body, vu, bu) && b in body.blocks && b != body.entry && bu[b] == []
    requires forall i :: !Contains(body.blocks[b], i)
    ensures Consistent(body.(blocks := body.blocks - {b}, order := Without(body.order, b)), vu, bu - {b})
  {
    hide Exact, ValueOperands, BlockOperands, Registry, BlockRegistry, OperandsExist, WellPlaced, Without;
    var body' := body.(blocks := body.blocks - {b}, order := Without(body.order, b));
    assert forall w :: Knows(body', w) <==> Knows(body, w);
    SameRegistries(body, body');
    ExactLoseKey(bu, BlockRegistry(body), b);
    NoBlockReferences(body, bu, b);
    LoseBlockPlaced(body, b);
  }

  lemma LoseBlockPlaced(body: Body, b: BlockId)
    requires WellPlaced(body) && b in body.blocks && b != body.entry && forall i :: !Contains(body.blocks[b], i)
    requires forall u :: u in BlockRegistry(body) ==> BlockRegistry(body)[u] != b
    ensures WellPlaced(body.(blocks := body.blocks - {b}, order := Without(body.order, b)))
  {
    hide BlockRegistry, OperandsExist, Lists, Without, Distinct, Contains, WellHeld, WellPlaced;
    var body' := body.(blocks := body.blocks - {b}, order := Without(body.order, b));
    PlacedLists(body);
    WithoutOrder(body.order, body.blocks.Keys, b);
    forall j | Attached(body', j) ensures WellHeld(body', j) {
      LostHeld(body, b, j);
    }
    forall c, j | c in body'.blocks && Contains(body'.blocks[c], j)
      ensures j in body'.insts && body'.insts[j].parent == Some(c) && Lists(body'.blocks[c], body'.insts[j].kind, j)
    {
      SameBlockListed(body, body', c, j);
    }
    PutPlaced(body');
  }

  lemma PlacedLists(body: Body)
    requires WellPlaced(body)
    ensures forall b :: b in body.blocks ==> Distinct(body.blocks[b].phis) && Distinct(body.blocks[b].insts)
    ensures Distinct(body.order) && (forall b :: b in body.order <==> b in body.blocks) && body.entry in body.blocks
  {
    hide OperandsExist, Lists;
  }

  lemma PutPlaced(body: Body)
    requires forall b, i :: b in body.blocks && Contains(body.blocks[b], i) ==>
          i in body.insts && body.insts[i].parent == Some(b) && Lists(body.blocks[b], body.insts[i].kind, i)
    requires forall i :: Attached(body, i) ==> WellHeld(body, i)
    requires forall b :: b in body.blocks ==> Distinct(body.blocks[b].phis) && Distinct(body.blocks[b].insts)
    requires Distinct(body.order) && (forall b :: b in body.order <==> b in body.blocks) && body.entry in body.blocks
    ensures WellPlaced(body)
  {
    hide OperandsExist, Lists, Contains, WellHeld, Distinct;
  }

  lemma SameBlockListed(body: Body, body': Body, c: BlockId, j: InstId)
    requires WellPlaced(body) && c in body.blocks && c in body'.blocks && body'.blocks[c] == body.blocks[c]
    requires body'.insts == body.insts && Contains(body'.blocks[c], j)
    ensures j in body'.insts && body'.insts[j].parent == Some(c) && Lists(body'.blocks[c], body'.insts[j].kind, j)
  {
    hide OperandsExist, Lists;
  }

  lemma WithoutOrder(order: seq<BlockId>, keys: set<BlockId>, b: BlockId)
    requires Distinct(order) && forall c :: c in order <==> c in keys
    ensures Distinct(Without(order, b)) && forall c :: c in Without(order, b) <==> c in keys - {b}
  {
  }

  lemma LostHeld(body: Body, b: BlockId, j: InstId)
    requires WellPlaced(body) && b in body.blocks && Attached(body, j) && forall i :: !Contains(body.blocks[b], i)
    requires forall u :: u in BlockRegistry(body) ==> BlockRegistry(body)[u] != b
    ensures WellHeld(body.(blocks := body.blocks - {b}, order := Without(body.order, b)), j)
  {
    assert WellHeld(body, j);
    hide BlockRegistry, OperandsExist, Lists, Contains, Without, WellPlaced;
    ContainsListed(body.blocks[body.insts[j].parent.value], body.insts[j].kind, j);
    LostBlockOperands(body, b, j);
  }

  lemma ContainsListed(blk: BlockData, kind: InstKind, i: InstId)
    requires Lists(blk, kind, i)
    ensures Contains(blk, i)
  {
  }

  lemma NoBlockReferences(body: Body, bu: BlockUses, b: BlockId)
    requires Exact(bu, BlockRegistry(body)) && b in bu && bu[b] == []
    ensures forall u :: u in BlockRegistry(body) ==> BlockRegistry(body)[u] != b
  {
    hide BlockRegistry;
    assert forall u :: u in BlockRegistry(body) ==> BlockRegistry(body)[u] != b || u in bu[b];
  }

  lemma LostBlockOperands(body: Body, b: BlockId, j: InstId)
    requires Attached(body, j) && OperandsExist(body, j)
    requires forall u :: u in BlockRegistry(body) ==> BlockRegistry(body)[u] != b
    ensures OperandsExist(body.(blocks := body.blocks - {b}, order := Without(body.order, b)), j)
  {
    hide ValueOperands, BlockOperands;
    var body' := body.(blocks := body.blocks - {b}, order := Without(body.order, b));
    assert forall w :: Knows(body', w) <==> Knows(body, w);
    hide Knows;
    forall s | s in BlockOperands(body.insts[j].kind) ensures BlockOperands(body.insts[j].kind)[s] in body'.blocks {
      assert Use(j, s) in BlockRegistry(body);
    }
  }

  lemma UsesAreRegistered(body: Body, vu: ValueUses, bu: BlockUses, v: ValueId)
    requires Consistent(body, vu, bu) && Knows(body, v)
    ensures v in vu && forall u :: u in vu[v] <==> u in Registry(body) && Registry(body)[u] == v
    ensures forall u :: u in vu[v] ==> Attached(body, u.user) && u.slot in ValueOperands(body.insts[u.user].kind)
  {
    hide ValueOperands, BlockOperands, WellPlaced;
  }

  lemma BlockUsesAreRegistered(body: Body, vu: ValueUses, bu: BlockUses, b: BlockId)
    requires Consistent(body, vu, bu) && b in body.blocks
    ensures b in bu && forall u :: u in bu[b] <==> u in BlockRegistry(body) && BlockRegistry(body)[u] == b
    ensures forall u :: u in bu[b] ==> Attached(body, u.user) && u.slot in BlockOperands(body.insts[u.user].kind)
  {
    hide ValueOperands, BlockOperands, WellPlaced;
  }

  lemma SubstitutedHasNoUses(before: Body, vu: ValueUses, bu: BlockUses, from: ValueId, to: ValueId)
    requires Consistent(SubstituteAll(before, from, to), vu, bu) && from != to && Knows(before, from)
    ensures from in vu && vu[from] == []
  {
    hide ValueOperands, BlockOperands, WellPlaced, Exact, Subst;
    var after := SubstituteAll(before, from, to);
    forall u | u in Registry(after) ensures Registry(after)[u] != from {
      SubstExact(before.insts[u.user].kind, from, to);
    }
    assert Knows(after, from);
    ExactNone(vu, Registry(after), from);
  }

  lemma RetargetedHasNoUses(before: Body, vu: ValueUses, bu: BlockUses, from: BlockId, to: BlockId)
    requires Consistent(RetargetAll(before, from, to), vu, bu) && from != to && from in before.blocks
    ensures from in bu && bu[from] == []
  {
    hide ValueOperands, BlockOperands, WellPlaced, Exact, Retarget;
    var after := RetargetAll(before, from, to);
    forall u | u in BlockRegistry(after) ensures BlockRegistry(after)[u] != from {
      RetargetExact(before.insts[u.user].kind, from, to);
    }
    ExactNone(bu, BlockRegistry(after), from);
  }

  lemma UndefinedHasNoUses(before: Body, mid: Body, vu: ValueUses, bu: BlockUses, i: InstId)
    requires Consistent(mid, vu, bu) && i in before.insts && Undefined(before, mid, {i})
    ensures InstValue(i) in vu && vu[InstValue(i)] == []
  {
    hide ValueOperands, BlockOperands, WellPlaced, Exact;
    forall u | u in Registry(mid) ensures Registry(mid)[u] != InstValue(i) {
      assert UndefinedInst(before.insts[u.user], mid.insts[u.user], {i}, |before.consts|, mid.consts);
    }
    assert Knows(mid, InstValue(i));
    ExactNone(vu, Registry(mid), InstValue(i));
  }

  lemma AddIncomingConsistent(body: Body, vu: ValueUses, bu: BlockUses, phi: InstId, b: BlockId, v: ValueId)
    requires Consistent(body, vu, bu) && Attached(body, phi) && body.insts[phi].kind.Phi?
    requires Indexed(body.insts[phi].kind)
    requires b in body.blocks && Knows(body, v)
    ensures v in vu && b in bu
    ensures var idx := body.insts[phi].kind.idx;
      Consistent(WithKind(body, phi, AddIncoming(body.insts[phi].kind, b, v)),
        vu[v := vu[v] + [Use(phi, PhiIncomingVal(idx))]], bu[b := bu[b] + [Use(phi, PhiIncomingBlock(idx))]])
  {
    hide ValueOperands, BlockOperands, WellPlaced, Exact, Registry, BlockRegistry, OperandsExist, Indexed;
    var kind := body.insts[phi].kind;
    var kind' := AddIncoming(kind, b, v);
    var body' := WithKind(body, phi, kind');
    IncomingExact(kind, b, v);
    AddedRegistry(body, phi, kind', v, b);
    ExactPush(vu, Registry(body), Use(phi, PhiIncomingVal(kind.idx)), v);
    ExactPush(bu, BlockRegistry(body), Use(phi, PhiIncomingBlock(kind.idx)), b);
    assert forall w :: Knows(body', w) <==> Knows(body, w);
    AddedOperandsExist(body, phi, kind', PhiIncomingVal(kind.idx), v, PhiIncomingBlock(kind.idx), b);
    WithKindPlaced(body, phi, kind');
  }

  lemma AddedRegistry(body: Body, phi: InstId, kind': InstKind, v: ValueId, b: BlockId)
    requires Attached(body, phi) && body.insts[phi].kind.Phi?
    requires var kind := body.insts[phi].kind;
      && PhiIncomingVal(kind.idx) !in ValueOperands(kind) && PhiIncomingBlock(kind.idx) !in BlockOperands(kind)
      && ValueOperands(kind') == ValueOperands(kind)[PhiIncomingVal(kind.idx) := v]
      && BlockOperands(kind') == BlockOperands(kind)[PhiIncomingBlock(kind.idx) := b]
    ensures var idx := body.insts[phi].kind.idx;
      && Use(phi, PhiIncomingVal(idx)) !in Registry(body) && Use(phi, PhiIncomingBlock(idx)) !in BlockRegistry(body)
      && Registry(WithKind(body, phi, kind')) == Registry(body)[Use(phi, PhiIncomingVal(idx)) := v]
      && BlockRegistry(WithKind(body, phi, kind')) == BlockRegistry(body)[Use(phi, PhiIncomingBlock(idx)) := b]
  {
    hide ValueOperands, BlockOperands;
    AddedValue(body, phi, kind', PhiIncomingVal(body.insts[phi].kind.idx), v);
    AddedBlock(body, phi, kind', PhiIncomingBlock(body.insts[phi].kind.idx), b);
    hide Registry, BlockRegistry;
  }

  lemma AddedValue(body: Body, i: InstId, kind': InstKind, slot: OperandSlot, v: ValueId)
    requires Attached(body, i) && slot !in ValueOperands(body.insts[i].kind)
    requires ValueOperands(kind') == ValueOperands(body.insts[i].kind)[slot := v]
    ensures Use(i, slot) !in Registry(body) && Registry(WithKind(body, i, kind')) == Registry(body)[Use(i, slot) := v]
  {
    hide ValueOperands, BlockOperands;
    assert forall j :: Attached(WithKind(body, i, kind'), j) <==> Attached(body, j);
    assert Registry(WithKind(body, i, kind')) == Registry(body)[Use(i, slot) := v];
  }

  lemma AddedBlock(body: Body, i: InstId, kind': InstKind, slot: BlockOperandSlot, b: BlockId)
    requires Attached(body, i) && slot !in BlockOperands(body.insts[i].kind)
    requires BlockOperands(kind') == BlockOperands(body.insts[i].kind)[slot := b]
    ensures Use(i, slot) !in BlockRegistry(body)
    ensures BlockRegistry(WithKind(body, i, kind')) == BlockRegistry(body)[Use(i, slot) := b]
  {
    hide ValueOperands, BlockOperands;
    assert forall j :: Attached(WithKind(body, i, kind'), j) <==> Attached(body, j);
    assert BlockRegistry(WithKind(body, i, kind')) == BlockRegistry(body)[Use(i, slot) := b];
  }

  lemma AddedOperandsExist(body: Body, i: InstId, kind': InstKind, slot: OperandSlot, v: ValueId,
                           bslot: BlockOperandSlot, b: BlockId)
    requires WellPlaced(body) && Attached(body, i) && Knows(body, v) && b in body.blocks
    requires ValueOperands(kind') == ValueOperands(body.insts[i].kind)[slot := v]
    requires BlockOperands(kind') == BlockOperands(body.insts[i].kind)[bslot := b]
    ensures OperandsExist(WithKind(body, i, kind'), i)
  {
    hide ValueOperands, BlockOperands;
    assert WellHeld(body, i);
    assert forall w :: Knows(WithKind(body, i, kind'), w) <==> Knows(body, w);
    hide WellPlaced, Knows;
  }

  lemma DropIncomingConsistent(body: Body, vu: ValueUses, bu: BlockUses, phi: InstId, k: nat)
    requires Consistent(body, vu, bu) && Attached(body, phi) && body.insts[phi].kind.Phi?
    requires k in body.insts[phi].kind.incomings
    ensures var inc := body.insts[phi].kind.incomings[k];
      && inc.value in vu && inc.block in bu
      && Consistent(WithKind(body, phi, DropIncoming(body.insts[phi].kind, k)),
          vu[inc.value := Without(vu[inc.value], Use(phi, PhiIncomingVal(k)))],
            bu[inc.block := Without(bu[inc.block], Use(phi, PhiIncomingBlock(k)))])
  {
    hide ValueOperands, BlockOperands, WellPlaced, Exact, Registry, BlockRegistry, OperandsExist, Without, Dropped;
    var kind := body.insts[phi].kind;
    var kind' := DropIncoming(kind, k);
    PhiSlots(kind, k);
    DropExact(kind, k);
    RegisteredKeys(body, vu, bu, phi, k);
    DroppedRegistry(body, phi, kind', k);
    ExactDrop(vu, Registry(body), Use(phi, PhiIncomingVal(k)), kind.incomings[k].value);
    ExactDrop(bu, BlockRegistry(body), Use(phi, PhiIncomingBlock(k)), kind.incomings[k].block);
    assert forall w :: Knows(WithKind(body, phi, kind'), w) <==> Knows(body, w);
    DroppedOperandsExist(body, phi, kind', {PhiIncomingVal(k)}, {PhiIncomingBlock(k)});
    WithKindPlaced(body, phi, kind');
  }

  lemma PhiSlots(kind: InstKind, k: nat)
    requires kind.Phi? && k in kind.incomings
    ensures PhiIncomingVal(k) in ValueOperands(kind)
    ensures ValueOperands(kind)[PhiIncomingVal(k)] == kind.incomings[k].value
    ensures PhiIncomingBlock(k) in BlockOperands(kind)
    ensures BlockOperands(kind)[PhiIncomingBlock(k)] == kind.incomings[k].block
  {
  }

  lemma RegisteredKeys(body: Body, vu: ValueUses, bu: BlockUses, phi: InstId, k: nat)
    requires Consistent(body, vu, bu) && Attached(body, phi) && body.insts[phi].kind.Phi?
    requires k in body.insts[phi].kind.incomings
    ensures body.insts[phi].kind.incomings[k].value in vu && body.insts[phi].kind.incomings[k].block in bu
  {
    PhiSlots(body.insts[phi].kind, k);
    hide ValueOperands, BlockOperands, Exact;
    assert WellHeld(body, phi);
  }

  lemma DroppedRegistry(body: Body, phi: InstId, kind': InstKind, k: nat)
    requires Attached(body, phi)
    requires ValueOperands(kind') == ValueOperands(body.insts[phi].kind) - {PhiIncomingVal(k)}
    requires BlockOperands(kind') == BlockOperands(body.insts[phi].kind) - {PhiIncomingBlock(k)}
    requires PhiIncomingVal(k) in ValueOperands(body.insts[phi].kind)
    requires PhiIncomingBlock(k) in BlockOperands(body.insts[phi].kind)
    ensures var u, bu := Use(phi, PhiIncomingVal(k)), Use(phi, PhiIncomingBlock(k));
      && u in Registry(body) && Registry(body)[u] == ValueOperands(body.insts[phi].kind)[PhiIncomingVal(k)]
      && bu in BlockRegistry(body)
      && BlockRegistry(body)[bu] == BlockOperands(body.insts[phi].kind)[PhiIncomingBlock(k)]
      && Registry(WithKind(body, phi, kind')) == Dropped(Registry(body), u)
      && BlockRegistry(WithKind(body, phi, kind')) == Dropped(BlockRegistry(body), bu)
  {
    hide ValueOperands, BlockOperands;
    assert forall j :: Attached(WithKind(body, phi, kind'), j) <==> Attached(body, j);
    assert Registry(WithKind(body, phi, kind')) == Dropped(Registry(body), Use(phi, PhiIncomingVal(k)));
    assert BlockRegistry(WithKind(body, phi, kind')) == Dropped(BlockRegistry(body), Use(phi, PhiIncomingBlock(k)));
  }

  lemma DroppedOperandsExist(body: Body, i: InstId, kind': InstKind, gone: set<OperandSlot>,
                             bgone: set<BlockOperandSlot>)
    requires WellPlaced(body) && Attached(body, i)
    requires ValueOperands(kind') == ValueOperands(body.insts[i].kind) - gone
    requires BlockOperands(kind') == BlockOperands(body.insts[i].kind) - bgone
    ensures OperandsExist(WithKind(body, i, kind'), i)
  {
    hide ValueOperands, BlockOperands;
    assert WellHeld(body, i);
    assert forall w :: Knows(WithKind(body, i, kind'), w) <==> Knows(body, w);
    hide WellPlaced, Knows;
  }

  // ---------------------------------------------------------------- the module

  function NoUses(args: nat, globals: nat): (vu: ValueUses)
    ensures forall v :: v in vu <==> (v.ArgValue? && v.arg < args) || (v.GlobalValue? && v.global < globals)
    ensures forall v :: v in vu ==> vu[v] == []
  {
    var known := (set a | 0 <= a < args :: ArgValue(a)) + (set g | 0 <= g < globals :: GlobalValue(g));
    map v | v in known :: []
  }

  lemma EmptyConsistent(body: Body)
    requires body.insts == map[] && body.blocks == map[0 := BlockData([], [], None)] && body.order == [0]
    requires body.entry == 0 && body.consts == []
    ensures Consistent(body, NoUses(body.numArgs, body.numGlobals), map[0 := []])
  {
  }

  class ModuleCore {
    var insts: map<InstId, InstData>
    var blocks: map<BlockId, BlockData>
    var order: seq<BlockId>
    var consts: seq<ConstData>
    var valueUses: ValueUses
    var blockUses: BlockUses
    var nextInst: nat
    var nextBlock: nat
    const entry: BlockId
    const numArgs: nat
    const numGlobals: nat

    /** The function body as a value, use lists aside. */
    ghost function Now(): Body
      reads this
    {
      Body(insts, blocks, order, entry, consts, numArgs, numGlobals)
    }

    /** The use lists are exactly the operands of the attached instructions. */
    ghost predicate Valid()
      reads this
    {
      && Consistent(Now(), valueUses, blockUses)
      && (forall i :: i in insts ==> i < nextInst) && (forall b :: b in blocks ==> b < nextBlock)
    }

    /** A function with an empty entry block. */
    constructor (args: nat, globals: nat)
      ensures Valid() && insts == map[] && blocks == map[0 := BlockData([], [], None)] && order == [0] && consts == []
      ensures entry == 0 && numArgs == args && numGlobals == globals
    {
      entry, numArgs, numGlobals := 0, args, globals;
      insts, blocks, order, consts := map[], map[0 := BlockData([], [], None)], [0], [];
      valueUses := NoUses(args, globals);
      blockUses := map[0 := []];
      nextInst, nextBlock := 0, 1;
      new;
      EmptyConsistent(Now());
    }

    method AddConst(data: ConstData) returns (v: ValueId)
      requires Valid()
      modifies `consts, `valueUses
      ensures Valid() && v == ConstValue(|old(consts)|)
      ensures Now() == old(Now()).(consts := old(consts) + [data])
    {
      hide Exact, Consistent, WellPlaced, Registry, BlockRegistry;
      v := ConstValue(|consts|);
      ghost var before := Now();
      MoreConsts(before, valueUses, blockUses, data);
      consts := consts + [data];
      valueUses := valueUses[v := []];
    }

    method NewInst(ty: Type, kind: InstKind) returns (i: InstId)
      requires Valid()
      modifies `insts, `valueUses, `nextInst
      ensures Valid() && i !in old(insts)
      ensures Now() == old(Now()).(insts := old(insts)[i := InstData(None, ty, kind)])
    {
      hide Exact, Consistent, WellPlaced, Registry, BlockRegistry;
      i := nextInst;
      ghost var before := Now();
      MoreInsts(before, valueUses, blockUses, i, InstData(None, ty, kind));
      insts := insts[i := InstData(None, ty, kind)];
      valueUses := valueUses[InstValue(i) := []];
      nextInst := nextInst + 1;
    }

    method AppendBlock() returns (b: BlockId)
      requires Valid()
      modifies `blocks, `order, `blockUses, `nextBlock
      ensures Valid() && b !in old(blocks)
      ensures Now() == old(Now()).(blocks := old(blocks)[b := BlockData([], [], None)], order := old(order) + [b])
    {
      hide Exact, Consistent, WellPlaced, Registry, BlockRegistry;
      b := nextBlock;
      ghost var before := Now();
      MoreBlocks(before, valueUses, blockUses, b);
      blocks := blocks[b := BlockData([], [], None)];
      order := order + [b];
      blockUses := blockUses[b := []];
      nextBlock := nextBlock + 1;
    }

    method RegisterInstUse(user: InstId, ghost before: Body)
      requires user in insts && Exact(valueUses, Registry(before)) && Exact(blockUses, BlockRegistry(before))
      requires !Attached(before, user)
      requires (forall s :: s in ValueOperands(insts[user].kind) ==> ValueOperands(insts[user].kind)[s] in valueUses)
      requires (forall s :: s in BlockOperands(insts[user].kind) ==> BlockOperands(insts[user].kind)[s] in blockUses)
      modifies `valueUses, `blockUses
      ensures valueUses.Keys == old(valueUses).Keys && blockUses.Keys == old(blockUses).Keys
      ensures Exact(valueUses, Enlist(Registry(before), user, ValueOperands(insts[user].kind)))
      ensures Exact(blockUses, Enlist(BlockRegistry(before), user, BlockOperands(insts[user].kind)))
    {
      var kind := insts[user].kind;
      valueUses := PushUses(valueUses, user, ValueOperands(kind), Registry(before));
      blockUses := PushUses(blockUses, user, BlockOperands(kind), BlockRegistry(before));
    }

    /** The lists after an insertion have been stored: register the operands. */
    method FinishAttach(b: BlockId, i: InstId, ghost before: Body, ghost blk: BlockData)
      requires Consistent(before, valueUses, blockUses) && (forall j :: j in insts ==> j < nextInst)
      requires (forall c :: c in blocks ==> c < nextBlock)
      requires b in before.blocks && i in before.insts && before.insts[i].parent.None? && OperandsExist(before, i)
      requires Joins(before.blocks[b], blk, before.insts[i].kind, i)
      requires Now() == Attach(before, b, blk, i)
      modifies `valueUses, `blockUses
      ensures Valid()
    {
      hide Exact, ValueOperands, BlockOperands, WellPlaced, Registry, BlockRegistry, Joins, Enlist;
      ghost var vu, bu := valueUses, blockUses;
      RegisterInstUse(i, before);
      AttachConsistent(before, vu, bu, b, blk, i, valueUses, blockUses);
    }

    ghost predicate CanInsert(b: BlockId, i: InstId)
      reads this
    {
      b in blocks && i in insts && insts[i].parent.None? && OperandsExist(Now(), i)
    }

    method AppendInst(b: BlockId, i: InstId)
      requires Valid() && CanInsert(b, i) && !insts[i].kind.Phi? && !IsTerminator(insts[i].kind)
      modifies `blocks, `insts, `valueUses, `blockUses
      ensures Valid()
      ensures Now() == Attach(old(Now()), b, old(blocks[b]).(insts := old(blocks[b]).insts + [i]), i)
    {
      hide Exact, ValueOperands, BlockOperands, WellPlaced, Registry, BlockRegistry, OperandsExist;
      ghost var before := Now();
      ghost var blk := InsertInst(blocks[b], |blocks[b].insts|, i);
      assert blk == blocks[b].(insts := blocks[b].insts + [i]) by {
        assert blocks[b].insts[..|blocks[b].insts|] == blocks[b].insts && blocks[b].insts[|blocks[b].insts|..] == [];
      }
      blocks := blocks[b := blocks[b].(insts := blocks[b].insts + [i])];
      insts := insts[i := insts[i].(parent := Some(b))];
      FinishAttach(b, i, before, blk);
    }

    method PushFrontInst(b: BlockId, i: InstId)
      requires Valid() && CanInsert(b, i) && !insts[i].kind.Phi? && !IsTerminator(insts[i].kind)
      modifies `blocks, `insts, `valueUses, `blockUses
      ensures Valid()
      ensures Now() == Attach(old(Now()), b, old(blocks[b]).(insts := [i] + old(blocks[b]).insts), i)
    {
      hide Exact, ValueOperands, BlockOperands, WellPlaced, Registry, BlockRegistry, OperandsExist;
      ghost var before := Now();
      ghost var blk := InsertInst(blocks[b], 0, i);
      assert blk == blocks[b].(insts := [i] + blocks[b].insts);
      blocks := blocks[b := blocks[b].(insts := [i] + blocks[b].insts)];
      insts := insts[i := insts[i].(parent := Some(b))];
      FinishAttach(b, i, before, blk);
    }

    method AppendPhi(b: BlockId, i: InstId)
      requires Valid() && CanInsert(b, i) && insts[i].kind.Phi?
      modifies `blocks, `insts, `valueUses, `blockUses
      ensures Valid()
      ensures Now() == Attach(old(Now()), b, old(blocks[b]).(phis := old(blocks[b]).phis + [i]), i)
    {
      hide Exact, ValueOperands, BlockOperands, WellPlaced, Registry, BlockRegistry, OperandsExist;
      ghost var before := Now();
      ghost var blk := InsertPhi(blocks[b], |blocks[b].phis|, i);
      assert blk == blocks[b].(phis := blocks[b].phis + [i]) by {
        assert blocks[b].phis[..|blocks[b].phis|] == blocks[b].phis && blocks[b].phis[|blocks[b].phis|..] == [];
      }
      blocks := blocks[b := blocks[b].(phis := blocks[b].phis + [i])];
      insts := insts[i := insts[i].(parent := Some(b))];
      FinishAttach(b, i, before, blk);
    }

    method SetTerminator(b: BlockId, i: InstId)
      requires Valid() && CanInsert(b, i) && IsTerminator(insts[i].kind) && blocks[b].terminator.None?
      modifies `blocks, `insts, `valueUses, `blockUses
      ensures Valid()
      ensures Now() == Attach(old(Now()), b, old(blocks[b]).(terminator := Some(i)), i)
    {
      hide Exact, ValueOperands, BlockOperands, WellPlaced, Registry, BlockRegistry, OperandsExist;
      ghost var before := Now();
      ghost var blk := blocks[b].(terminator := Some(i));
      blocks := blocks[b := blocks[b].(terminator := Some(i))];
      insts := insts[i := insts[i].(parent := Some(b))];
      FinishAttach(b, i, before, blk);
    }

    /** Phis go before everything else, and nothing goes after a terminator. */
    method AppendToBlock(b: BlockId, i: InstId)
      requires Valid() && CanInsert(b, i) && blocks[b].terminator.None?
      requires (insts[i].kind.Phi? ==> blocks[b].insts == [])
      modifies `blocks, `insts, `valueUses, `blockUses
      ensures Valid()
      ensures var was := old(blocks[b]);
        Now() == Attach(old(Now()), b,
          if old(insts[i]).kind.Phi? then was.(phis := was.phis + [i])
          else if IsTerminator(old(insts[i]).kind) then was.(terminator := Some(i))
          else was.(insts := was.insts + [i]), i)
    {
      if insts[i].kind.Phi? {
        AppendPhi(b, i);
      } else if IsTerminator(insts[i].kind) {
        SetTerminator(b, i);
      } else {
        AppendInst(b, i);
      }
    }

    /** Where a block lists an instruction: looked for among instructions, phis, then the terminator. */
    method LocateInst(b: BlockId, i: InstId) returns (pos: InstPosition)
      requires b in blocks && Contains(blocks[b], i)
      ensures match pos
        case AtInst(k) => k < |blocks[b].insts| && blocks[b].insts[k] == i
        case AtPhi(k) => i !in blocks[b].insts && k < |blocks[b].phis| && blocks[b].phis[k] == i
        case AtTerminator => i !in blocks[b].insts && i !in blocks[b].phis && blocks[b].terminator == Some(i)
    {
      var k := Position(blocks[b].insts, i);
      if k.Some? {
        return AtInst(k.value);
      }
      k := Position(blocks[b].phis, i);
      if k.Some? {
        return AtPhi(k.value);
      }
      return AtTerminator;
    }

    /** The new instruction lands next to the anchor, in the list the anchor is in; in front of a
        terminator means at the end of the block's instructions. */
    method InsertBefore(anchor: InstId, i: InstId)
      requires Valid() && Attached(Now(), anchor) && i in insts && insts[i].parent.None? && OperandsExist(Now(), i)
      requires insts[i].kind.Phi? == insts[anchor].kind.Phi? && !IsTerminator(insts[i].kind)
      modifies `blocks, `insts, `valueUses, `blockUses
      ensures Valid() && old(insts[anchor]).parent.value in old(blocks)
      ensures var b := old(insts[anchor]).parent.value;
        Now() == Attach(old(Now()), b, PlacedBefore(old(blocks[b]), anchor, i), i)
    {
      hide Exact, ValueOperands, BlockOperands, Registry, BlockRegistry, OperandsExist;
      ghost var before := Now();
      assert WellHeld(before, anchor);
      var b := insts[anchor].parent.value;
      var was := blocks[b];
      var pos := LocateInst(b, anchor);
      ghost var blk := PlacedBefore(was, anchor, i);
      match pos {
        case AtPhi(k) =>
          PositionUnique(was.phis, k, anchor);
          blocks := blocks[b := was.(phis := was.phis[..k] + [i] + was.phis[k..])];
          assert blk == InsertPhi(was, k, i);
        case AtInst(k) =>
          PositionUnique(was.insts, k, anchor);
          blocks := blocks[b := was.(insts := was.insts[..k] + [i] + was.insts[k..])];
          assert blk == InsertInst(was, k, i);
        case AtTerminator =>
          blocks := blocks[b := was.(insts := was.insts + [i])];
          assert was.insts[..|was.insts|] == was.insts && was.insts[|was.insts|..] == [];
          assert blk == InsertInst(was, |was.insts|, i);
      }
      insts := insts[i := insts[i].(parent := Some(b))];
      assert Joins(was, blk, before.insts[i].kind, i);
      assert Now() == Attach(before, b, blk, i);
      FinishAttach(b, i, before, blk);
    }

    method InsertAfter(anchor: InstId, i: InstId)
      requires Valid() && Attached(Now(), anchor) && i in insts && insts[i].parent.None? && OperandsExist(Now(), i)
      requires insts[i].kind.Phi? == insts[anchor].kind.Phi? && !IsTerminator(insts[i].kind)
      requires !IsTerminator(insts[anchor].kind)
      modifies `blocks, `insts, `valueUses, `blockUses
      ensures Valid() && old(insts[anchor]).parent.value in old(blocks)
      ensures var b := old(insts[anchor]).parent.value;
        Now() == Attach(old(Now()), b, PlacedAfter(old(blocks[b]), anchor, i), i)
    {
      hide Exact, ValueOperands, BlockOperands, Registry, BlockRegistry, OperandsExist;
      ghost var before := Now();
      assert WellHeld(before, anchor);
      var b := insts[anchor].parent.value;
      var was := blocks[b];
      var pos := LocateInst(b, anchor);
      ghost var blk := PlacedAfter(was, anchor, i);
      match pos {
        case AtPhi(k) =>
          PositionUnique(was.phis, k, anchor);
          blocks := blocks[b := was.(phis := was.phis[..k + 1] + [i] + was.phis[k + 1..])];
          assert blk == InsertPhi(was, k + 1, i);
        case AtInst(k) =>
          PositionUnique(was.insts, k, anchor);
          blocks := blocks[b := was.(insts := was.insts[..k + 1] + [i] + was.insts[k + 1..])];
          assert blk == InsertInst(was, k + 1, i);
        case AtTerminator => assert false;
      }
      insts := insts[i := insts[i].(parent := Some(b))];
      assert Joins(was, blk, before.insts[i].kind, i);
      assert Now() == Attach(before, b, blk, i);
      FinishAttach(b, i, before, blk);
    }

    method UnregisterInstUse(user: InstId)
      requires Valid() && user in insts && (insts[user].parent.None? ==> OperandsExist(Now(), user))
      modifies `valueUses, `blockUses
      ensures valueUses.Keys == old(valueUses).Keys && blockUses.Keys == old(blockUses).Keys
      ensures Exact(valueUses, Forget(Registry(Now()), user)) && Exact(blockUses, Forget(BlockRegistry(Now()), user))
    {
      hide Exact, ValueOperands, BlockOperands;
      var kind := insts[user].kind;
      assert Attached(Now(), user) ==> WellHeld(Now(), user);
      ghost var reg, breg := Registry(Now()), BlockRegistry(Now());
      valueUses := DropUses(valueUses, user, ValueOperands(kind), reg);
      blockUses := DropUses(blockUses, user, BlockOperands(kind), breg);
    }

    /** A block's lists without an instruction they hold. */
    method TakeOut(b: BlockId, i: InstId) returns (left: BlockData)
      requires b in blocks && Contains(blocks[b], i) && Distinct(blocks[b].insts) && Distinct(blocks[b].phis)
      requires if i in blocks[b].insts then i !in blocks[b].phis && blocks[b].terminator != Some(i)
        else i in blocks[b].phis ==> blocks[b].terminator != Some(i)
      ensures left == RemoveFrom(blocks[b], i)
    {
      var was := blocks[b];
      var pos := LocateInst(b, i);
      match pos {
        case AtInst(k) =>
          RemoveAt(was.insts, k);
          WithoutAbsent(was.phis, i);
          left := was.(insts := was.insts[..k] + was.insts[k + 1..]);
        case AtPhi(k) =>
          RemoveAt(was.phis, k);
          WithoutAbsent(was.insts, i);
          left := was.(phis := was.phis[..k] + was.phis[k + 1..]);
        case AtTerminator =>
          WithoutAbsent(was.insts, i);
          WithoutAbsent(was.phis, i);
          left := was.(terminator := None);
      }
    }

    method DetachInst(i: InstId)
      requires Valid() && i in insts && (insts[i].parent.None? ==> OperandsExist(Now(), i))
      modifies `blocks, `insts, `valueUses, `blockUses
      ensures Valid() && Now() == Detach(old(Now()), i)
    {
      hide Exact, ValueOperands, BlockOperands, Registry, BlockRegistry, OperandsExist, WellPlaced, RemoveFrom,
        Distinct, Contains;
      ghost var before, vu, bu := Now(), valueUses, blockUses;
      UnregisterInstUse(i);
      DetachConsistent(before, vu, bu, i, valueUses, blockUses);
      if insts[i].parent.None? {
        return;
      }
      var b := insts[i].parent.value;
      OnlyPlace(before, b, i);
      var left := TakeOut(b, i);
      blocks := blocks[b := left];
      insts := insts[i := insts[i].(parent := None)];
    }

    /** Refused, while something still uses the instruction. */
    method EraseInstFromParent(i: InstId)
      requires Valid() && i in insts && (insts[i].parent.None? ==> OperandsExist(Now(), i))
      requires valueUses[InstValue(i)] == []
      modifies `blocks, `insts, `valueUses, `blockUses
      ensures Valid() && Now() == Erase(old(Now()), i)
    {
      hide Exact, ValueOperands, BlockOperands, Registry, BlockRegistry, OperandsExist, WellPlaced;
      ghost var before, vu, bu := Now(), valueUses, blockUses;
      DetachInst(i);
      EraseConsistent(before, vu, bu, i, valueUses, blockUses);
      insts := insts - {i};
      valueUses := valueUses - {InstValue(i)};
    }

    method ReplaceInstOperand(i: InstId, slot: OperandSlot, v: ValueId)
      requires Valid() && Attached(Now(), i) && slot in ValueOperands(insts[i].kind) && Knows(Now(), v)
      modifies `insts, `valueUses
      ensures Valid() && Now() == WithKind(old(Now()), i, ReplaceOperand(old(insts[i]).kind, slot, v))
    {
      hide Exact, ValueOperands, BlockOperands, Registry, BlockRegistry, OperandsExist, WellPlaced, ReplaceOperand,
        Without;
      ReplaceConsistent(Now(), valueUses, blockUses, i, slot, v);
      var oldValue := ValueOperands(insts[i].kind)[slot];
      insts := insts[i := insts[i].(kind := ReplaceOperand(insts[i].kind, slot, v))];
      valueUses := valueUses[oldValue := Without(valueUses[oldValue], Use(i, slot))];
      valueUses := valueUses[v := valueUses[v] + [Use(i, slot)]];
    }

    method ReplaceBlockOperandOf(i: InstId, slot: BlockOperandSlot, b: BlockId)
      requires Valid() && Attached(Now(), i) && slot in BlockOperands(insts[i].kind) && b in blocks
      modifies `insts, `blockUses
      ensures Valid() && Now() == WithKind(old(Now()), i, ReplaceBlockOperand(old(insts[i]).kind, slot, b))
    {
      hide Exact, ValueOperands, BlockOperands, Registry, BlockRegistry, OperandsExist, WellPlaced, ReplaceBlockOperand,
        Without;
      ReplaceBlockConsistent(Now(), valueUses, blockUses, i, slot, b);
      var oldBlock := BlockOperands(insts[i].kind)[slot];
      insts := insts[i := insts[i].(kind := ReplaceBlockOperand(insts[i].kind, slot, b))];
      blockUses := blockUses[oldBlock := Without(blockUses[oldBlock], Use(i, slot))];
      blockUses := blockUses[b := blockUses[b] + [Use(i, slot)]];
    }

    /** Substitutes one value for another in every operand, leaves the old value without uses, and
        changes nothing else. */
    method ReplaceAllUsesWith(from: ValueId, to: ValueId)
      requires Valid() && Knows(Now(), from) && Knows(Now(), to) && from != to
      modifies `insts, `valueUses
      ensures Valid() && Now() == SubstituteAll(old(Now()), from, to)
      ensures valueUses[from] == []
    {
      hide Exact, ValueOperands, BlockOperands, Registry, BlockRegistry, OperandsExist, WellPlaced, ReplaceOperand,
        Skeleton, Moved;
      ghost var before := Now();
      var uses := valueUses[from];
      UsesAreRegistered(before, valueUses, blockUses, from);
      MovedNothing(before, to);
      for k := 0 to |uses|
        invariant Valid() && Moved(before, Now(), uses[..k], to)
      {
        var u := uses[k];
        assert u in uses;
        MovedStep(before, Now(), uses[..k], to, u);
        MovedAt(before, Now(), uses[..k], to, u.user);
        assert uses[..k + 1] == uses[..k] + [u];
        ReplaceInstOperand(u.user, u.slot, to);
      }
      assert uses[..|uses|] == uses;
      MovedAll(before, Now(), uses, from, to);
      SubstitutedHasNoUses(before, valueUses, blockUses, from, to);
    }

    method ReplaceAllBlockUsesWith(from: BlockId, to: BlockId)
      requires Valid() && from in blocks && to in blocks && from != to
      modifies `insts, `blockUses
      ensures Valid() && Now() == RetargetAll(old(Now()), from, to)
      ensures blockUses[from] == []
    {
      hide Exact, ValueOperands, BlockOperands, Registry, BlockRegistry, OperandsExist, WellPlaced, ReplaceBlockOperand,
        Skeleton;
      ghost var before := Now();
      var uses := blockUses[from];
      BlockUsesAreRegistered(before, valueUses, blockUses, from);
      AimedNothing(before, to);
      for k := 0 to |uses|
        invariant Valid() && Aimed(before, Now(), uses[..k], to)
      {
        var u := uses[k];
        assert u in uses;
        AimedStep(before, Now(), uses[..k], to, u);
        assert AimedInst(before.insts[u.user], Now().insts[u.user], u.user, uses[..k], to);
        assert uses[..k + 1] == uses[..k] + [u];
        ReplaceBlockOperandOf(u.user, u.slot, to);
      }
      assert uses[..|uses|] == uses;
      AimedAll(before, Now(), uses, from, to);
      RetargetedHasNoUses(before, valueUses, blockUses, from, to);
    }

    /** Erases an instruction whatever still uses it: its uses become undefined constants first. */
    method EraseInstFromParentForcely(i: InstId) returns (ghost mid: Body)
      requires Valid() && Attached(Now(), i)
      modifies `blocks, `insts, `consts, `valueUses, `blockUses
      ensures Valid() && Undefined(old(Now()), mid, {i}) && Attached(mid, i) && WellPlaced(mid)
      ensures forall c :: |old(consts)| <= c < |consts| ==> consts[c] == UndefConst(old(insts[i].ty))
      ensures Now() == Erase(mid, i)
    {
      hide Exact, ValueOperands, BlockOperands, Registry, BlockRegistry, OperandsExist, WellPlaced, ReplaceOperand,
        Skeleton, UndefinedSoFar;
      ghost var before := Now();
      var ty := insts[i].ty;
      var uses := valueUses[InstValue(i)];
      UsesAreRegistered(before, valueUses, blockUses, InstValue(i));
      UndefinedNothing(before);
      for k := 0 to |uses|
        invariant Valid() && UndefinedSoFar(before, Now(), uses[..k])
        invariant |before.consts| <= |consts|
        invariant forall c :: |before.consts| <= c < |consts| ==> consts[c] == UndefConst(ty)
      {
        var u := uses[k];
        assert u in uses;
        UndefinedStep(before, Now(), uses[..k], u, ty);
        UndefinedAt(before, Now(), uses[..k], u.user);
        assert uses[..k + 1] == uses[..k] + [u];
        var undef := AddConst(UndefConst(ty));
        ReplaceInstOperand(u.user, u.slot, undef);
      }
      assert uses[..|uses|] == uses;
      UndefinedAll(before, Now(), uses, i);
      mid := Now();
      assert WellPlaced(mid);
      assert UndefinedInst(before.insts[i], mid.insts[i], {i}, |before.consts|, mid.consts);
      UndefinedHasNoUses(before, mid, valueUses, blockUses, i);
      EraseInstFromParent(i);
    }

    /** Takes an empty block that nothing refers to out of the function. */
    method RemoveBlock(b: BlockId)
      requires Valid() && b in blocks && b != entry && blockUses[b] == [] && forall i :: !Contains(blocks[b], i)
      modifies `blocks, `order, `blockUses
      ensures Valid() && Now() == old(Now()).(blocks := old(blocks) - {b}, order := Without(old(order), b))
    {
      hide Exact, ValueOperands, BlockOperands, Registry, BlockRegistry, OperandsExist, WellPlaced, Consistent, Without;
      LoseBlock(Now(), valueUses, blockUses, b);
      blocks := blocks - {b};
      blockUses := blockUses - {b};
      order := Without(order, b);
    }

    method PhiAddIncoming(phi: InstId, b: BlockId, v: ValueId)
      requires Valid() && Attached(Now(), phi) && insts[phi].kind.Phi? && Indexed(insts[phi].kind) && b in blocks
      requires Knows(Now(), v)
      modifies `insts, `valueUses, `blockUses
      ensures Valid() && Now() == WithKind(old(Now()), phi, AddIncoming(old(insts[phi]).kind, b, v))
      ensures Indexed(insts[phi].kind)
    {
      hide Exact, ValueOperands, BlockOperands, Registry, BlockRegistry, OperandsExist, WellPlaced;
      AddIncomingConsistent(Now(), valueUses, blockUses, phi, b, v);
      var kind := insts[phi].kind;
      IncomingExact(kind, b, v);
      var idx := kind.idx;
      insts := insts[phi := insts[phi].(kind := Phi(kind.incomings[idx := PhiIncoming(b, v)], idx + 1))];
      valueUses := valueUses[v := valueUses[v] + [Use(phi, PhiIncomingVal(idx))]];
      blockUses := blockUses[b := blockUses[b] + [Use(phi, PhiIncomingBlock(idx))]];
    }

    method PhiRemoveIncomingFrom(phi: InstId, k: nat)
      requires Valid() && Attached(Now(), phi) && insts[phi].kind.Phi? && k in insts[phi].kind.incomings
      modifies `insts, `valueUses, `blockUses
      ensures Valid() && Now() == WithKind(old(Now()), phi, DropIncoming(old(insts[phi]).kind, k))
    {
      hide Exact, ValueOperands, BlockOperands, Registry, BlockRegistry, OperandsExist, WellPlaced, Without;
      DropIncomingConsistent(Now(), valueUses, blockUses, phi, k);
      var kind := insts[phi].kind;
      var v, b := kind.incomings[k].value, kind.incomings[k].block;
      insts := insts[phi := insts[phi].(kind := Phi(kind.incomings - {k}, kind.idx))];
      valueUses := valueUses[v := Without(valueUses[v], Use(phi, PhiIncomingVal(k)))];
      blockUses := blockUses[b := Without(blockUses[b], Use(phi, PhiIncomingBlock(k)))];
    }
  }

  // ---------------------------------------------------------------- facts the methods rest on

  datatype InstPosition = AtInst(i: nat) | AtPhi(i: nat) | AtTerminator

  function IndexIn<T(==)>(s: seq<T>, x: T): (k: nat)
    requires x in s
    ensures k < |s| && s[k] == x
  {
    if s[0] == x then 0 else 1 + IndexIn(s[1..], x)
  }

  function PlacedBefore(blk: BlockData, anchor: InstId, i: InstId): BlockData {
    if anchor in blk.insts then InsertInst(blk, IndexIn(blk.insts, anchor), i)
    else if anchor in blk.phis then InsertPhi(blk, IndexIn(blk.phis, anchor), i)
    else blk.(insts := blk.insts + [i])
  }

  function PlacedAfter(blk: BlockData, anchor: InstId, i: InstId): BlockData {
    if anchor in blk.insts then InsertInst(blk, IndexIn(blk.insts, anchor) + 1, i)
    else if anchor in blk.phis then InsertPhi(blk, IndexIn(blk.phis, anchor) + 1, i)
    else blk
  }

  lemma PositionUnique<T>(s: seq<T>, k: nat, x: T)
    requires Distinct(s) && k < |s| && s[k] == x
    ensures IndexIn(s, x) == k
  {
  }

  /** A listed instruction is in exactly one of its block's three places. */
  lemma OnlyPlace(body: Body, b: BlockId, i: InstId)
    requires WellPlaced(body) && Attached(body, i) && body.insts[i].parent == Some(b)
    ensures b in body.blocks && Contains(body.blocks[b], i) && Distinct(body.blocks[b].insts)
    ensures Distinct(body.blocks[b].phis)
    ensures var blk := body.blocks[b];
      (i in blk.insts ==> i !in blk.phis && blk.terminator != Some(i)) && (i in blk.phis ==> blk.terminator != Some(i))
  {
    hide OperandsExist;
    assert WellHeld(body, i);
    assert Lists(body.blocks[b], body.insts[i].kind, i);
  }
}
