/** Ordinary dead code elimination (src/ir/opt/dce.rs:28-113): mark what stores, calls and
    terminators need, and erase the rest. */
module Dce {
  import opened Sequences
  import opened Ir
  import opened UseLists
  import opened ModuleCores
  import opened Semantics
  import opened Ssa
  import opened Clearing

  predicate AlwaysLive(kind: InstKind) {
    kind.Call? || kind.Branch? || kind.Ret? || kind.Store? || kind.Unreachable?
  }

  ghost predicate ClosedUnderOperands(body: Body, marked: set<InstId>) {
    forall i, s :: i in marked && i in body.insts && s in ValueOperands(body.insts[i].kind) ==>
      ValueOperands(body.insts[i].kind)[s].InstValue? ==>
      ValueOperands(body.insts[i].kind)[s].inst in marked
  }

  ghost predicate HoldsRoots(body: Body, marked: set<InstId>) {
    forall i :: i in body.insts && AlwaysLive(body.insts[i].kind) ==> i in marked
  }

  /** The least set that holds the effectful instructions and is closed under operands. */
  ghost predicate ExactlyNeeded(body: Body, marked: set<InstId>) {
    && HoldsRoots(body, marked) && ClosedUnderOperands(body, marked) && marked <= body.insts.Keys
    && forall other: set<InstId> :: HoldsRoots(body, other) && ClosedUnderOperands(body, other) ==> marked <= other
  }

  /** The stores, calls and terminators. */
  function Effects(body: Body): set<InstId> {
    set i | i in body.insts && (body.insts[i].kind.Store? || body.insts[i].kind.Call? || body.insts[i].kind.Branch?
                                || body.insts[i].kind.Ret? || body.insts[i].kind.Unreachable?)
  }

  /** The least set that holds these and is closed under operands. */
  ghost predicate LeastWith(body: Body, roots: set<InstId>, marked: set<InstId>) {
    && roots <= marked && ClosedUnderOperands(body, marked)
    && forall other: set<InstId> :: roots <= other && ClosedUnderOperands(body, other) ==> marked <= other
  }

  lemma RootsAreEffects(body: Body)
    ensures forall marked: set<InstId> :: ExactlyNeeded(body, marked) ==> LeastWith(body, Effects(body), marked)
  {
    hide ClosedUnderOperands;
    forall marked: set<InstId> ensures HoldsRoots(body, marked) <==> Effects(body) <= marked {
    }
  }

  /** Every instruction sits in a block. */
  predicate AllAttached(body: Body) {
    forall i :: i in body.insts ==> body.insts[i].parent.Some?
  }

  /** Part way through marking: everything off the work list has its operands marked. */
  ghost predicate Marking(body: Body, marked: set<InstId>, pending: set<InstId>) {
    && HoldsRoots(body, marked) && marked <= body.insts.Keys && pending <= marked
    && (forall i, s :: i in marked && i !in pending && s in ValueOperands(body.insts[i].kind) ==>
         ValueOperands(body.insts[i].kind)[s].InstValue? ==>
          ValueOperands(body.insts[i].kind)[s].inst in marked)
    && (forall other: set<InstId> :: HoldsRoots(body, other) && ClosedUnderOperands(body, other) ==> marked <= other)
  }

  /** Part way through one instruction's operands. */
  ghost predicate MarkingOf(body: Body, marked: set<InstId>, pending: set<InstId>, current: InstId,
                            todo: set<OperandSlot>) {
    && current in body.insts && current in marked && Marking(body, marked, pending + {current})
    && (forall s :: s in ValueOperands(body.insts[current].kind) && s !in todo ==>
         ValueOperands(body.insts[current].kind)[s].InstValue? ==>
          ValueOperands(body.insts[current].kind)[s].inst in marked)
  }

  lemma MarkOperand(body: Body, marked: set<InstId>, pending: set<InstId>, current: InstId, todo: set<OperandSlot>,
                    s: OperandSlot)
    requires MarkingOf(body, marked, pending, current, todo) && s in todo
    requires s in ValueOperands(body.insts[current].kind)
    requires WellPlaced(body) && Attached(body, current)
    ensures var v := ValueOperands(body.insts[current].kind)[s];
      if v.InstValue? && v.inst !in marked
      then v.inst in body.insts && MarkingOf(body, marked + {v.inst}, pending + {v.inst}, current, todo - {s})
      else MarkingOf(body, marked, pending, current, todo - {s})
  {
    var v := ValueOperands(body.insts[current].kind)[s];
    assert WellHeld(body, current);
    assert Knows(body, v);
    hide ValueOperands, BlockOperands, WellPlaced, AlwaysLive;
    if v.InstValue? && v.inst !in marked {
      forall other: set<InstId> | HoldsRoots(body, other) && ClosedUnderOperands(body, other)
        ensures marked + {v.inst} <= other
      {
        assert current in other;
      }
    }
  }

  lemma MarkedDone(body: Body, marked: set<InstId>, pending: set<InstId>, current: InstId)
    requires MarkingOf(body, marked, pending, current, {})
    ensures Marking(body, marked, pending - {current}) || current in pending
    ensures current !in pending ==> Marking(body, marked, pending)
  {
    hide ValueOperands;
  }

  method MarkLive(m: ModuleCore) returns (live: set<InstId>)
    requires m.Valid() && AllAttached(m.Now())
    ensures ExactlyNeeded(m.Now(), live)
  {
    hide ValueOperands, AlwaysLive, WellPlaced, Exact, MarkingOf, Registry, BlockRegistry;
    ghost var body := m.Now();
    var roots := set i | i in m.insts && AlwaysLive(m.insts[i].kind);
    var work := SeqOf(roots);
    live := roots;
    assert Marking(body, live, Elements(work));
    while work != []
      invariant Marking(body, live, Elements(work)) && Distinct(work)
      decreases m.insts.Keys - live, |work|
    {
      var current := work[|work| - 1];
      assert current in Elements(work);
      ghost var before, rest := live, Elements(work[..|work| - 1]);
      assert Elements(work) == rest + {current} by { assert work == work[..|work| - 1] + [current]; }
      work := work[..|work| - 1];
      ghost var popped := work;
      var ops := ValueOperands(m.insts[current].kind);
      var slots := ops.Keys;
      StartOperands(body, live, rest, current);
      while slots != {}
        invariant slots <= ops.Keys && MarkingOf(body, live, Elements(work), current, slots) && Distinct(work)
        invariant before <= live <= m.insts.Keys && current !in Elements(work) && (live == before ==> work == popped)
        invariant Elements(work) <= live
        decreases slots
      {
        var s :| s in slots;
        MarkOperand(body, live, Elements(work), current, slots, s);
        if ops[s].InstValue? && ops[s].inst !in live {
          assert Elements(work + [ops[s].inst]) == Elements(work) + {ops[s].inst};
          live := live + {ops[s].inst};
          work := work + [ops[s].inst];
        }
        slots := slots - {s};
      }
      MarkedDone(body, live, Elements(work), current);
    }
    Finished(body, live);
  }

  lemma StartOperands(body: Body, marked: set<InstId>, rest: set<InstId>, current: InstId)
    requires Marking(body, marked, rest + {current})
    ensures current in body.insts
    ensures MarkingOf(body, marked, rest, current, ValueOperands(body.insts[current].kind).Keys)
  {
    hide ValueOperands;
  }

  lemma Finished(body: Body, marked: set<InstId>)
    requires Marking(body, marked, {})
    ensures ExactlyNeeded(body, marked)
  {
    hide ValueOperands;
  }

  method SeqOf(s: set<InstId>) returns (r: seq<InstId>)
    ensures Elements(r) == s && Distinct(r) && |r| == |s|
  {
    r := [];
    var left := s;
    while left != {}
      invariant Elements(r) == s - left && left <= s && Distinct(r) && |r| + |left| == |s|
      decreases left
    {
      var i :| i in left;
      assert Elements(r + [i]) == Elements(r) + {i};
      r := r + [i];
      left := left - {i};
    }
  }

  /** Part way through erasing: what was erased is gone, what is live is untouched. */
  ghost predicate Erasing(before: Body, now: Body, live: set<InstId>, gone: set<InstId>) {
    && now.entry == before.entry && now.order == before.order && now.numArgs == before.numArgs
    && now.numGlobals == before.numGlobals
    && before.consts <= now.consts
    && now.blocks == (map c | c in before.blocks :: ClearBlock(before.blocks[c], gone))
    && now.insts.Keys == before.insts.Keys - gone
    && (forall i :: i in now.insts && i in live ==> now.insts[i] == before.insts[i])
    && (forall i :: i in now.insts ==>
         now.insts[i].parent == before.insts[i].parent && Skeleton(now.insts[i].kind) == Skeleton(before.insts[i].kind))
  }

  lemma ClearSnoc(list: seq<InstId>, i: InstId, gone: set<InstId>)
    ensures WithoutAll(list + [i], gone) == WithoutAll(list, gone) + (if i in gone then [] else [i])
  {
    assert (list + [i])[..|list + [i]| - 1] == list;
  }

  lemma ClearTwiceStep(init: seq<InstId>, i: InstId, gone: set<InstId>, more: set<InstId>)
    requires WithoutAll(WithoutAll(init, gone), more) == WithoutAll(init, gone + more)
    ensures WithoutAll(WithoutAll(init + [i], gone), more) == WithoutAll(init + [i], gone + more)
  {
    hide WithoutAll;
    ClearSnoc(init, i, gone);
    ClearSnoc(init, i, gone + more);
    var r := WithoutAll(init, gone);
    var t := WithoutAll(r, more);
    assert r + [] == r && t + [] == t;
    ClearSnoc(r, i, more);
  }

  lemma ClearEmpty(gone: set<InstId>)
    ensures WithoutAll([], gone) == []
  {
  }

  lemma {:induction false} ClearTwice(list: seq<InstId>, gone: set<InstId>, more: set<InstId>)
    ensures WithoutAll(WithoutAll(list, gone), more) == WithoutAll(list, gone + more)
    decreases |list|
  {
    hide WithoutAll;
    if list == [] {
      ClearEmpty(gone);
      ClearEmpty(more);
      ClearEmpty(gone + more);
    } else {
      var init, i := list[..|list| - 1], list[|list| - 1];
      ClearTwice(init, gone, more);
      ClearTwiceStep(init, i, gone, more);
      assert list == init + [i];
    }
  }

  lemma ClearBlockTwice(blk: BlockData, gone: set<InstId>, more: set<InstId>)
    ensures ClearBlock(ClearBlock(blk, gone), more) == ClearBlock(blk, gone + more)
  {
    ClearTwice(blk.phis, gone, more);
    ClearTwice(blk.insts, gone, more);
  }

  lemma {:induction false} ClearNone(list: seq<InstId>)
    ensures WithoutAll(list, {}) == list
    decreases |list|
  {
    if list != [] {
      ClearNone(list[..|list| - 1]);
      assert list == list[..|list| - 1] + [list[|list| - 1]];
    }
  }

  lemma StartErasing(before: Body, live: set<InstId>)
    ensures Erasing(before, before, live, {})
  {
    forall c | c in before.blocks ensures ClearBlock(before.blocks[c], {}) == before.blocks[c] {
      ClearNone(before.blocks[c].phis);
      ClearNone(before.blocks[c].insts);
    }
    assert before.blocks == map c | c in before.blocks :: ClearBlock(before.blocks[c], {});
  }

  lemma SameSkeletonDroppable(a: InstKind, b: InstKind)
    requires Skeleton(a) == Skeleton(b)
    ensures Droppable(a) == Droppable(b)
  {
  }

  /** A live instruction has no operand that is about to be erased, so making those undefined leaves it alone. */
  lemma LiveUntouched(before: Body, now: Body, mid: Body, live: set<InstId>, i: InstId, j: InstId)
    requires ClosedUnderOperands(before, live) && j in live && i !in live && j in before.insts && j in now.insts
    requires now.insts[j] == before.insts[j]
    requires Undefined(now, mid, {i})
    ensures j in mid.insts && mid.insts[j] == now.insts[j]
  {
    hide ValueOperands, BlockOperands, Skeleton;
    assert UndefinedInst(now.insts[j], mid.insts[j], {i}, |now.consts|, mid.consts);
    if now.insts[j].parent.Some? {
      assert ValueOperands(mid.insts[j].kind) == ValueOperands(now.insts[j].kind);
      KindDetermined(mid.insts[j].kind, now.insts[j].kind);
    }
  }

  lemma UndefinedKeeps(now: Body, mid: Body, doomed: set<InstId>, j: InstId)
    requires Undefined(now, mid, doomed) && j in now.insts
    ensures j in mid.insts && mid.insts[j].parent == now.insts[j].parent
    ensures Skeleton(mid.insts[j].kind) == Skeleton(now.insts[j].kind)
  {
    hide ValueOperands, BlockOperands, Skeleton;
    assert UndefinedInst(now.insts[j], mid.insts[j], doomed, |now.consts|, mid.consts);
  }

  lemma EraseAnother(before: Body, now: Body, mid: Body, live: set<InstId>, gone: set<InstId>, i: InstId)
    requires Erasing(before, now, live, gone) && ClosedUnderOperands(before, live) && i in now.insts && i !in live
    requires Droppable(before.insts[i].kind) && Undefined(now, mid, {i}) && WellPlaced(mid) && Attached(mid, i)
    ensures Erasing(before, Erase(mid, i), live, gone + {i})
  {
    hide Skeleton, Droppable, WellPlaced, ClosedUnderOperands, Erase, ClearBlock;
    var after := Erase(mid, i);
    UndefinedKeeps(now, mid, {i}, i);
    SameSkeletonDroppable(before.insts[i].kind, mid.insts[i].kind);
    EraseClears(mid, i);
    forall j | j in after.insts
      ensures after.insts[j].parent == before.insts[j].parent
      ensures Skeleton(after.insts[j].kind) == Skeleton(before.insts[j].kind)
      ensures j in live ==> after.insts[j] == before.insts[j]
    {
      UndefinedKeeps(now, mid, {i}, j);
      if j in live {
        LiveUntouched(before, now, mid, live, i, j);
      }
    }
    ErasedBlocks(before, now, mid, after, gone, i);
  }

  lemma ErasedBlocks(before: Body, now: Body, mid: Body, after: Body, gone: set<InstId>, i: InstId)
    requires now.blocks == (map c | c in before.blocks :: ClearBlock(before.blocks[c], gone))
    requires mid.blocks == now.blocks
    requires after.blocks == (map c | c in mid.blocks :: ClearBlock(mid.blocks[c], {i}))
    ensures after.blocks == (map c | c in before.blocks :: ClearBlock(before.blocks[c], gone + {i}))
  {
    hide ClearBlock;
    forall c | c in before.blocks ensures after.blocks[c] == ClearBlock(before.blocks[c], gone + {i}) {
      ClearBlockTwice(before.blocks[c], gone, {i});
    }
  }

  lemma NotLiveDroppable(body: Body, live: set<InstId>, i: InstId)
    requires HoldsRoots(body, live) && i in body.insts && i !in live
    ensures Droppable(body.insts[i].kind)
  {
  }

  /** Unmarked instructions are unread by marked ones. */
  lemma DeadUnread(body: Body, live: set<InstId>)
    requires ExactlyNeeded(body, live)
    ensures Unread(body, body.insts.Keys - live)
  {
    hide ValueOperands, Droppable, AlwaysLive;
    forall i | i in body.insts.Keys - live ensures Droppable(body.insts[i].kind) {
      NotLiveDroppable(body, live, i);
    }
  }

  /** Erases what is not live. Every erased instruction may still be used by another dead one, so
      each is erased forcibly; no live instruction ever receives an undefined operand. */
  method RemoveDeadInstructions(m: ModuleCore, live: set<InstId>)
    requires m.Valid() && AllAttached(m.Now()) && ExactlyNeeded(m.Now(), live)
    modifies m
    ensures m.Valid() && Cleared(old(m.Now()), m.Now(), old(m.insts).Keys - live)
  {
    hide ValueOperands, AlwaysLive, WellPlaced, Exact, Erasing, ClosedUnderOperands, Skeleton, Undefined, Droppable,
      Erase, Registry, BlockRegistry;
    ghost var before := m.Now();
    var dead := m.insts.Keys - live;
    var left := dead;
    StartErasing(before, live);
    assert dead - left == {};
    while left != {}
      invariant m.Valid() && left <= dead && Erasing(before, m.Now(), live, dead - left)
      decreases left
    {
      var i :| i in left;
      ghost var now := m.Now();
      NotLiveDroppable(before, live, i);
      ErasingKeeps(before, now, live, dead - left, i);
      ghost var mid := m.EraseInstFromParentForcely(i);
      EraseAnother(before, now, mid, live, dead - left, i);
      assert dead - left + {i} == dead - (left - {i});
      left := left - {i};
    }
    assert dead - left == dead;
    DoneErasing(before, m.Now(), live, dead);
  }

  lemma ErasingKeeps(before: Body, now: Body, live: set<InstId>, gone: set<InstId>, i: InstId)
    requires Erasing(before, now, live, gone) && i in before.insts && i !in gone && AllAttached(before)
    ensures Attached(now, i)
  {
  }

  lemma DoneErasing(before: Body, now: Body, live: set<InstId>, dead: set<InstId>)
    requires Erasing(before, now, live, dead) && dead == before.insts.Keys - live && live <= before.insts.Keys
    ensures Cleared(before, now, dead)
  {
  }

  /** Dead code elimination keeps exactly what is needed, and the reduced body does the same
      stores, calls, branches and returns, with the same values, on every run. */
  method FuncDeadCodeElimination(m: ModuleCore) returns (ghost live: set<InstId>)
    requires m.Valid() && AllAttached(m.Now())
    modifies m
    ensures m.Valid() && ExactlyNeeded(old(m.Now()), live) && m.insts.Keys == live
    ensures Cleared(old(m.Now()), m.Now(), old(m.insts).Keys - live)
    ensures Lockstep(old(m.Now()), m.Now(), live)
    ensures SSA(old(m.Now())) ==> SSA(m.Now())
    ensures LeastWith(old(m.Now()), Effects(old(m.Now())), live)
  {
    ghost var before := m.Now();
    RootsAreEffects(before);
    var marked := MarkLive(m);
    live := marked;
    RemoveDeadInstructions(m, marked);
    DeadCodeUnobserved(before, m.Now(), live);
  }

  lemma DeadCodeUnobserved(before: Body, after: Body, live: set<InstId>)
    requires WellPlaced(before) && ExactlyNeeded(before, live) && Cleared(before, after, before.insts.Keys - live)
    ensures Lockstep(before, after, live) && (SSA(before) ==> SSA(after)) && after.insts.Keys == live
  {
    hide WellPlaced, SSA, Lockstep;
    DeadUnread(before, live);
    hide ExactlyNeeded, Unread;
    assert live <= before.insts.Keys by { NeededExist(before, live); }
    ClearedLockstep(before, after, live, before.insts.Keys - live);
    if SSA(before) {
      ClearedSSA(before, after, before.insts.Keys - live);
    }
  }

  lemma NeededExist(body: Body, live: set<InstId>)
    requires ExactlyNeeded(body, live)
    ensures live <= body.insts.Keys
  {
  }
}
