/** Erasing whole blocks (src/ir/core.rs:775-809): their instructions forcibly, their phi entries
    elsewhere, then the blocks. */
module EraseBlocks {
  import opened Sequences
  import opened CoreInts
  import opened Ir
  import opened UseLists
  import opened ModuleCores
  import opened Clearing

  function Members(s: seq<nat>): (r: set<nat>)
    ensures forall x :: x in r <==> x in s
  {
    set x | x in s
  }

  lemma MembersSnoc(s: seq<nat>, k: nat)
    requires k < |s|
    ensures Members(s[..k + 1]) == Members(s[..k]) + {s[k]}
  {
    assert s[..k + 1] == s[..k] + [s[k]];
  }

  function RemoveSet(blk: BlockData, gone: set<InstId>): BlockData {
    BlockData(WithoutAll(blk.phis, gone), WithoutAll(blk.insts, gone),
      if blk.terminator.Some? && blk.terminator.value in gone then None else blk.terminator)
  }

  /** Some instructions are gone; whatever used them now uses fresh undefined constants. */
  ghost predicate UndefErased(before: Body, now: Body, gone: set<InstId>) {
    && now.entry == before.entry && now.order == before.order && now.numArgs == before.numArgs
    && now.numGlobals == before.numGlobals
    && before.consts <= now.consts && now.blocks.Keys == before.blocks.Keys
    && now.insts.Keys == before.insts.Keys - gone
    && (forall c :: c in before.blocks ==> now.blocks[c] == RemoveSet(before.blocks[c], gone))
    && (forall i :: i in now.insts ==> UndefinedInst(before.insts[i], now.insts[i], gone, |before.consts|, now.consts))
  }

  lemma NothingErased(before: Body)
    ensures UndefErased(before, before, {})
  {
    hide ValueOperands, BlockOperands, Skeleton;
    forall c | c in before.blocks ensures before.blocks[c] == RemoveSet(before.blocks[c], {}) {
      WithoutAllAbsent(before.blocks[c].phis, {});
      WithoutAllAbsent(before.blocks[c].insts, {});
    }
  }

  lemma EraseRemoves(mid: Body, i: InstId, c: BlockId)
    requires WellPlaced(mid) && Attached(mid, i) && c in mid.blocks
    ensures c in Erase(mid, i).blocks && Erase(mid, i).blocks[c] == RemoveFrom(mid.blocks[c], i)
  {
    assert WellHeld(mid, i);
    hide OperandsExist;
    if c != mid.insts[i].parent.value {
      var blk := mid.blocks[c];
      assert !Contains(blk, i);
      WithoutAbsent(blk.phis, i);
      WithoutAbsent(blk.insts, i);
    }
  }

  lemma RemoveSetMore(blk: BlockData, gone: set<InstId>, i: InstId)
    ensures RemoveFrom(RemoveSet(blk, gone), i) == RemoveSet(blk, gone + {i})
  {
    TwiceWithout(blk.phis, gone, i);
    TwiceWithout(blk.insts, gone, i);
  }

  lemma UndefinedTwice(a: InstData, b: InstData, c: InstData, gone: set<InstId>, i: InstId, base: nat,
                       consts: seq<ConstData>, consts': seq<ConstData>)
    requires UndefinedInst(a, b, gone, base, consts) && UndefinedInst(b, c, {i}, |consts|, consts') && consts <= consts'
    requires base <= |consts|
    ensures UndefinedInst(a, c, gone + {i}, base, consts')
  {
    hide ValueOperands, BlockOperands, Skeleton;
  }

  lemma EraseOne(before: Body, now: Body, mid: Body, gone: set<InstId>, i: InstId)
    requires UndefErased(before, now, gone) && Undefined(now, mid, {i}) && WellPlaced(mid) && Attached(mid, i)
    ensures UndefErased(before, Erase(mid, i), gone + {i})
  {
    hide UndefinedInst, RemoveSet, RemoveFrom, WellPlaced, Erase;
    var after := Erase(mid, i);
    EraseShape(mid, i);
    forall c | c in before.blocks ensures after.blocks[c] == RemoveSet(before.blocks[c], gone + {i}) {
      EraseRemoves(mid, i, c);
      RemoveSetMore(before.blocks[c], gone, i);
    }
    forall j | j in after.insts
      ensures UndefinedInst(before.insts[j], after.insts[j], gone + {i}, |before.consts|, after.consts)
    {
      UndefinedTwice(before.insts[j], now.insts[j], mid.insts[j], gone, i, |before.consts|, now.consts, mid.consts);
    }
  }

  /** Erases a list of instructions, each forcibly. */
  method EraseList(m: ModuleCore, list: seq<InstId>, ghost before: Body, ghost gone: set<InstId>)
    requires m.Valid() && UndefErased(before, m.Now(), gone) && Distinct(list)
    requires forall i :: i in list ==> Attached(m.Now(), i)
    modifies m
    ensures m.Valid() && UndefErased(before, m.Now(), gone + Members(list))
  {
    hide WellPlaced, Exact, Registry, BlockRegistry, UndefErased, Undefined, Erase;
    assert gone + Members(list[..0]) == gone;
    for k := 0 to |list|
      invariant m.Valid() && UndefErased(before, m.Now(), gone + Members(list[..k]))
      invariant forall i :: i in list[k..] ==> Attached(m.Now(), i)
    {
      var i := list[k];
      ghost var now := m.Now();
      ghost var mid := m.EraseInstFromParentForcely(i);
      EraseOne(before, now, mid, gone + Members(list[..k]), i);
      MembersSnoc(list, k);
      assert gone + Members(list[..k]) + {i} == gone + Members(list[..k + 1]);
      forall j | j in list[k + 1..] ensures Attached(m.Now(), j) {
        assert j in list[k..] && j != i;
        StillAttached(now, mid, i, j);
      }
    }
    assert list[..|list|] == list;
  }

  lemma StillAttached(now: Body, mid: Body, i: InstId, j: InstId)
    requires Undefined(now, mid, {i}) && WellPlaced(mid) && Attached(mid, i) && Attached(now, j) && i != j
    ensures Attached(Erase(mid, i), j)
  {
    hide WellPlaced, ValueOperands, BlockOperands, Skeleton;
    assert UndefinedInst(now.insts[j], mid.insts[j], {i}, |now.consts|, mid.consts);
    EraseShape(mid, i);
    hide Erase;
  }

  // ---------------------------------------------------------------- all instructions of the dead blocks

  /** The instructions that sit in one of the blocks. */
  ghost function HeldIn(body: Body, dead: set<BlockId>): set<InstId> {
    set i | i in body.insts && body.insts[i].parent.Some? && body.insts[i].parent.value in dead
  }

  function AllOf(blk: BlockData): seq<InstId> {
    blk.phis + blk.insts + (if blk.terminator.Some? then [blk.terminator.value] else [])
  }

  lemma ConcatDistinct(a: seq<InstId>, b: seq<InstId>)
    requires Distinct(a) && Distinct(b) && forall x :: x in a ==> x !in b
    ensures Distinct(a + b)
  {
    forall i, j | 0 <= i < j < |a + b| ensures (a + b)[i] != (a + b)[j] {
      if i < |a| <= j {
        assert a[i] in a && b[j - |a|] in b;
      }
    }
  }

  lemma AllOfDistinct(body: Body, b: BlockId)
    requires WellPlaced(body) && b in body.blocks
    ensures Distinct(AllOf(body.blocks[b]))
    ensures forall i :: i in AllOf(body.blocks[b]) <==> i in body.insts && body.insts[i].parent == Some(b)
  {
    hide OperandsExist;
    var blk := body.blocks[b];
    forall i | i in AllOf(blk)
      ensures i in body.insts && body.insts[i].parent == Some(b) && Lists(blk, body.insts[i].kind, i)
    {
      assert Contains(blk, i);
    }
    forall i | i in body.insts && body.insts[i].parent == Some(b) ensures i in AllOf(blk) {
      assert WellHeld(body, i);
    }
    forall i | i in blk.phis ensures i !in blk.insts && blk.terminator != Some(i) {
      assert Lists(blk, body.insts[i].kind, i) by { assert i in AllOf(blk); }
    }
    forall i | i in blk.insts ensures blk.terminator != Some(i) {
      assert Lists(blk, body.insts[i].kind, i) by { assert i in AllOf(blk); }
    }
    ConcatDistinct(blk.phis, blk.insts);
    ConcatDistinct(blk.phis + blk.insts, if blk.terminator.Some? then [blk.terminator.value] else []);
  }

  lemma ErasedParents(before: Body, now: Body, gone: set<InstId>, i: InstId)
    requires UndefErased(before, now, gone) && i in now.insts
    ensures i in before.insts && now.insts[i].parent == before.insts[i].parent
  {
    hide ValueOperands, BlockOperands, Skeleton;
    assert UndefinedInst(before.insts[i], now.insts[i], gone, |before.consts|, now.consts);
  }

  lemma HeldMore(before: Body, now: Body, done: set<BlockId>, b: BlockId, list: seq<InstId>)
    requires UndefErased(before, now, HeldIn(before, done)) && b !in done
    requires forall i :: i in list <==> i in now.insts && now.insts[i].parent == Some(b)
    ensures HeldIn(before, done) + Members(list) == HeldIn(before, done + {b})
  {
    forall i ensures i in list <==> i in before.insts && before.insts[i].parent == Some(b) {
      if i in now.insts {
        ErasedParents(before, now, HeldIn(before, done), i);
      }
    }
  }

  method EraseContents(m: ModuleCore, dead: seq<BlockId>)
    requires m.Valid() && Distinct(dead) && forall b :: b in dead ==> b in m.blocks
    modifies m
    ensures m.Valid() && UndefErased(old(m.Now()), m.Now(), HeldIn(old(m.Now()), Members(dead)))
  {
    hide WellPlaced, Exact, Registry, BlockRegistry, UndefErased, AllOf, HeldIn;
    ghost var before := m.Now();
    NothingErased(before);
    HeldNone(before);
    assert dead[..0] == [];
    for k := 0 to |dead|
      invariant m.Valid() && UndefErased(before, m.Now(), HeldIn(before, Members(dead[..k])))
      invariant m.blocks.Keys == before.blocks.Keys
    {
      var b := dead[k];
      ghost var now: Body, done: set<BlockId> := m.Now(), Members(dead[..k]);
      assert b in dead && b in m.blocks;
      AllOfDistinct(now, b);
      var list := AllOf(m.blocks[b]);
      HeldMore(before, now, done, b, list);
      EraseList(m, list, before, HeldIn(before, done));
      MembersSnoc(dead, k);
      ErasedKeys(before, m.Now(), HeldIn(before, done + {b}));
    }
    assert dead[..|dead|] == dead;
  }

  lemma HeldNone(before: Body)
    ensures HeldIn(before, Members([])) == {}
  {
    assert Members([]) == {};
  }

  lemma ErasedKeys(before: Body, now: Body, gone: set<InstId>)
    requires UndefErased(before, now, gone)
    ensures now.blocks.Keys == before.blocks.Keys && now.insts.Keys == before.insts.Keys - gone
  {
  }

  // ---------------------------------------------------------------- unhooking a block from phis

  function DropEntries(kind: InstKind, ks: set<nat>): InstKind {
    if kind.Phi? then Phi(kind.incomings - ks, kind.idx) else kind
  }

  function KeepIncomings(kind: InstKind, dead: set<BlockId>): InstKind {
    if kind.Phi? then Phi(map k | k in kind.incomings && kind.incomings[k].block !in dead ::
      kind.incomings[k], kind.idx) else kind
  }

  function EntriesOf(done: seq<Use<BlockOperandSlot>>, j: InstId): set<nat> {
    set u | u in done && u.user == j && u.slot.PhiIncomingBlock? :: u.slot.i
  }

  /** The listed phi entries are gone; nothing else changed. */
  ghost predicate Unhooked(before: Body, now: Body, done: seq<Use<BlockOperandSlot>>) {
    && now == before.(insts := now.insts) && now.insts.Keys == before.insts.Keys
    && forall j :: j in before.insts ==>
         now.insts[j] == before.insts[j].(kind := DropEntries(before.insts[j].kind, EntriesOf(done, j)))
  }

  lemma UnhookedNothing(before: Body)
    ensures Unhooked(before, before, [])
  {
    forall j | j in before.insts ensures DropEntries(before.insts[j].kind, EntriesOf([], j)) == before.insts[j].kind {
      assert EntriesOf([], j) == {};
      var kind := before.insts[j].kind;
      assert kind.Phi? ==> kind.incomings - {} == kind.incomings;
    }
  }

  lemma EntriesMore(done: seq<Use<BlockOperandSlot>>, j: InstId, u: Use<BlockOperandSlot>)
    requires u.slot.PhiIncomingBlock?
    ensures EntriesOf(done + [u], j) == if u.user == j then EntriesOf(done, j) + {u.slot.i} else EntriesOf(done, j)
  {
    if u.user == j {
      assert u in done + [u];
    }
  }

  lemma UnhookStep(before: Body, now: Body, done: seq<Use<BlockOperandSlot>>, u: Use<BlockOperandSlot>)
    requires Unhooked(before, now, done) && u.user in before.insts && before.insts[u.user].kind.Phi?
    requires u.slot.PhiIncomingBlock?
    requires u.slot.i in before.insts[u.user].kind.incomings && u !in done
    ensures u.user in now.insts && now.insts[u.user].kind.Phi? && u.slot.i in now.insts[u.user].kind.incomings
    ensures Unhooked(before, WithKind(now, u.user, DropIncoming(now.insts[u.user].kind, u.slot.i)), done + [u])
  {
    assert u.slot.i !in EntriesOf(done, u.user) by {
      assert forall w :: w in done && w.user == u.user && w.slot.PhiIncomingBlock? && w.slot.i == u.slot.i ==> w == u;
    }
    var now' := WithKind(now, u.user, DropIncoming(now.insts[u.user].kind, u.slot.i));
    forall j | j in before.insts
      ensures now'.insts[j] == before.insts[j].(kind := DropEntries(before.insts[j].kind, EntriesOf(done + [u], j)))
    {
      EntriesMore(done, j, u);
      if j == u.user {
        var inc := before.insts[j].kind.incomings;
        assert inc - EntriesOf(done, j) - {u.slot.i} == inc - (EntriesOf(done, j) + {u.slot.i});
      }
    }
  }

  /** A body without one block, and without the phi entries that named it. */
  ghost function WithoutBlock(body: Body, b: BlockId): Body {
    body.(insts := (map i | i in body.insts ::
            if body.insts[i].parent.Some? then body.insts[i].(kind := KeepIncomings(body.insts[i].kind, {b}))
              else body.insts[i]),
          blocks := body.blocks - {b}, order := Without(body.order, b))
  }

  lemma UnhookedAll(before: Body, now: Body, uses: seq<Use<BlockOperandSlot>>, b: BlockId)
    requires Unhooked(before, now, uses)
    requires forall u :: u in uses <==> u in BlockRegistry(before) && BlockRegistry(before)[u] == b
    requires forall u :: u in uses ==> u.slot.PhiIncomingBlock?
    ensures now.(blocks := before.blocks - {b}, order := Without(before.order, b)) == WithoutBlock(before, b)
  {
    var want := WithoutBlock(before, b);
    forall j | j in before.insts ensures now.insts[j] == want.insts[j] {
      EntriesAre(before, uses, b, j);
    }
    assert now.insts == want.insts;
  }

  lemma EntriesAre(before: Body, uses: seq<Use<BlockOperandSlot>>, b: BlockId, j: InstId)
    requires j in before.insts
    requires forall u :: u in uses <==> u in BlockRegistry(before) && BlockRegistry(before)[u] == b
    ensures before.insts[j].parent.None? ==>
      DropEntries(before.insts[j].kind, EntriesOf(uses, j)) == before.insts[j].kind
    ensures before.insts[j].parent.Some? ==>
      DropEntries(before.insts[j].kind, EntriesOf(uses, j)) == KeepIncomings(before.insts[j].kind, {b})
  {
    var kind := before.insts[j].kind;
    if kind.Phi? {
      forall k
        ensures k in EntriesOf(uses, j) <==>
          before.insts[j].parent.Some? && k in kind.incomings && kind.incomings[k].block == b
      {
        EntryIs(before, uses, b, j, k);
      }
      assert before.insts[j].parent.None? ==> kind.incomings - EntriesOf(uses, j) == kind.incomings;
    }
  }

  lemma EntryIs(before: Body, uses: seq<Use<BlockOperandSlot>>, b: BlockId, j: InstId, k: nat)
    requires j in before.insts && before.insts[j].kind.Phi?
    requires forall u :: u in uses <==> u in BlockRegistry(before) && BlockRegistry(before)[u] == b
    ensures k in EntriesOf(uses, j) <==>
      before.insts[j].parent.Some? && k in before.insts[j].kind.incomings
      && before.insts[j].kind.incomings[k].block == b
  {
    var u := Use(j, PhiIncomingBlock(k));
    assert PhiIncomingBlock(k) in BlockOperands(before.insts[j].kind) <==> k in before.insts[j].kind.incomings;
    assert u in uses <==>
      && before.insts[j].parent.Some? && k in before.insts[j].kind.incomings
      && before.insts[j].kind.incomings[k].block == b;
    if k in EntriesOf(uses, j) {
      var w :| w in uses && w.user == j && w.slot.PhiIncomingBlock? && w.slot.i == k;
      assert w == u;
    }
  }

  /** Unhooks an emptied block from the phis that name it, and removes it. */
  method UnhookBlock(m: ModuleCore, b: BlockId)
    requires m.Valid() && b in m.blocks && b != m.entry && (forall i :: !Contains(m.blocks[b], i))
    requires forall u :: u in BlockRegistry(m.Now()) && BlockRegistry(m.Now())[u] == b ==> u.slot.PhiIncomingBlock?
    modifies m
    ensures m.Valid() && m.Now() == WithoutBlock(old(m.Now()), b)
  {
    hide WellPlaced, Exact, Registry, BlockRegistry, BlockOperands, ValueOperands, WithoutBlock, Unhooked, DropIncoming,
      Without;
    ghost var before := m.Now();
    var uses := m.blockUses[b];
    BlockUsesAreRegistered(before, m.valueUses, m.blockUses, b);
    assert Distinct(uses) by { UsesDistinct(before, m.valueUses, m.blockUses, b); }
    UnhookedNothing(before);
    for k := 0 to |uses|
      invariant m.Valid() && Unhooked(before, m.Now(), uses[..k])
    {
      var u := uses[k];
      assert u in uses;
      PhiUse(before, u);
      UnhookStep(before, m.Now(), uses[..k], u);
      UnhookedAttached(before, m.Now(), uses[..k], u.user);
      assert uses[..k + 1] == uses[..k] + [u];
      m.PhiRemoveIncomingFrom(u.user, u.slot.i);
    }
    assert uses[..|uses|] == uses;
    UnhookedUnused(before, m.Now(), m.valueUses, m.blockUses, uses, b);
    UnhookedAll(before, m.Now(), uses, b);
    UnhookedBlocks(before, m.Now(), uses);
    m.RemoveBlock(b);
  }

  lemma UsesDistinct(body: Body, vu: ValueUses, bu: BlockUses, b: BlockId)
    requires Consistent(body, vu, bu) && b in bu
    ensures Distinct(bu[b])
  {
    hide WellPlaced, Registry, BlockRegistry;
  }

  lemma PhiUse(body: Body, u: Use<BlockOperandSlot>)
    requires u in BlockRegistry(body) && u.slot.PhiIncomingBlock?
    ensures Attached(body, u.user) && body.insts[u.user].kind.Phi? && u.slot.i in body.insts[u.user].kind.incomings
  {
  }

  lemma UnhookedAttached(before: Body, now: Body, done: seq<Use<BlockOperandSlot>>, j: InstId)
    requires Unhooked(before, now, done) && Attached(before, j)
    ensures Attached(now, j)
  {
  }

  lemma UnhookedBlocks(before: Body, now: Body, done: seq<Use<BlockOperandSlot>>)
    requires Unhooked(before, now, done)
    ensures now.blocks == before.blocks && now.order == before.order && now.entry == before.entry
  {
  }

  lemma UnhookedUnused(before: Body, now: Body, vu: ValueUses, bu: BlockUses, uses: seq<Use<BlockOperandSlot>>,
                       b: BlockId)
    requires Consistent(now, vu, bu) && Unhooked(before, now, uses) && b in before.blocks
    requires forall u :: u in uses <==> u in BlockRegistry(before) && BlockRegistry(before)[u] == b
    requires forall u :: u in uses ==> u.slot.PhiIncomingBlock?
    ensures b in bu && bu[b] == []
  {
    hide WellPlaced, Exact;
    forall u | u in BlockRegistry(now) ensures BlockRegistry(now)[u] != b {
      UnhookedUse(before, now, uses, b, u);
    }
    ExactNone(bu, BlockRegistry(now), b);
  }

  lemma UnhookedUse(before: Body, now: Body, uses: seq<Use<BlockOperandSlot>>, b: BlockId, u: Use<BlockOperandSlot>)
    requires Unhooked(before, now, uses) && u in BlockRegistry(now)
    requires forall w :: w in uses <==> w in BlockRegistry(before) && BlockRegistry(before)[w] == b
    requires forall w :: w in uses ==> w.slot.PhiIncomingBlock?
    ensures BlockRegistry(now)[u] != b
  {
    var j := u.user;
    var kind := before.insts[j].kind;
    assert now.insts[j] == before.insts[j].(kind := DropEntries(kind, EntriesOf(uses, j)));
    if kind.Phi? {
      EntryIs(before, uses, b, j, u.slot.i);
    } else {
      assert u in BlockRegistry(before) && BlockRegistry(before)[u] == BlockRegistry(now)[u];
      BranchSlots(kind, u.slot);
    }
  }

  lemma BranchSlots(kind: InstKind, s: BlockOperandSlot)
    requires !kind.Phi? && s in BlockOperands(kind)
    ensures !s.PhiIncomingBlock?
  {
  }

  // ---------------------------------------------------------------- the whole operation

  /** A body without some blocks, and without the phi entries that named them. */
  ghost function WithoutBlocks(body: Body, dead: set<BlockId>): Body {
    body.(insts := (map i | i in body.insts ::
            if body.insts[i].parent.Some? then body.insts[i].(kind := KeepIncomings(body.insts[i].kind, dead))
              else body.insts[i]),
          blocks := body.blocks - dead, order := WithoutAll(body.order, dead))
  }

  lemma KeepTwice(kind: InstKind, dead: set<BlockId>, b: BlockId)
    ensures KeepIncomings(KeepIncomings(kind, dead), {b}) == KeepIncomings(kind, dead + {b})
  {
  }

  lemma WithoutOneMore(body: Body, dead: set<BlockId>, b: BlockId)
    ensures WithoutBlock(WithoutBlocks(body, dead), b) == WithoutBlocks(body, dead + {b})
  {
    var x, y := WithoutBlock(WithoutBlocks(body, dead), b), WithoutBlocks(body, dead + {b});
    forall i | i in body.insts ensures x.insts[i] == y.insts[i] {
      KeepTwice(body.insts[i].kind, dead, b);
    }
    assert x.insts == y.insts;
    assert x.blocks == y.blocks;
    TwiceWithout(body.order, dead, b);
  }

  lemma WithoutNone(body: Body)
    ensures WithoutBlocks(body, {}) == body
  {
    forall i | i in body.insts ensures KeepIncomings(body.insts[i].kind, {}) == body.insts[i].kind {
    }
    assert WithoutBlocks(body, {}).insts == body.insts;
    assert body.blocks - {} == body.blocks;
    WithoutAllAbsent(body.order, {});
  }

  /** No remaining branch leads into the dead blocks. */
  ghost predicate NotTargeted(body: Body, dead: set<BlockId>) {
    forall i, s ::
      Attached(body, i) && body.insts[i].parent.value !in dead && s in BlockOperands(body.insts[i].kind) ==>
      BlockOperands(body.insts[i].kind)[s] in dead ==>
      s.PhiIncomingBlock?
  }

  /** Erases the blocks: never refused when no remaining branch leads into them. */
  method EraseBlocksFromParent(m: ModuleCore, dead: seq<BlockId>) returns (ghost mid: Body)
    requires m.Valid() && Distinct(dead) && (forall b :: b in dead ==> b in m.blocks && b != m.entry)
    requires NotTargeted(m.Now(), Members(dead))
    modifies m
    ensures m.Valid() && UndefErased(old(m.Now()), mid, HeldIn(old(m.Now()), Members(dead)))
    ensures m.Now() == WithoutBlocks(mid, Members(dead))
  {
    hide WellPlaced, Exact, Registry, BlockRegistry, UndefErased, HeldIn, NotTargeted, WithoutBlocks, WithoutBlock;
    ghost var before: Body, all: set<BlockId> := m.Now(), Members(dead);
    EraseContents(m, dead);
    mid := m.Now();
    WithoutNone(mid);
    assert WellPlaced(mid);
    ErasedKeys(before, mid, HeldIn(before, all));
    assert mid.entry == before.entry by { ErasedEntry(before, mid, HeldIn(before, all)); }
    assert Members(dead[..0]) == {};
    for k := 0 to |dead|
      invariant m.Valid() && m.Now() == WithoutBlocks(mid, Members(dead[..k]))
    {
      var b := dead[k];
      ghost var done: set<BlockId> := Members(dead[..k]);
      assert b in dead;
      BlockStillThere(mid, done, b);
      DeadIsEmpty(before, mid, all, done, b);
      OnlyPhisName(before, mid, all, done, b);
      UnhookBlock(m, b);
      WithoutOneMore(mid, done, b);
      MembersSnoc(dead, k);
    }
    assert dead[..|dead|] == dead;
  }

  lemma ErasedEntry(before: Body, mid: Body, gone: set<InstId>)
    requires UndefErased(before, mid, gone)
    ensures mid.entry == before.entry
  {
  }

  lemma BlockStillThere(mid: Body, done: set<BlockId>, b: BlockId)
    requires b in mid.blocks && b !in done
    ensures b in WithoutBlocks(mid, done).blocks && WithoutBlocks(mid, done).blocks[b] == mid.blocks[b]
    ensures WithoutBlocks(mid, done).entry == mid.entry
  {
  }

  lemma DeadIsEmpty(before: Body, mid: Body, dead: set<BlockId>, done: set<BlockId>, b: BlockId)
    requires UndefErased(before, mid, HeldIn(before, dead)) && WellPlaced(mid) && b in dead && b in mid.blocks
    requires b !in done
    ensures forall i :: !Contains(WithoutBlocks(mid, done).blocks[b], i)
  {
    BlockStillThere(mid, done, b);
    hide WithoutBlocks;
    forall i ensures !Contains(mid.blocks[b], i) {
      NothingHeld(before, mid, dead, b, i);
    }
  }

  lemma NothingHeld(before: Body, mid: Body, dead: set<BlockId>, b: BlockId, i: InstId)
    requires UndefErased(before, mid, HeldIn(before, dead)) && WellPlaced(mid) && b in dead && b in mid.blocks
    ensures !Contains(mid.blocks[b], i)
  {
    hide UndefErased, WellPlaced, HeldIn, Contains;
    ErasedKeys(before, mid, HeldIn(before, dead));
    ContainedHere(mid, b, i);
    if i in mid.insts {
      ErasedParents(before, mid, HeldIn(before, dead), i);
      HeldMember(before, dead, i);
    }
  }

  lemma ContainedHere(body: Body, b: BlockId, i: InstId)
    requires WellPlaced(body) && b in body.blocks
    ensures Contains(body.blocks[b], i) ==> i in body.insts && body.insts[i].parent == Some(b)
  {
    hide OperandsExist;
  }

  lemma HeldMember(body: Body, dead: set<BlockId>, i: InstId)
    requires i in body.insts
    ensures i in HeldIn(body, dead) <==> body.insts[i].parent.Some? && body.insts[i].parent.value in dead
  {
  }

  lemma OnlyPhisName(before: Body, mid: Body, dead: set<BlockId>, done: set<BlockId>, b: BlockId)
    requires UndefErased(before, mid, HeldIn(before, dead)) && NotTargeted(before, dead) && b in dead
    ensures var now := WithoutBlocks(mid, done);
      forall u :: u in BlockRegistry(now) && BlockRegistry(now)[u] == b ==> u.slot.PhiIncomingBlock?
  {
    var now := WithoutBlocks(mid, done);
    forall u | u in BlockRegistry(now) && BlockRegistry(now)[u] == b ensures u.slot.PhiIncomingBlock? {
      NamedByPhi(before, mid, dead, done, b, u);
    }
  }

  lemma NamedByPhi(before: Body, mid: Body, dead: set<BlockId>, done: set<BlockId>, b: BlockId,
                   u: Use<BlockOperandSlot>)
    requires UndefErased(before, mid, HeldIn(before, dead)) && NotTargeted(before, dead) && b in dead
    requires var now := WithoutBlocks(mid, done); u in BlockRegistry(now) && BlockRegistry(now)[u] == b
    ensures u.slot.PhiIncomingBlock?
  {
    var now := WithoutBlocks(mid, done);
    var j := u.user;
    assert j in mid.insts && now.insts[j].parent == mid.insts[j].parent;
    assert UndefinedInst(before.insts[j], mid.insts[j], HeldIn(before, dead), |before.consts|, mid.consts);
    assert before.insts[j].parent == mid.insts[j].parent && before.insts[j].parent.value !in dead;
    assert BlockOperands(mid.insts[j].kind) == BlockOperands(before.insts[j].kind);
    if mid.insts[j].kind.Phi? {
      assert now.insts[j].kind.Phi?;
      PhiSlotsOnly(now.insts[j].kind, u.slot);
    } else {
      assert now.insts[j] == mid.insts[j];
      hide BlockOperands, ValueOperands, Skeleton;
      assert u.slot in BlockOperands(before.insts[j].kind) && BlockOperands(before.insts[j].kind)[u.slot] in dead;
    }
  }

  lemma PhiSlotsOnly(kind: InstKind, s: BlockOperandSlot)
    requires kind.Phi? && s in BlockOperands(kind)
    ensures s.PhiIncomingBlock?
  {
  }
}
