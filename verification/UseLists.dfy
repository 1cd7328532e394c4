/** Use lists against the operands they index: for each value (or block), the (user, slot) pairs
    that refer to it, each exactly once (src/ir/core.rs:811-842, 899-996). */
module UseLists {
  import opened Sequences
  import opened CoreInts
  import opened Ir

  datatype Use<S> = Use(user: InstId, slot: S)

  /** What every attached instruction refers to, slot by slot. */
  ghost function Registry(body: Body): imap<Use<OperandSlot>, ValueId> {
    imap u: Use<OperandSlot> | Attached(body, u.user) && u.slot in ValueOperands(body.insts[u.user].kind) ::
      ValueOperands(body.insts[u.user].kind)[u.slot]
  }

  ghost function BlockRegistry(body: Body): imap<Use<BlockOperandSlot>, BlockId> {
    imap u: Use<BlockOperandSlot> | Attached(body, u.user) && u.slot in BlockOperands(body.insts[u.user].kind) ::
      BlockOperands(body.insts[u.user].kind)[u.slot]
  }

  /** Each list holds exactly the uses of its key, none of them twice. */
  ghost predicate Exact<S(!new), K(!new)>(uses: map<K, seq<Use<S>>>, reg: imap<Use<S>, K>) {
    && (forall k :: k in uses ==> Distinct(uses[k]))
    && (forall k, u :: k in uses ==> (u in uses[k] <==> u in reg && reg[u] == k))
    && (forall u :: u in reg ==> reg[u] in uses)
  }

  ghost function Forget<S(!new), K(!new)>(reg: imap<Use<S>, K>, i: InstId): imap<Use<S>, K> {
    imap u: Use<S> | u in reg && u.user != i :: reg[u]
  }

  ghost function Dropped<S(!new), K(!new)>(reg: imap<Use<S>, K>, u: Use<S>): imap<Use<S>, K> {
    imap w: Use<S> | w in reg && w != u :: reg[w]
  }

  ghost function Enlist<S(!new), K(!new)>(reg: imap<Use<S>, K>, i: InstId, ops: map<S, K>): imap<Use<S>, K> {
    imap u: Use<S> | u in reg || (u.user == i && u.slot in ops) :: if u.user == i && u.slot in ops then ops[u.slot]
      else reg[u]
  }

  lemma ExactPush<S(!new), K(!new)>(uses: map<K, seq<Use<S>>>, reg: imap<Use<S>, K>, u: Use<S>, k: K)
    requires Exact(uses, reg) && u !in reg && k in uses
    ensures Exact(uses[k := uses[k] + [u]], reg[u := k])
  {
    assert u !in uses[k];
  }

  lemma ExactDrop<S(!new), K(!new)>(uses: map<K, seq<Use<S>>>, reg: imap<Use<S>, K>, u: Use<S>, k: K)
    requires Exact(uses, reg) && k in uses && (u in reg ==> reg[u] == k)
    ensures Exact(uses[k := Without(uses[k], u)], Dropped(reg, u))
  {
    var uses' := uses[k := Without(uses[k], u)];
    assert forall l :: l in uses && l != k ==> u !in uses[l];
    assert forall l, w :: l in uses' ==> (w in uses'[l] <==> w in uses[l] && w != u);
    hide Without;
  }

  /** Taking a use off its old value's list and putting it on its new one's. */
  lemma ExactMove<S(!new), K(!new)>(uses: map<K, seq<Use<S>>>, reg: imap<Use<S>, K>, u: Use<S>, to: K)
    requires Exact(uses, reg) && u in reg && to in uses
    ensures reg[u] in uses
    ensures var uses1 := uses[reg[u] := Without(uses[reg[u]], u)];
      Exact(uses1[to := uses1[to] + [u]], reg[u := to])
  {
    var uses1 := uses[reg[u] := Without(uses[reg[u]], u)];
    ExactDrop(uses, reg, u, reg[u]);
    ExactPush(uses1, Dropped(reg, u), u, to);
    assert Dropped(reg, u)[u := to] == reg[u := to];
  }

  lemma ExactNewKey<S(!new), K(!new)>(uses: map<K, seq<Use<S>>>, reg: imap<Use<S>, K>, k: K)
    requires Exact(uses, reg) && k !in uses
    ensures Exact(uses[k := []], reg)
  {
  }

  lemma ExactLoseKey<S(!new), K(!new)>(uses: map<K, seq<Use<S>>>, reg: imap<Use<S>, K>, k: K)
    requires Exact(uses, reg) && (k in uses ==> uses[k] == [])
    ensures Exact(uses - {k}, reg)
  {
    assert k in uses ==> forall u :: u in reg ==> reg[u] != k || u in uses[k];
  }

  lemma ExactNone<S(!new), K(!new)>(uses: map<K, seq<Use<S>>>, reg: imap<Use<S>, K>, k: K)
    requires Exact(uses, reg) && k in uses && forall u :: u in reg ==> reg[u] != k
    ensures uses[k] == []
  {
    assert forall u: Use<S> :: u in uses[k] <==> u in reg && reg[u] == k;
    HeadIn(uses[k]);
  }

  lemma HeadIn<T>(s: seq<T>)
    ensures s == [] || s[0] in s
  {
  }

  /** Adds a use of each operand to the end of its list. */
  method PushUses<S(!new), K(==, !new)>(uses: map<K, seq<Use<S>>>, i: InstId, ops: map<S, K>, ghost reg: imap<Use<S>,
                    K>)
    returns (uses': map<K, seq<Use<S>>>)
    requires Exact(uses, reg) && (forall s :: s in ops ==> ops[s] in uses) && (forall u :: u in reg ==> u.user != i)
    ensures uses'.Keys == uses.Keys && Exact(uses', Enlist(reg, i, ops))
  {
    hide Exact;
    uses' := uses;
    var todo := ops.Keys;
    assert Enlist(reg, i, ops - todo) == reg;
    while todo != {}
      invariant todo <= ops.Keys && uses'.Keys == uses.Keys && Exact(uses', Enlist(reg, i, ops - todo))
      decreases todo
    {
      var s :| s in todo;
      ghost var now := Enlist(reg, i, ops - todo);
      ExactPush(uses', now, Use(i, s), ops[s]);
      uses' := uses'[ops[s] := uses'[ops[s]] + [Use(i, s)]];
      assert now[Use(i, s) := ops[s]] == Enlist(reg, i, ops - (todo - {s}));
      todo := todo - {s};
    }
    assert ops - todo == ops;
  }

  method Position<T(==)>(s: seq<T>, x: T) returns (pos: Option<nat>)
    ensures pos.Some? ==> pos.value < |s| && s[pos.value] == x && x !in s[..pos.value]
    ensures pos.None? ==> x !in s
  {
    for k := 0 to |s|
      invariant x !in s[..k]
    {
      if s[k] == x {
        return Some(k);
      }
      assert s[..k + 1] == s[..k] + [s[k]];
    }
    assert s[..|s|] == s;
    return None;
  }

  /** Takes the first occurrence of x out of a list. */
  method RemoveFirst<T(==, !new)>(s: seq<T>, x: T) returns (r: seq<T>)
    requires Distinct(s)
    ensures r == Without(s, x)
  {
    var pos := Position(s, x);
    if pos.Some? {
      RemoveAt(s, pos.value);
      r := s[..pos.value] + s[pos.value + 1..];
    } else {
      WithoutAbsent(s, x);
      r := s;
    }
  }

  /** Takes the use of each operand off its list, if it is there. */
  method DropUses<S(==, !new), K(==, !new)>(uses: map<K, seq<Use<S>>>, i: InstId, ops: map<S, K>,
                    ghost reg: imap<Use<S>, K>)
    returns (uses': map<K, seq<Use<S>>>)
    requires Exact(uses, reg) && (forall s :: s in ops ==> ops[s] in uses)
    requires forall u :: u in reg && u.user == i ==> u.slot in ops && reg[u] == ops[u.slot]
    ensures uses'.Keys == uses.Keys && Exact(uses', Forget(reg, i))
  {
    uses' := uses;
    var todo := ops.Keys;
    ghost var now := reg;
    while todo != {}
      invariant todo <= ops.Keys && uses'.Keys == uses.Keys && Exact(uses', now)
      invariant now == imap u: Use<S> | u in reg && (u.user != i || u.slot in todo) :: reg[u]
      decreases todo
    {
      var s :| s in todo;
      ExactDrop(uses', now, Use(i, s), ops[s]);
      var left := RemoveFirst(uses'[ops[s]], Use(i, s));
      uses' := uses'[ops[s] := left];
      now := Dropped(now, Use(i, s));
      todo := todo - {s};
    }
    assert now == Forget(reg, i);
  }

  // ---------------------------------------------------------------- bodies with their use lists

  type ValueUses = map<ValueId, seq<Use<OperandSlot>>>

  type BlockUses = map<BlockId, seq<Use<BlockOperandSlot>>>

  /** The invariant of the whole structure: blocks and instructions agree, and the use lists are
      exactly the operands. */
  ghost predicate Consistent(body: Body, vu: ValueUses, bu: BlockUses) {
    && WellPlaced(body)
    && Exact(vu, Registry(body)) && (forall v :: v in vu <==> Knows(body, v))
    && Exact(bu, BlockRegistry(body)) && bu.Keys == body.blocks.Keys
  }

  /** blk' is blk with i put in where an instruction of its kind belongs. */
  ghost predicate Joins(blk: BlockData, blk': BlockData, kind: InstKind, i: InstId) {
    if kind.Phi? then exists k: nat :: k <= |blk.phis| && blk' == InsertPhi(blk, k, i)
    else if IsTerminator(kind) then blk.terminator.None? && blk' == blk.(terminator := Some(i))
    else exists k: nat :: k <= |blk.insts| && blk' == InsertInst(blk, k, i)
  }

  lemma JoinsExact(blk: BlockData, blk': BlockData, kind: InstKind, i: InstId)
    requires Joins(blk, blk', kind, i)
    requires i !in blk.phis && i !in blk.insts && Distinct(blk.phis) && Distinct(blk.insts)
    ensures Distinct(blk'.phis) && Distinct(blk'.insts)
    ensures forall j :: j in blk'.phis <==> j in blk.phis || (j == i && kind.Phi?)
    ensures forall j :: j in blk'.insts <==> j in blk.insts || (j == i && !kind.Phi? && !IsTerminator(kind))
    ensures blk'.terminator == if !kind.Phi? && IsTerminator(kind) then Some(i) else blk.terminator
    ensures !kind.Phi? && IsTerminator(kind) ==> blk.terminator.None?
  {
    hide InsertAt;
    if kind.Phi? {
      var k: nat :| k <= |blk.phis| && blk' == InsertPhi(blk, k, i);
      InsertAtExact(blk.phis, k, i);
    } else if !IsTerminator(kind) {
      var k: nat :| k <= |blk.insts| && blk' == InsertInst(blk, k, i);
      InsertAtExact(blk.insts, k, i);
    }
  }

  lemma NowhereListed(body: Body, i: InstId)
    requires WellPlaced(body) && i in body.insts && body.insts[i].parent.None?
    ensures forall c :: c in body.blocks ==>
      i !in body.blocks[c].phis && i !in body.blocks[c].insts && body.blocks[c].terminator != Some(i)
  {
    hide WellHeld, Lists;
    assert forall c :: c in body.blocks ==> !Contains(body.blocks[c], i);
  }

  lemma JoinedListed(body: Body, b: BlockId, blk: BlockData, i: InstId, c: BlockId, j: InstId)
    requires WellPlaced(body) && b in body.blocks && i in body.insts && body.insts[i].parent.None?
    requires Joins(body.blocks[b], blk, body.insts[i].kind, i)
    requires c in body.blocks && Contains(Attach(body, b, blk, i).blocks[c], j)
    ensures var body' := Attach(body, b, blk, i);
      j in body'.insts && body'.insts[j].parent == Some(c) && Lists(body'.blocks[c], body'.insts[j].kind, j)
  {
    hide Joins, OperandsExist, InsertAt, WellHeld;
    NowhereListed(body, i);
    JoinsExact(body.blocks[b], blk, body.insts[i].kind, i);
    if j != i {
      assert Contains(body.blocks[c], j);
    }
  }

  lemma AttachPlaced(body: Body, b: BlockId, blk: BlockData, i: InstId)
    requires WellPlaced(body) && b in body.blocks && i in body.insts && body.insts[i].parent.None?
    requires OperandsExist(body, i)
    requires Joins(body.blocks[b], blk, body.insts[i].kind, i)
    ensures WellPlaced(Attach(body, b, blk, i))
  {
    hide Joins, OperandsExist, InsertAt, WellHeld, Contains, Lists;
    var body' := Attach(body, b, blk, i);
    NowhereListed(body, i);
    JoinsExact(body.blocks[b], blk, body.insts[i].kind, i);
    forall c, j | c in body'.blocks && Contains(body'.blocks[c], j)
      ensures j in body'.insts && body'.insts[j].parent == Some(c) && Lists(body'.blocks[c], body'.insts[j].kind, j)
    {
      JoinedListed(body, b, blk, i, c, j);
    }
    forall j | Attached(body', j) ensures WellHeld(body', j) {
      JoinedHeld(body, b, blk, i, j);
    }
  }

  lemma JoinedHeld(body: Body, b: BlockId, blk: BlockData, i: InstId, j: InstId)
    requires WellPlaced(body) && b in body.blocks && i in body.insts && body.insts[i].parent.None?
    requires OperandsExist(body, i)
    requires Joins(body.blocks[b], blk, body.insts[i].kind, i) && Attached(Attach(body, b, blk, i), j)
    ensures WellHeld(Attach(body, b, blk, i), j)
  {
    hide Joins, OperandsExist, InsertAt;
    var body' := Attach(body, b, blk, i);
    assert !Contains(body.blocks[b], i);
    JoinsExact(body.blocks[b], blk, body.insts[i].kind, i);
    OperandsStillExist(body, body');
    if j != i {
      assert WellHeld(body, j);
    }
  }

  /** Moving instructions about leaves every existing operand in existence. */
  lemma OperandsStillExist(body: Body, body': Body)
    requires body'.insts.Keys == body.insts.Keys && body'.blocks.Keys == body.blocks.Keys && body'.consts == body.consts
    requires body'.numArgs == body.numArgs && body'.numGlobals == body.numGlobals
    requires forall i :: i in body.insts ==> body'.insts[i].kind == body.insts[i].kind
    ensures forall i :: i in body.insts && OperandsExist(body, i) ==> OperandsExist(body', i)
  {
    hide ValueOperands, BlockOperands;
    assert forall v :: Knows(body, v) ==> Knows(body', v);
    forall i | i in body.insts && OperandsExist(body, i) ensures OperandsExist(body', i) {
    }
  }

  lemma DetachPlaced(body: Body, i: InstId)
    requires WellPlaced(body) && i in body.insts
    ensures WellPlaced(Detach(body, i)) && !Attached(Detach(body, i), i)
    ensures Attached(body, i) ==> body.insts[i].parent.value in body.blocks
  {
    hide OperandsExist, Without;
    var body' := Detach(body, i);
    if Attached(body, i) {
      assert WellHeld(body, i);
      var b := body.insts[i].parent.value;
      OperandsStillExist(body, body');
      forall c, j | c in body'.blocks && Contains(body'.blocks[c], j)
        ensures j in body'.insts && body'.insts[j].parent == Some(c) && Lists(body'.blocks[c], body'.insts[j].kind, j)
      {
        assert Contains(body.blocks[c], j);
      }
      forall j | Attached(body', j) ensures WellHeld(body', j) {
        assert WellHeld(body, j) && j != i;
      }
    }
  }

  lemma ErasePlaced(body: Body, i: InstId)
    requires WellPlaced(body) && i in body.insts
    requires forall u :: u in Registry(body) ==> Registry(body)[u] != InstValue(i)
    ensures WellPlaced(Erase(body, i))
  {
    hide ValueOperands, BlockOperands;
    var d, e := Detach(body, i), Erase(body, i);
    DetachPlaced(body, i);
    hide Detach;
    forall c, j | c in e.blocks && Contains(e.blocks[c], j)
      ensures j in e.insts && e.insts[j].parent == Some(c) && Lists(e.blocks[c], e.insts[j].kind, j)
    {
      assert Contains(d.blocks[c], j);
    }
    forall j | Attached(e, j) ensures WellHeld(e, j) {
      assert WellHeld(d, j);
      SurvivorOperands(body, i, j);
    }
  }

  lemma SurvivorOperands(body: Body, i: InstId, j: InstId)
    requires i in body.insts && j in body.insts && i != j && Attached(Erase(body, i), j)
    requires OperandsExist(Detach(body, i), j)
    requires forall u :: u in Registry(body) ==> Registry(body)[u] != InstValue(i)
    ensures OperandsExist(Erase(body, i), j)
  {
    hide ValueOperands, BlockOperands;
    var d, e := Detach(body, i), Erase(body, i);
    forall s | s in ValueOperands(e.insts[j].kind) ensures Knows(e, ValueOperands(e.insts[j].kind)[s]) {
      assert Use(j, s) in Registry(body);
      assert Knows(d, ValueOperands(d.insts[j].kind)[s]);
    }
  }

  /** A change of one attached instruction's operands that keeps its kind. */
  ghost predicate SameRole(kind: InstKind, kind': InstKind) {
    kind'.Phi? == kind.Phi? && IsTerminator(kind') == IsTerminator(kind)
  }

  lemma WithKindPlaced(body: Body, i: InstId, kind: InstKind)
    requires WellPlaced(body) && Attached(body, i) && SameRole(body.insts[i].kind, kind)
    requires OperandsExist(WithKind(body, i, kind), i)
    ensures WellPlaced(WithKind(body, i, kind))
  {
    hide ValueOperands, BlockOperands;
    var body' := WithKind(body, i, kind);
    assert forall v :: Knows(body, v) ==> Knows(body', v);
    forall j | Attached(body', j) ensures WellHeld(body', j) {
      assert WellHeld(body, j);
      if j != i {
        OtherOperands(body, body', j);
      }
    }
    hide OperandsExist, Knows;
    forall c, j | c in body'.blocks && Contains(body'.blocks[c], j)
      ensures j in body'.insts && body'.insts[j].parent == Some(c) && Lists(body'.blocks[c], body'.insts[j].kind, j)
    {
      assert Contains(body.blocks[c], j);
    }
  }

  lemma OtherOperands(body: Body, body': Body, j: InstId)
    requires j in body.insts && j in body'.insts && body'.insts[j] == body.insts[j] && OperandsExist(body, j)
    requires (forall v :: Knows(body, v) ==> Knows(body', v)) && body'.blocks == body.blocks
    ensures OperandsExist(body', j)
  {
    hide ValueOperands, BlockOperands, Knows;
  }

  // ---------------------------------------------------------------- how registries change

  lemma SameRegistries(body: Body, body': Body)
    requires forall i :: Attached(body', i) <==> Attached(body, i)
    requires forall i :: Attached(body, i) ==> i in body'.insts && body'.insts[i].kind == body.insts[i].kind
    ensures Registry(body') == Registry(body) && BlockRegistry(body') == BlockRegistry(body)
  {
    hide ValueOperands, BlockOperands;
    assert Registry(body') == Registry(body);
    assert BlockRegistry(body') == BlockRegistry(body);
  }

  lemma AttachRegistry(body: Body, b: BlockId, blk: BlockData, i: InstId)
    requires i in body.insts && body.insts[i].parent.None?
    ensures Registry(Attach(body, b, blk, i)) == Enlist(Registry(body), i, ValueOperands(body.insts[i].kind))
    ensures BlockRegistry(Attach(body, b, blk, i)) == Enlist(BlockRegistry(body), i, BlockOperands(body.insts[i].kind))
  {
    var after := Attach(body, b, blk, i);
    AttachJoins(body, b, blk, i);
    hide Attach, ValueOperands, BlockOperands;
    RegistryJoined(body, after, i);
    BlockRegistryJoined(body, after, i);
  }

  lemma AttachJoins(body: Body, b: BlockId, blk: BlockData, i: InstId)
    requires i in body.insts && body.insts[i].parent.None?
    ensures OneMoreAttached(body, Attach(body, b, blk, i), i)
  {
  }

  ghost predicate OneMoreAttached(body: Body, after: Body, i: InstId) {
    && i in body.insts && !Attached(body, i) && after.insts.Keys == body.insts.Keys
    && (forall j :: Attached(after, j) <==> Attached(body, j) || j == i)
    && (forall j :: j in body.insts ==> after.insts[j].kind == body.insts[j].kind)
  }

  lemma RegistryJoined(body: Body, after: Body, i: InstId)
    requires OneMoreAttached(body, after, i)
    ensures Registry(after) == Enlist(Registry(body), i, ValueOperands(body.insts[i].kind))
  {
    hide ValueOperands;
  }

  lemma BlockRegistryJoined(body: Body, after: Body, i: InstId)
    requires OneMoreAttached(body, after, i)
    ensures BlockRegistry(after) == Enlist(BlockRegistry(body), i, BlockOperands(body.insts[i].kind))
  {
    hide BlockOperands;
  }

  lemma DetachRegistry(body: Body, i: InstId)
    requires WellPlaced(body) && i in body.insts
    ensures Registry(Detach(body, i)) == Forget(Registry(body), i)
    ensures BlockRegistry(Detach(body, i)) == Forget(BlockRegistry(body), i)
  {
    hide ValueOperands, BlockOperands, WellPlaced, RemoveFrom, OperandsExist;
    DetachPlaced(body, i);
    var d := Detach(body, i);
    assert forall j :: Attached(d, j) <==> Attached(body, j) && j != i;
    assert forall j :: j in body.insts ==> d.insts[j].kind == body.insts[j].kind;
    hide Detach;
  }

  lemma EraseRegistry(body: Body, i: InstId)
    requires WellPlaced(body) && i in body.insts
    ensures Registry(Erase(body, i)) == Registry(Detach(body, i))
    ensures BlockRegistry(Erase(body, i)) == BlockRegistry(Detach(body, i))
  {
    hide ValueOperands, BlockOperands, Registry, BlockRegistry, WellPlaced, RemoveFrom;
    DetachPlaced(body, i);
    SameRegistries(Detach(body, i), Erase(body, i));
  }

  lemma ReplaceRegistry(body: Body, i: InstId, slot: OperandSlot, v: ValueId)
    requires Attached(body, i) && slot in ValueOperands(body.insts[i].kind)
    ensures var body' := WithKind(body, i, ReplaceOperand(body.insts[i].kind, slot, v));
      Registry(body') == Registry(body)[Use(i, slot) := v] && BlockRegistry(body') == BlockRegistry(body)
  {
    hide ValueOperands, BlockOperands, ReplaceOperand, Skeleton;
    ReplaceOperandExact(body.insts[i].kind, slot, v);
    var body' := WithKind(body, i, ReplaceOperand(body.insts[i].kind, slot, v));
    assert forall j :: Attached(body', j) <==> Attached(body, j);
    assert Registry(body') == Registry(body)[Use(i, slot) := v];
  }

  lemma ReplaceBlockRegistry(body: Body, i: InstId, slot: BlockOperandSlot, b: BlockId)
    requires Attached(body, i) && slot in BlockOperands(body.insts[i].kind)
    ensures var body' := WithKind(body, i, ReplaceBlockOperand(body.insts[i].kind, slot, b));
      BlockRegistry(body') == BlockRegistry(body)[Use(i, slot) := b] && Registry(body') == Registry(body)
  {
    hide ValueOperands, BlockOperands, ReplaceBlockOperand, Skeleton;
    ReplaceBlockOperandExact(body.insts[i].kind, slot, b);
    var body' := WithKind(body, i, ReplaceBlockOperand(body.insts[i].kind, slot, b));
    assert forall j :: Attached(body', j) <==> Attached(body, j);
    assert BlockRegistry(body') == BlockRegistry(body)[Use(i, slot) := b];
  }

  lemma SkeletonRole(a: InstKind, b: InstKind)
    requires Skeleton(a) == Skeleton(b)
    ensures SameRole(a, b)
  {
  }

  // ---------------------------------------------------------------- one edit at a time

  lemma AttachConsistent(body: Body, vu: ValueUses, bu: BlockUses, b: BlockId, blk: BlockData, i: InstId,
                         vu': ValueUses, bu': BlockUses)
    requires Consistent(body, vu, bu) && b in body.blocks && i in body.insts && body.insts[i].parent.None?
    requires OperandsExist(body, i)
    requires Joins(body.blocks[b], blk, body.insts[i].kind, i)
    requires vu'.Keys == vu.Keys && Exact(vu', Enlist(Registry(body), i, ValueOperands(body.insts[i].kind)))
    requires bu'.Keys == bu.Keys && Exact(bu', Enlist(BlockRegistry(body), i, BlockOperands(body.insts[i].kind)))
    ensures Consistent(Attach(body, b, blk, i), vu', bu')
  {
    hide WellPlaced, Registry, BlockRegistry, Exact, Enlist, Forget, Joins, OperandsExist, ValueOperands, BlockOperands,
      RemoveFrom, InsertAt;
    AttachPlaced(body, b, blk, i);
    AttachRegistry(body, b, blk, i);
    assert forall v :: Knows(Attach(body, b, blk, i), v) <==> Knows(body, v);
  }

  lemma DetachConsistent(body: Body, vu: ValueUses, bu: BlockUses, i: InstId, vu': ValueUses, bu': BlockUses)
    requires Consistent(body, vu, bu) && i in body.insts
    requires vu'.Keys == vu.Keys && Exact(vu', Forget(Registry(body), i))
    requires bu'.Keys == bu.Keys && Exact(bu', Forget(BlockRegistry(body), i))
    ensures Consistent(Detach(body, i), vu', bu')
  {
    hide WellPlaced, Registry, BlockRegistry, Exact, Enlist, Forget, Joins, OperandsExist, ValueOperands, BlockOperands,
      RemoveFrom, InsertAt;
    DetachPlaced(body, i);
    DetachRegistry(body, i);
    assert forall v :: Knows(Detach(body, i), v) <==> Knows(body, v);
  }

  lemma NoUsesNoReferences(body: Body, vu: ValueUses, v: ValueId)
    requires Exact(vu, Registry(body)) && v in vu && vu[v] == []
    ensures forall u :: u in Registry(body) ==> Registry(body)[u] != v
  {
    hide Registry;
    assert forall u :: u in Registry(body) ==> Registry(body)[u] != v || u in vu[v];
  }

  lemma DetachedHasNoUses(body: Body, vu: ValueUses, i: InstId, vu': ValueUses)
    requires WellPlaced(body) && i in body.insts && InstValue(i) in vu && vu[InstValue(i)] == [] && InstValue(i) in vu'
    requires Exact(vu, Registry(body)) && Exact(vu', Registry(Detach(body, i)))
    ensures vu'[InstValue(i)] == []
  {
    hide WellPlaced, Registry;
    DetachRegistry(body, i);
    NoUsesNoReferences(body, vu, InstValue(i));
    assert forall u :: u in Registry(Detach(body, i)) ==> Registry(Detach(body, i))[u] != InstValue(i);
    ExactNone(vu', Registry(Detach(body, i)), InstValue(i));
  }

  lemma EraseConsistent(body: Body, vu: ValueUses, bu: BlockUses, i: InstId, vu': ValueUses, bu': BlockUses)
    requires Consistent(body, vu, bu) && i in body.insts && vu[InstValue(i)] == []
    requires Consistent(Detach(body, i), vu', bu')
    ensures vu'[InstValue(i)] == []
    ensures Consistent(Erase(body, i), vu' - {InstValue(i)}, bu')
  {
    hide WellPlaced, Registry, BlockRegistry, Enlist, Forget, OperandsExist, ValueOperands, BlockOperands, RemoveFrom;
    assert Knows(Detach(body, i), InstValue(i));
    var d, e := Detach(body, i), Erase(body, i);
    NoUsesNoReferences(body, vu, InstValue(i));
    ErasePlaced(body, i);
    EraseRegistry(body, i);
    DetachedHasNoUses(body, vu, i, vu');
    ExactLoseKey(vu', Registry(d), InstValue(i));
    hide Exact;
    assert forall v :: Knows(e, v) <==> Knows(d, v) && v != InstValue(i);
  }

  lemma RegistryLookup(body: Body, i: InstId, slot: OperandSlot)
    requires Attached(body, i) && slot in ValueOperands(body.insts[i].kind)
    ensures Use(i, slot) in Registry(body) && Registry(body)[Use(i, slot)] == ValueOperands(body.insts[i].kind)[slot]
  {
  }

  lemma BlockRegistryLookup(body: Body, i: InstId, slot: BlockOperandSlot)
    requires Attached(body, i) && slot in BlockOperands(body.insts[i].kind)
    ensures Use(i, slot) in BlockRegistry(body)
    ensures BlockRegistry(body)[Use(i, slot)] == BlockOperands(body.insts[i].kind)[slot]
  {
  }

  lemma ReplacedOperandsExist(body: Body, i: InstId, kind': InstKind, slot: OperandSlot, v: ValueId)
    requires WellPlaced(body) && Attached(body, i) && Knows(body, v) && slot in ValueOperands(body.insts[i].kind)
    requires ValueOperands(kind') == ValueOperands(body.insts[i].kind)[slot := v]
    requires BlockOperands(kind') == BlockOperands(body.insts[i].kind)
    ensures OperandsExist(WithKind(body, i, kind'), i)
  {
    hide ValueOperands, BlockOperands;
    assert WellHeld(body, i);
    assert forall w :: Knows(WithKind(body, i, kind'), w) <==> Knows(body, w);
    hide WellPlaced, Knows;
  }

  lemma ReplacedBlocksExist(body: Body, i: InstId, kind': InstKind, slot: BlockOperandSlot, b: BlockId)
    requires WellPlaced(body) && Attached(body, i) && b in body.blocks && slot in BlockOperands(body.insts[i].kind)
    requires ValueOperands(kind') == ValueOperands(body.insts[i].kind)
    requires BlockOperands(kind') == BlockOperands(body.insts[i].kind)[slot := b]
    ensures OperandsExist(WithKind(body, i, kind'), i)
  {
    hide ValueOperands, BlockOperands;
    assert WellHeld(body, i);
    assert forall w :: Knows(WithKind(body, i, kind'), w) <==> Knows(body, w);
    hide WellPlaced, Knows;
  }

  lemma ReplaceConsistent(body: Body, vu: ValueUses, bu: BlockUses, i: InstId, slot: OperandSlot, v: ValueId)
    requires Consistent(body, vu, bu) && Attached(body, i) && slot in ValueOperands(body.insts[i].kind)
    requires Knows(body, v)
    ensures var old_ := ValueOperands(body.insts[i].kind)[slot];
      && old_ in vu && v in vu
      && var vu1 := vu[old_ := Without(vu[old_], Use(i, slot))];
      Consistent(WithKind(body, i, ReplaceOperand(body.insts[i].kind, slot, v)), vu1[v := vu1[v] + [Use(i, slot)]], bu)
  {
    hide WellPlaced, Registry, BlockRegistry, Exact, OperandsExist, ValueOperands, BlockOperands, ReplaceOperand,
      Skeleton, SameRole, Without;
    var kind := body.insts[i].kind;
    var kind' := ReplaceOperand(kind, slot, v);
    RegistryLookup(body, i, slot);
    ReplaceRegistry(body, i, slot, v);
    ReplaceOperandExact(kind, slot, v);
    SkeletonRole(kind, kind');
    ExactMove(vu, Registry(body), Use(i, slot), v);
    assert forall w :: Knows(WithKind(body, i, kind'), w) <==> Knows(body, w);
    ReplacedOperandsExist(body, i, kind', slot, v);
    WithKindPlaced(body, i, kind');
  }

  lemma ReplaceBlockConsistent(body: Body, vu: ValueUses, bu: BlockUses, i: InstId, slot: BlockOperandSlot, b: BlockId)
    requires Consistent(body, vu, bu) && Attached(body, i) && slot in BlockOperands(body.insts[i].kind)
    requires b in body.blocks
    ensures var old_ := BlockOperands(body.insts[i].kind)[slot];
      && old_ in bu
      && var bu1 := bu[old_ := Without(bu[old_], Use(i, slot))];
      Consistent(WithKind(body, i, ReplaceBlockOperand(body.insts[i].kind, slot, b)), vu,
        bu1[b := bu1[b] + [Use(i, slot)]])
  {
    hide WellPlaced, Registry, BlockRegistry, Exact, OperandsExist, ValueOperands, BlockOperands, ReplaceBlockOperand,
      Skeleton, SameRole, Without;
    var kind := body.insts[i].kind;
    var kind' := ReplaceBlockOperand(kind, slot, b);
    BlockRegistryLookup(body, i, slot);
    ReplaceBlockRegistry(body, i, slot, b);
    ReplaceBlockOperandExact(kind, slot, b);
    SkeletonRole(kind, kind');
    ExactMove(bu, BlockRegistry(body), Use(i, slot), b);
    assert forall w :: Knows(WithKind(body, i, kind'), w) <==> Knows(body, w);
    ReplacedBlocksExist(body, i, kind', slot, b);
    WithKindPlaced(body, i, kind');
  }

  // ---------------------------------------------------------------- what one call undoes

  /** Taking x out again after inserting it into a list without it. */
  lemma InsertRemoved(s: seq<InstId>, k: nat, x: InstId)
    requires Distinct(s) && x !in s && k <= |s|
    ensures Without(InsertAt(s, k, x), x) == s
  {
    var r := InsertAt(s, k, x);
    InsertAtExact(s, k, x);
    hide Without;
    RemoveAt(r, k);
    assert r[..k] == s[..k] && r[k + 1..] == s[k..];
  }

  /** Detaching an instruction undoes attaching it, wherever its block took it in. */
  lemma DetachUndoesAttach(body: Body, b: BlockId, blk: BlockData, i: InstId)
    requires WellPlaced(body) && b in body.blocks && i in body.insts && body.insts[i].parent.None?
    requires Joins(body.blocks[b], blk, body.insts[i].kind, i)
    ensures Detach(Attach(body, b, blk, i), i) == body
  {
    hide InsertAt, Without, WellHeld, Lists;
    NowhereListed(body, i);
    var was := body.blocks[b];
    assert Distinct(was.phis) && Distinct(was.insts);
    assert RemoveFrom(blk, i) == was by {
      WithoutAbsent(was.phis, i);
      WithoutAbsent(was.insts, i);
      if body.insts[i].kind.Phi? {
        var k: nat :| k <= |was.phis| && blk == InsertPhi(was, k, i);
        InsertRemoved(was.phis, k, i);
      } else if !IsTerminator(body.insts[i].kind) {
        var k: nat :| k <= |was.insts| && blk == InsertInst(was, k, i);
        InsertRemoved(was.insts, k, i);
      }
    }
    hide RemoveFrom, Joins, WellPlaced;
    var after := Detach(Attach(body, b, blk, i), i);
    assert after.blocks == body.blocks;
    assert after.insts == body.insts;
  }
}
