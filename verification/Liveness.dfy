/** The backward liveness fixpoint over machine blocks (src/mir.rs:596-718,
    src/mir/lower.rs:2358-2402). */
module Liveness {
  import opened Sequences
  import opened Machine
  import MachineCleanup

  type RegSets = map<BlockId, set<Register>>
  type Succs = map<BlockId, set<BlockId>>

  function Get<K, V>(m: map<K, set<V>>, k: K): set<V> {
    if k in m then m[k] else {}
  }

  // ---------------------------------------------------------------- block summaries

  /** Registers used in the block before any definition of them, reading front to back. */
  function BlockUses(insts: seq<Inst>): set<Register> {
    if insts == [] then {}
    else
      var n := |insts| - 1;
      BlockUses(insts[..n]) + (Elements(UseRegs(insts[n])) - BlockDefs(insts[..n]))
  }

  function BlockDefs(insts: seq<Inst>): set<Register> {
    if insts == [] then {}
    else BlockDefs(insts[..|insts| - 1]) + Elements(DefRegs(insts[|insts| - 1]))
  }

  ghost predicate UsedBeforeDefined(insts: seq<Inst>, r: Register, i: nat) {
    i < |insts| && r in UseRegs(insts[i]) && forall j :: 0 <= j < i ==> r !in DefRegs(insts[j])
  }

  lemma {:induction false} BlockDefsExact(insts: seq<Inst>, r: Register)
    ensures r in BlockDefs(insts) <==> exists i :: 0 <= i < |insts| && r in DefRegs(insts[i])
  {
    hide DefRegs;
    if insts != [] {
      var n := |insts| - 1;
      var init := insts[..n];
      BlockDefsExact(init, r);
      if r in BlockDefs(init) {
        var i :| 0 <= i < |init| && r in DefRegs(init[i]);
        assert insts[i] == init[i];
      }
      if i :| 0 <= i < |insts| && r in DefRegs(insts[i]) {
        if i < n {
          assert init[i] == insts[i];
        }
      }
    }
  }

  /** The block summary is exact: r is upward exposed iff some instruction uses it and no
      earlier one defines it. */
  lemma {:induction false} BlockUsesExact(insts: seq<Inst>, r: Register)
    ensures r in BlockUses(insts) <==> exists i: nat :: UsedBeforeDefined(insts, r, i)
  {
    hide UseRegs, DefRegs;
    if insts != [] {
      var n := |insts| - 1;
      var init := insts[..n];
      BlockUsesExact(init, r);
      BlockDefsExact(init, r);
      if i: nat :| UsedBeforeDefined(init, r, i) {
        assert UsedBeforeDefined(insts, r, i);
      }
      if r in UseRegs(insts[n]) && r !in BlockDefs(init) {
        assert UsedBeforeDefined(insts, r, n);
      }
      if i: nat :| UsedBeforeDefined(insts, r, i) {
        if i < n {
          assert UsedBeforeDefined(init, r, i);
        }
      }
    }
  }

  // ---------------------------------------------------------------- backward through a block

  function LiveBefore(insts: seq<Inst>, out: set<Register>): set<Register> {
    if insts == [] then out
    else Elements(UseRegs(insts[0])) + (LiveBefore(insts[1..], out) - Elements(DefRegs(insts[0])))
  }

  lemma LiveBeforeFrom(insts: seq<Inst>, k: nat, out: set<Register>)
    requires k < |insts|
    ensures LiveBefore(insts[k..], out)
            == Elements(UseRegs(insts[k])) + (LiveBefore(insts[k + 1..], out) - Elements(DefRegs(insts[k])))
  {
    assert insts[k..][1..] == insts[k + 1..];
  }

  lemma {:induction false} LiveBeforeLast(insts: seq<Inst>, inst: Inst, out: set<Register>)
    ensures LiveBefore(insts + [inst], out)
            == LiveBefore(insts, Elements(UseRegs(inst)) + (out - Elements(DefRegs(inst))))
  {
    if insts == [] {
      assert (insts + [inst])[1..] == [];
    } else {
      assert (insts + [inst])[1..] == insts[1..] + [inst];
      LiveBeforeLast(insts[1..], inst, out);
    }
  }

  /** Folding the instructions of a block backwards lands exactly on the transfer function the
      block summaries give. */
  lemma {:induction false} BackwardFoldIsTransfer(insts: seq<Inst>, out: set<Register>)
    ensures LiveBefore(insts, out) == BlockUses(insts) + (out - BlockDefs(insts))
  {
    if insts != [] {
      var n := |insts| - 1;
      assert insts == insts[..n] + [insts[n]];
      LiveBeforeLast(insts[..n], insts[n], out);
      BackwardFoldIsTransfer(insts[..n], Elements(UseRegs(insts[n])) + (out - Elements(DefRegs(insts[n]))));
    }
  }

  // ---------------------------------------------------------------- paths

  /** A path of blocks from b whose last block uses r, with no earlier block defining r. */
  ghost predicate LivePath(uses: RegSets, defs: RegSets, succs: Succs, r: Register, path: seq<BlockId>) {
    && |path| > 0
    && (forall i :: 0 <= i < |path| - 1 ==> path[i + 1] in Get(succs, path[i]) && r !in Get(defs, path[i]))
    && r in Get(uses, path[|path| - 1])
  }

  ghost predicate LiveAt(uses: RegSets, defs: RegSets, succs: Succs, r: Register, b: BlockId) {
    exists path :: LivePath(uses, defs, succs, r, path) && path[0] == b
  }

  lemma LiveHere(uses: RegSets, defs: RegSets, succs: Succs, r: Register, b: BlockId)
    requires r in Get(uses, b)
    ensures LiveAt(uses, defs, succs, r, b)
  {
    assert LivePath(uses, defs, succs, r, [b]);
  }

  lemma LiveThrough(uses: RegSets, defs: RegSets, succs: Succs, r: Register, b: BlockId, c: BlockId)
    requires LiveAt(uses, defs, succs, r, c) && c in Get(succs, b) && r !in Get(defs, b)
    ensures LiveAt(uses, defs, succs, r, b)
  {
    var path :| LivePath(uses, defs, succs, r, path) && path[0] == c;
    assert LivePath(uses, defs, succs, r, [b] + path);
  }

  // ---------------------------------------------------------------- the dataflow equations

  function JoinSuccs(liveIn: RegSets, succs: set<BlockId>): set<Register> {
    set b, r | b in succs && r in Get(liveIn, b) :: r
  }

  function Transfer(uses: RegSets, defs: RegSets, b: BlockId, out: set<Register>): set<Register> {
    Get(uses, b) + (out - Get(defs, b))
  }

  ghost predicate Solves(blocks: seq<BlockId>, uses: RegSets, defs: RegSets, succs: Succs, liveIn: RegSets,
                         liveOut: RegSets) {
    forall b :: b in blocks ==>
      && Get(liveOut, b) == JoinSuccs(liveIn, Get(succs, b))
      && Get(liveIn, b) == Transfer(uses, defs, b, Get(liveOut, b))
  }

  /** A set of live-in facts closed under the equations contains every path-live register. */
  lemma {:induction false} ClosedContainsPaths(blocks: seq<BlockId>, uses: RegSets, defs: RegSets, succs: Succs,
                                               liveIn: RegSets, r: Register, path: seq<BlockId>)
    requires uses.Keys <= Elements(blocks) && succs.Keys <= Elements(blocks)
    requires forall b :: b in blocks ==> Transfer(uses, defs, b, JoinSuccs(liveIn, Get(succs, b))) <= Get(liveIn, b)
    requires LivePath(uses, defs, succs, r, path)
    ensures r in Get(liveIn, path[0])
    decreases |path|
  {
    if |path| > 1 {
      assert forall i :: 0 <= i < |path| - 1 ==> path[1..][i] == path[i + 1];
      ClosedContainsPaths(blocks, uses, defs, succs, liveIn, r, path[1..]);
      assert r in JoinSuccs(liveIn, Get(succs, path[0]));
    }
  }

  // ---------------------------------------------------------------- the control-flow graph

  /** Successors named by the run of terminators at the end of a block. */
  function TrailingSuccs(insts: seq<Inst>): set<BlockId> {
    if insts == [] || !IsTerminator(insts[|insts| - 1]) then {}
    else TrailingSuccs(insts[..|insts| - 1]) + Elements(Successors(insts[|insts| - 1]))
  }

  function BlockIds(blocks: seq<MachineBlock>): (ids: seq<BlockId>)
    ensures |ids| == |blocks| && forall i :: 0 <= i < |ids| ==> ids[i] == blocks[i].id
  {
    seq(|blocks|, i requires 0 <= i < |blocks| => blocks[i].id)
  }

  ghost predicate IsCfg(blocks: seq<MachineBlock>, succs: Succs) {
    && succs.Keys == Elements(BlockIds(blocks))
    && (forall i :: 0 <= i < |blocks| ==> succs[blocks[i].id] == TrailingSuccs(blocks[i].insts))
  }

  /** The targets of a block's trailing terminators. */
  method TrailingTargets(insts: seq<Inst>) returns (targets: set<BlockId>)
    ensures targets == TrailingSuccs(insts)
  {
    targets := {};
    var k := |insts|;
    assert insts[..k] == insts;
    while k > 0 && IsTerminator(insts[k - 1])
      invariant 0 <= k <= |insts|
      invariant targets + TrailingSuccs(insts[..k]) == TrailingSuccs(insts)
    {
      assert insts[..k][..k - 1] == insts[..k - 1];
      targets := targets + Elements(Successors(insts[k - 1]));
      k := k - 1;
    }
    assert TrailingSuccs(insts[..k]) == {};
  }

  lemma CfgNothing()
    ensures IsCfg([], map[])
  {
  }

  lemma CfgMore(blocks: seq<MachineBlock>, n: nat, succs: Succs)
    requires n < |blocks| && MachineCleanup.DistinctIds(blocks) && IsCfg(blocks[..n], succs)
    ensures IsCfg(blocks[..n + 1], succs[blocks[n].id := TrailingSuccs(blocks[n].insts)])
  {
    hide TrailingSuccs;
    IdsMore(blocks, n);
    assert forall i :: 0 <= i < n ==> blocks[..n][i] == blocks[i] && blocks[..n + 1][i] == blocks[i];
    assert forall i :: 0 <= i < n ==> blocks[i].id in Elements(BlockIds(blocks[..n]));
    hide Elements, BlockIds;
  }

  lemma IdsMore(blocks: seq<MachineBlock>, n: nat)
    requires n < |blocks|
    ensures Elements(BlockIds(blocks[..n + 1])) == Elements(BlockIds(blocks[..n])) + {blocks[n].id}
    ensures forall i :: 0 <= i < n ==> blocks[..n][i].id in Elements(BlockIds(blocks[..n]))
  {
    assert BlockIds(blocks[..n + 1]) == BlockIds(blocks[..n]) + [blocks[n].id];
    assert forall i :: 0 <= i < n ==> BlockIds(blocks[..n])[i] == blocks[..n][i].id;
  }

  method ComputeCfg(fn: MachineFunction) returns (succs: Succs)
    requires MachineCleanup.DistinctIds(fn.blocks)
    ensures IsCfg(fn.blocks, succs)
  {
    hide IsCfg, MachineCleanup.DistinctIds;
    succs := map[];
    var n := 0;
    CfgNothing();
    assert fn.blocks[..0] == [];
    while n < |fn.blocks|
      invariant 0 <= n <= |fn.blocks| && IsCfg(fn.blocks[..n], succs)
    {
      var targets := TrailingTargets(fn.blocks[n].insts);
      CfgMore(fn.blocks, n, succs);
      succs := succs[fn.blocks[n].id := targets];
      n := n + 1;
    }
    assert fn.blocks[..n] == fn.blocks;
  }

  /** The uses before any definition, and the definitions, of one block. */
  method UsesAndDefs(insts: seq<Inst>) returns (u: set<Register>, d: set<Register>)
    ensures u == BlockUses(insts) && d == BlockDefs(insts)
  {
    hide Elements;
    u, d := {}, {};
    var k := 0;
    while k < |insts|
      invariant 0 <= k <= |insts| && u == BlockUses(insts[..k]) && d == BlockDefs(insts[..k])
    {
      assert insts[..k + 1][..k] == insts[..k];
      u := u + (Elements(UseRegs(insts[k])) - d);
      d := d + Elements(DefRegs(insts[k]));
      k := k + 1;
    }
    assert insts[..k] == insts;
  }

  ghost predicate SummaryOf(blocks: seq<MachineBlock>, uses: RegSets, defs: RegSets) {
    && uses.Keys == defs.Keys == Elements(BlockIds(blocks))
    && (forall i :: 0 <= i < |blocks| ==>
          uses[blocks[i].id] == BlockUses(blocks[i].insts) && defs[blocks[i].id] == BlockDefs(blocks[i].insts))
  }

  lemma SummaryNothing()
    ensures SummaryOf([], map[], map[])
  {
  }

  lemma SummaryMore(blocks: seq<MachineBlock>, n: nat, uses: RegSets, defs: RegSets)
    requires n < |blocks| && MachineCleanup.DistinctIds(blocks) && SummaryOf(blocks[..n], uses, defs)
    ensures SummaryOf(blocks[..n + 1], uses[blocks[n].id := BlockUses(blocks[n].insts)],
      defs[blocks[n].id := BlockDefs(blocks[n].insts)])
  {
    hide BlockUses, BlockDefs;
    IdsMore(blocks, n);
    assert forall i :: 0 <= i < n ==> blocks[..n][i] == blocks[i] && blocks[..n + 1][i] == blocks[i];
    hide Elements, BlockIds;
  }

  // ---------------------------------------------------------------- the analysis

  class LivenessInfo {
    var uses: RegSets
    var defs: RegSets
    var liveIn: RegSets
    var liveOut: RegSets
    var liveAfter: map<(BlockId, nat), set<Register>>

    constructor (blocks: seq<MachineBlock>)
      requires MachineCleanup.DistinctIds(blocks)
      ensures Summarises(blocks)
      ensures liveIn == map[] && liveOut == map[] && liveAfter == map[]
    {
      hide SummaryOf, MachineCleanup.DistinctIds;
      uses, defs, liveIn, liveOut, liveAfter := map[], map[], map[], map[], map[];
      new;
      var n := 0;
      SummaryNothing();
      assert blocks[..0] == [];
      while n < |blocks|
        invariant 0 <= n <= |blocks|
        invariant liveIn == map[] && liveOut == map[] && liveAfter == map[]
        invariant SummaryOf(blocks[..n], uses, defs)
      {
        var u, d := UsesAndDefs(blocks[n].insts);
        SummaryMore(blocks, n, uses, defs);
        uses, defs := uses[blocks[n].id := u], defs[blocks[n].id := d];
        n := n + 1;
      }
      assert blocks[..n] == blocks;
    }

    ghost predicate Summarises(blocks: seq<MachineBlock>)
      reads this
    {
      SummaryOf(blocks, uses, defs)
    }

    ghost predicate Justified(succs: Succs)
      reads this
    {
      JustifiedBy(uses, defs, succs, liveIn, liveOut)
    }

    method UpdateLiveIn(b: BlockId) returns (changed: bool)
      modifies this`liveIn
      ensures Get(liveIn, b) == Transfer(uses, defs, b, Get(liveOut, b))
      ensures forall c :: c != b ==> Get(liveIn, c) == Get(old(liveIn), c)
      ensures changed <==> Get(liveIn, b) != Get(old(liveIn), b)
    {
      var newLiveIn := Get(uses, b) + (Get(liveOut, b) - Get(defs, b));
      changed := newLiveIn != Get(liveIn, b);
      liveIn := liveIn[b := newLiveIn];
    }

    method UpdateLiveOut(b: BlockId, succs: set<BlockId>) returns (changed: bool)
      modifies this`liveOut
      ensures Get(liveOut, b) == JoinSuccs(liveIn, succs)
      ensures forall c :: c != b ==> Get(liveOut, c) == Get(old(liveOut), c)
      ensures changed <==> Get(liveOut, b) != Get(old(liveOut), b)
    {
      var newLiveOut: set<Register> := {};
      var rest := succs;
      while rest != {}
        invariant rest <= succs
        invariant newLiveOut == JoinSuccs(liveIn, succs - rest)
        decreases rest
      {
        var s :| s in rest;
        newLiveOut := newLiveOut + Get(liveIn, s);
        assert succs - (rest - {s}) == (succs - rest) + {s};
        rest := rest - {s};
      }
      assert succs - rest == succs;
      changed := newLiveOut != Get(liveOut, b);
      liveOut := liveOut[b := newLiveOut];
    }

    /** What is recorded after each instruction is the live-out of its block pulled back over the
        instructions that follow. */
    ghost predicate LiveAfterExact(blocks: seq<MachineBlock>)
      reads this
    {
      forall n: nat :: n < |blocks| ==> LiveAfterFrom(blocks[n], 0)
    }

    /** From instruction k on, what is live after each is recorded. */
    ghost predicate LiveAfterFrom(block: MachineBlock, k: nat)
      reads this
    {
      forall i: nat :: k <= i < |block.insts| ==>
        && (block.id, i) in liveAfter
        && liveAfter[(block.id, i)] == LiveBefore(block.insts[i + 1..], Get(liveOut, block.id))
    }

    method ComputeLiveAfter(fn: MachineFunction)
      requires MachineCleanup.DistinctIds(fn.blocks)
      modifies this`liveAfter
      ensures LiveAfterExact(fn.blocks)
    {
      var n := 0;
      while n < |fn.blocks|
        invariant 0 <= n <= |fn.blocks|
        invariant forall m: nat :: m < n ==> LiveAfterFrom(fn.blocks[m], 0)
      {
        var block := fn.blocks[n];
        var live := Get(liveOut, block.id);
        var k := |block.insts|;
        while k > 0
          invariant 0 <= k <= |block.insts|
          invariant live == LiveBefore(block.insts[k..], Get(liveOut, block.id))
          invariant (forall m: nat :: m < n ==> LiveAfterFrom(fn.blocks[m], 0)) && LiveAfterFrom(block, k)
        {
          hide LiveBefore, UseRegs, DefRegs, Elements, Get;
          LiveBeforeFrom(block.insts, k - 1, Get(liveOut, block.id));
          liveAfter := liveAfter[(block.id, k - 1) := live];
          live := Elements(UseRegs(block.insts[k - 1])) + (live - Elements(DefRegs(block.insts[k - 1])));
          k := k - 1;
        }
        n := n + 1;
      }
    }
  }

  /** Every recorded fact has a path behind it, and no fact exceeds what the equations derive. */
  ghost predicate JustifiedBy(uses: RegSets, defs: RegSets, succs: Succs, liveIn: RegSets, liveOut: RegSets) {
    && (forall b, r :: r in Get(liveIn, b) ==> LiveAt(uses, defs, succs, r, b))
    && (forall b :: Get(liveIn, b) <= Transfer(uses, defs, b, Get(liveOut, b)))
    && (forall b :: Get(liveOut, b) <= JoinSuccs(liveIn, Get(succs, b)))
  }

  /** Facts not recorded yet; the loop's progress measure. */
  ghost function Missing(blocks: seq<BlockId>, universe: set<Register>, liveIn: RegSets, liveOut: RegSets): set<(bool,
                         BlockId, Register)> {
    (set b, r | b in blocks && r in universe && r !in Get(liveIn, b) :: (true, b, r)) +
    (set b, r | b in blocks && r in universe && r !in Get(liveOut, b) :: (false, b, r))
  }

  ghost predicate Within(universe: set<Register>, sets: RegSets) {
    forall b :: Get(sets, b) <= universe
  }

  /** Raising one entry of the solution fills in missing facts. */
  lemma MissingShrinks(blocks: seq<BlockId>, universe: set<Register>, b: BlockId,
                       in0: RegSets, out0: RegSets, in1: RegSets, out1: RegSets)
    requires b in blocks && Within(universe, in1) && Within(universe, out1)
    requires forall c :: Get(in0, c) <= Get(in1, c) && Get(out0, c) <= Get(out1, c)
    ensures Missing(blocks, universe, in1, out1) <= Missing(blocks, universe, in0, out0)
    ensures Get(in1, b) != Get(in0, b) || Get(out1, b) != Get(out0, b) ==>
              Missing(blocks, universe, in1, out1) < Missing(blocks, universe, in0, out0)
  {
    if Get(in1, b) != Get(in0, b) {
      var r :| r in Get(in1, b) && r !in Get(in0, b);
      assert (true, b, r) in Missing(blocks, universe, in0, out0);
      assert (true, b, r) !in Missing(blocks, universe, in1, out1);
    }
    if Get(out1, b) != Get(out0, b) {
      var r :| r in Get(out1, b) && r !in Get(out0, b);
      assert (false, b, r) in Missing(blocks, universe, in0, out0);
      assert (false, b, r) !in Missing(blocks, universe, in1, out1);
    }
  }

  /** Recomputing one block's live-out keeps every fact justified and never loses one. */
  lemma LiveOutGrows(uses: RegSets, defs: RegSets, succs: Succs, liveIn: RegSets, was: RegSets, liveOut: RegSets,
                     b: BlockId)
    requires JustifiedBy(uses, defs, succs, liveIn, was)
    requires Get(liveOut, b) == JoinSuccs(liveIn, Get(succs, b))
    requires forall c :: c != b ==> Get(liveOut, c) == Get(was, c)
    ensures JustifiedBy(uses, defs, succs, liveIn, liveOut) && forall c :: Get(was, c) <= Get(liveOut, c)
  {
    assert forall c :: Get(was, c) <= Get(liveOut, c);
  }

  lemma NewlyLive(uses: RegSets, defs: RegSets, succs: Succs, was: RegSets, liveOut: RegSets, b: BlockId, r: Register)
    requires JustifiedBy(uses, defs, succs, was, liveOut) && r in Transfer(uses, defs, b, Get(liveOut, b))
    ensures LiveAt(uses, defs, succs, r, b)
  {
    hide LiveAt;
    if r in Get(uses, b) {
      LiveHere(uses, defs, succs, r, b);
    } else {
      assert r in JoinSuccs(was, Get(succs, b));
      var s :| s in Get(succs, b) && r in Get(was, s);
      LiveThrough(uses, defs, succs, r, b, s);
    }
  }

  lemma LiveInCovers(uses: RegSets, defs: RegSets, succs: Succs, was: RegSets, liveIn: RegSets, liveOut: RegSets,
                     b: BlockId)
    requires JustifiedBy(uses, defs, succs, was, liveOut)
    requires Get(liveIn, b) == Transfer(uses, defs, b, Get(liveOut, b))
    requires forall c :: c != b ==> Get(liveIn, c) == Get(was, c)
    ensures forall c :: Get(was, c) <= Get(liveIn, c) && Get(liveIn, c) <= Transfer(uses, defs, c, Get(liveOut, c))
  {
    hide LiveAt, Get, JoinSuccs, Transfer;
  }

  lemma JoinGrows(was: RegSets, liveIn: RegSets, succs: set<BlockId>)
    requires forall c :: Get(was, c) <= Get(liveIn, c)
    ensures JoinSuccs(was, succs) <= JoinSuccs(liveIn, succs)
  {
    hide Get;
  }

  /** Likewise for its live-in. */
  lemma LiveInGrows(uses: RegSets, defs: RegSets, succs: Succs, was: RegSets, liveIn: RegSets, liveOut: RegSets,
                    b: BlockId)
    requires JustifiedBy(uses, defs, succs, was, liveOut)
    requires Get(liveIn, b) == Transfer(uses, defs, b, Get(liveOut, b))
    requires forall c :: c != b ==> Get(liveIn, c) == Get(was, c)
    ensures JustifiedBy(uses, defs, succs, liveIn, liveOut) && forall c :: Get(was, c) <= Get(liveIn, c)
  {
    hide LiveAt, Get, JoinSuccs, Transfer;
    forall r | r in Get(liveIn, b) ensures LiveAt(uses, defs, succs, r, b) {
      NewlyLive(uses, defs, succs, was, liveOut, b, r);
    }
    LiveInCovers(uses, defs, succs, was, liveIn, liveOut, b);
    forall c ensures Get(liveOut, c) <= JoinSuccs(liveIn, Get(succs, c)) {
      JoinGrows(was, liveIn, Get(succs, c));
    }
  }

  /** One backward sweep over the blocks. */
  method Sweep(fn: MachineFunction, info: LivenessInfo, cfg: Succs, ghost universe: set<Register>)
    returns (changed: bool)
    requires MachineCleanup.DistinctIds(fn.blocks) && IsCfg(fn.blocks, cfg)
    requires Within(universe, info.uses) && Within(universe, info.liveIn) && Within(universe, info.liveOut)
    requires info.Justified(cfg)
    modifies info`liveIn, info`liveOut
    ensures info.Justified(cfg) && Within(universe, info.liveIn) && Within(universe, info.liveOut)
    ensures var ids := BlockIds(fn.blocks);
      var before, after := Missing(ids, universe, old(info.liveIn), old(info.liveOut)),
        Missing(ids, universe, info.liveIn, info.liveOut);
      if changed then after < before
      else after <= before && Solves(ids, info.uses, info.defs, cfg, info.liveIn, info.liveOut)
  {
    changed := false;
    ghost var ids := BlockIds(fn.blocks);
    ghost var uses, defs := info.uses, info.defs;
    var n := |fn.blocks|;
    while n > 0
      invariant 0 <= n <= |fn.blocks|
      invariant info.Justified(cfg) && Within(universe, info.liveIn) && Within(universe, info.liveOut)
      invariant Missing(ids, universe, info.liveIn, info.liveOut) <= Missing(ids, universe, old(info.liveIn),
        old(info.liveOut))
      invariant changed ==> Missing(ids, universe, info.liveIn, info.liveOut) < Missing(ids, universe, old(info.liveIn),
        old(info.liveOut))
      invariant !changed ==> Solves(ids[n..], uses, defs, cfg, info.liveIn, info.liveOut)
    {
      n := n - 1;
      var b := fn.blocks[n].id;
      assert ids[n] == b && b in ids && cfg[b] == Get(cfg, b);
      ghost var in1, out1 := info.liveIn, info.liveOut;
      hide Solves, LiveAt, Missing;
      var c1 := info.UpdateLiveOut(b, cfg[b]);
      LiveOutGrows(uses, defs, cfg, in1, out1, info.liveOut, b);
      OutWithin(universe, cfg, in1, info.liveOut);
      ghost var out2 := info.liveOut;
      var c2 := info.UpdateLiveIn(b);
      LiveInGrows(uses, defs, cfg, in1, info.liveIn, out2, b);
      InWithin(universe, uses, defs, info.liveIn, out2);
      MissingShrinks(ids, universe, b, in1, out1, info.liveIn, out2);
      hide JustifiedBy, Within;
      changed := changed || c1 || c2;
      if !changed {
        StillSolves(ids, n, uses, defs, cfg, in1, out1, info.liveIn, info.liveOut);
      }
    }
    assert ids[0..] == ids;
  }

  lemma OutWithin(universe: set<Register>, succs: Succs, liveIn: RegSets, liveOut: RegSets)
    requires Within(universe, liveIn) && forall b :: Get(liveOut, b) <= JoinSuccs(liveIn, Get(succs, b))
    ensures Within(universe, liveOut)
  {
    assert forall s: set<BlockId> :: JoinSuccs(liveIn, s) <= universe;
  }

  lemma InWithin(universe: set<Register>, uses: RegSets, defs: RegSets, liveIn: RegSets, liveOut: RegSets)
    requires Within(universe, uses) && Within(universe, liveOut)
    requires forall b :: Get(liveIn, b) <= Transfer(uses, defs, b, Get(liveOut, b))
    ensures Within(universe, liveIn)
  {
  }

  lemma StillSolves(ids: seq<BlockId>, n: nat, uses: RegSets, defs: RegSets, succs: Succs,
                    in0: RegSets, out0: RegSets, liveIn: RegSets, liveOut: RegSets)
    requires n < |ids|
    requires forall b :: Get(liveIn, b) == Get(in0, b) && Get(liveOut, b) == Get(out0, b)
    requires Solves(ids[n + 1..], uses, defs, succs, in0, out0)
    requires Get(liveOut, ids[n]) == JoinSuccs(in0, Get(succs, ids[n]))
    requires Get(liveIn, ids[n]) == Transfer(uses, defs, ids[n], Get(liveOut, ids[n]))
    ensures Solves(ids[n..], uses, defs, succs, liveIn, liveOut)
  {
    assert forall s: set<BlockId> :: JoinSuccs(liveIn, s) == JoinSuccs(in0, s);
    forall b | b in ids[n..]
      ensures Get(liveOut, b) == JoinSuccs(liveIn, Get(succs, b))
      ensures Get(liveIn, b) == Transfer(uses, defs, b, Get(liveOut, b))
    {
      if b != ids[n] {
        assert b in ids[n + 1..];
      }
    }
  }

  /** The analysis ends with the least solution of the equations: r is live into a block exactly
      when some path from the block uses r before defining it. */
  method LivenessAnalysis(fn: MachineFunction) returns (info: LivenessInfo, ghost succs: Succs)
    requires MachineCleanup.DistinctIds(fn.blocks)
    ensures fresh(info) && info.Summarises(fn.blocks) && IsCfg(fn.blocks, succs)
    ensures Solves(BlockIds(fn.blocks), info.uses, info.defs, succs, info.liveIn, info.liveOut)
    ensures forall b, r :: r in Get(info.liveIn, b) <==> LiveAt(info.uses, info.defs, succs, r, b)
    ensures info.LiveAfterExact(fn.blocks)
  {
    hide Missing, JustifiedBy, Solves, LiveAt, LiveBefore, Within, BlockIds, LivenessInfo.LiveAfterExact, IsCfg;
    info := new LivenessInfo(fn.blocks);
    var cfg := ComputeCfg(fn);
    succs := cfg;
    ghost var universe := NothingYetJustified(info, fn.blocks, cfg);
    Solve(fn, info, cfg, universe);
    LeastSolution(info, fn.blocks, cfg);
    info.ComputeLiveAfter(fn);
  }

  method Solve(fn: MachineFunction, info: LivenessInfo, cfg: Succs, ghost universe: set<Register>)
    requires MachineCleanup.DistinctIds(fn.blocks) && IsCfg(fn.blocks, cfg)
    requires Within(universe, info.uses) && Within(universe, info.liveIn) && Within(universe, info.liveOut)
    requires info.Justified(cfg)
    modifies info`liveIn, info`liveOut
    ensures info.Justified(cfg)
    ensures Solves(BlockIds(fn.blocks), info.uses, info.defs, cfg, info.liveIn, info.liveOut)
  {
    hide Missing, JustifiedBy, Solves, Within;
    ghost var ids := BlockIds(fn.blocks);
    var changed := true;
    while changed
      invariant info.Justified(cfg)
      invariant Within(universe, info.liveIn) && Within(universe, info.liveOut)
      invariant !changed ==> Solves(ids, info.uses, info.defs, cfg, info.liveIn, info.liveOut)
      decreases Missing(ids, universe, info.liveIn, info.liveOut), changed
    {
      changed := Sweep(fn, info, cfg, universe);
    }
  }

  lemma NothingYetJustified(info: LivenessInfo, blocks: seq<MachineBlock>, succs: Succs)
    returns (universe: set<Register>)
    requires info.Summarises(blocks) && info.liveIn == map[] && info.liveOut == map[]
    ensures info.Justified(succs)
    ensures Within(universe, info.uses) && Within(universe, info.liveIn) && Within(universe, info.liveOut)
  {
    universe := set b, r | b in info.uses && r in info.uses[b] :: r;
  }

  lemma LeastSolution(info: LivenessInfo, blocks: seq<MachineBlock>, succs: Succs)
    requires info.Summarises(blocks) && IsCfg(blocks, succs)
    requires info.Justified(succs) && Solves(BlockIds(blocks), info.uses, info.defs, succs, info.liveIn, info.liveOut)
    ensures forall b, r :: r in Get(info.liveIn, b) <==> LiveAt(info.uses, info.defs, succs, r, b)
  {
    forall b, r | LiveAt(info.uses, info.defs, succs, r, b) ensures r in Get(info.liveIn, b) {
      var path :| LivePath(info.uses, info.defs, succs, r, path) && path[0] == b;
      ClosedContainsPaths(BlockIds(blocks), info.uses, info.defs, succs, info.liveIn, r, path);
    }
  }

  // ---------------------------------------------------------------- what liveness is for

  /** Blocks as lowering leaves them: terminators only at the end, the last one unconditional. */
  ghost predicate Terminated(insts: seq<Inst>) {
    && insts != [] && (insts[|insts| - 1].Jal? || insts[|insts| - 1].Ret?)
    && (forall i, j :: 0 <= i < j < |insts| && IsTerminator(insts[i]) ==> IsTerminator(insts[j]))
    && (forall i :: 0 <= i < |insts| && insts[i].Jal? ==> insts[i].rd == ZERO)
  }

  /** Two machine states that differ at most in registers outside `live`. */
  ghost predicate Agree(s: State, t: State, live: set<Register>) {
    s.mem == t.mem && forall r :: r in live ==> Read(s.regs, r) == Read(t.regs, r)
  }

  lemma {:induction false} TerminatorsKeepLive(insts: seq<Inst>, out: set<Register>)
    requires forall i :: 0 <= i < |insts| ==> IsTerminator(insts[i]) && (insts[i].Jal? ==> insts[i].rd == ZERO)
    ensures out - {ZERO} <= LiveBefore(insts, out)
  {
    if insts != [] {
      TerminatorsKeepLive(insts[1..], out);
    }
  }

  lemma {:induction false} TrailingSuccsFromFront(insts: seq<Inst>)
    requires insts != []
    ensures TrailingSuccs(insts[1..]) <= TrailingSuccs(insts)
    ensures (forall i :: 0 <= i < |insts| ==> IsTerminator(insts[i])) ==>
      Elements(Successors(insts[0])) <= TrailingSuccs(insts)
  {
    var n := |insts| - 1;
    if n > 0 {
      assert insts[1..][..n - 1] == insts[..n][1..];
      TrailingSuccsFromFront(insts[..n]);
    }
  }

  lemma StepAgree(arch: Arch, X: Externals, inst: Inst, s: State, t: State, after: set<Register>)
    requires Agree(s, t, Elements(UseRegs(inst)) + (after - Elements(DefRegs(inst))))
    ensures Agree(Step(arch, X, inst, s), Step(arch, X, inst, t), after)
  {
    hide Step, UseRegs, DefRegs;
    assert forall r :: r in UseRegs(inst) ==> r in Elements(UseRegs(inst));
    UseDefSound(arch, X, inst, s, t);
    UseDefSound(arch, X, inst, t, t);
    var live := Elements(UseRegs(inst)) + (after - Elements(DefRegs(inst)));
    forall r | r in after ensures Read(Step(arch, X, inst, s).regs, r) == Read(Step(arch, X, inst, t).regs, r) {
      if r !in DefRegs(inst) {
        assert r in live;
      }
    }
  }

  lemma RunOrdinary(arch: Arch, X: Externals, insts: seq<Inst>, s: State)
    requires insts != [] && !IsTerminator(insts[0])
    ensures MachineCleanup.RunBlock(arch, X, insts, s)
      == MachineCleanup.RunBlock(arch, X, insts[1..], Step(arch, X, insts[0], s))
  {
    hide Step;
  }

  /** A terminator at the head of a block decides alike in agreeing states. */
  lemma RunTerminatorAgree(arch: Arch, X: Externals, insts: seq<Inst>, out: set<Register>, s: State, t: State)
    requires Terminated(insts) && IsTerminator(insts[0]) && Agree(s, t, LiveBefore(insts, out))
    ensures Agree(s, t, out) && Elements(Successors(insts[0])) <= TrailingSuccs(insts)
    ensures
      var (e, s') := MachineCleanup.RunBlock(arch, X, insts, s);
      var (e', t') := MachineCleanup.RunBlock(arch, X, insts, t);
      || (insts[0].Branch? && |insts| > 1
          && (e, s') == MachineCleanup.RunBlock(arch, X, insts[1..], s)
          && (e', t') == MachineCleanup.RunBlock(arch, X, insts[1..], t))
      || (e == e' && s' == s && t' == t && (e.Returns? ==> insts[0] == Ret)
        && (e.Goes? ==> e.dest in Successors(insts[0])) && !e.Falls?)
  {
    hide MachineCleanup.RunBlock, Step, BranchTaken, Pattern, TrailingSuccs, LiveBefore;
    var inst := insts[0];
    TerminatorsKeepLive(insts, out);
    TrailingSuccsFromFront(insts);
    HeadIsQuiet(arch, X, insts, out, s, t);
    MachineCleanup.RunHead(arch, X, insts, s);
    MachineCleanup.RunHead(arch, X, insts, t);
  }

  lemma LiveBeforeHead(insts: seq<Inst>, out: set<Register>)
    requires insts != []
    ensures forall r :: r in UseRegs(insts[0]) ==> r in LiveBefore(insts, out)
  {
    hide UseRegs, DefRegs;
  }

  lemma HeadIsQuiet(arch: Arch, X: Externals, insts: seq<Inst>, out: set<Register>, s: State, t: State)
    requires Terminated(insts) && IsTerminator(insts[0]) && Agree(s, t, LiveBefore(insts, out))
    ensures insts[0].Jal? ==> Step(arch, X, insts[0], s) == s && Step(arch, X, insts[0], t) == t
    ensures insts[0].Branch? ==>
      |insts| > 1 && Pattern(arch, s.regs, insts[0].rs1) == Pattern(arch, t.regs, insts[0].rs1)
    ensures insts[0].Branch? ==> Pattern(arch, s.regs, insts[0].rs2) == Pattern(arch, t.regs, insts[0].rs2)
  {
    hide Step;
    if insts[0].Jal? {
      MachineCleanup.JumpIsQuiet(arch, X, insts[0], s);
      MachineCleanup.JumpIsQuiet(arch, X, insts[0], t);
    }
    if insts[0].Branch? {
      assert insts[0].rs1 in UseRegs(insts[0]) && insts[0].rs2 in UseRegs(insts[0]);
      LiveBeforeHead(insts, out);
    }
  }

  lemma BranchDefinesNothing(inst: Inst)
    ensures inst.Branch? ==> DefRegs(inst) == []
  {
  }

  lemma TerminatedTail(insts: seq<Inst>)
    requires Terminated(insts)
    ensures !IsTerminator(insts[0]) ==> |insts| > 1
    ensures |insts| > 1 ==> Terminated(insts[1..])
  {
  }

  /** From states agreeing on what is live into a block, the block leaves the same way, in
      states agreeing on what is live out of it (or on what the caller sees, at a return). */
  lemma {:induction false} RunBlockAgree(arch: Arch, X: Externals, insts: seq<Inst>, out: set<Register>, s: State,
                                         t: State)
    requires Terminated(insts) && Agree(s, t, LiveBefore(insts, out))
    ensures SameExit(MachineCleanup.RunBlock(arch, X, insts, s), MachineCleanup.RunBlock(arch, X, insts, t), out,
      TrailingSuccs(insts))
    decreases |insts|
  {
    hide MachineCleanup.RunBlock, Step, IsTerminator, Successors, UseRegs, DefRegs;
    var rest := insts[1..];
    TrailingSuccsFromFront(insts);
    if IsTerminator(insts[0]) {
      RunTerminatorAgree(arch, X, insts, out, s, t);
      hide TrailingSuccs;
      LiveBeforeTail(insts, out);
      BranchDefinesNothing(insts[0]);
      if insts[0].Branch? && |insts| > 1 {
        TerminatedTail(insts);
        RunBlockAgree(arch, X, rest, out, s, t);
      }
    } else {
      TerminatedTail(insts);
      StepAgree(arch, X, insts[0], s, t, LiveBefore(rest, out));
      RunOrdinary(arch, X, insts, s);
      RunOrdinary(arch, X, insts, t);
      RunBlockAgree(arch, X, rest, out, Step(arch, X, insts[0], s), Step(arch, X, insts[0], t));
    }
  }

  ghost predicate SameExit(a: (MachineCleanup.Exit, State), b: (MachineCleanup.Exit, State), out: set<Register>,
                           succs: set<BlockId>) {
    && a.0 == b.0 && !a.0.Falls?
    && Agree(a.1, b.1, if a.0.Returns? then Elements(UseRegs(Ret)) else out)
    && (a.0.Goes? ==> a.0.dest in succs)
  }

  lemma LiveBeforeTail(insts: seq<Inst>, out: set<Register>)
    requires insts != []
    ensures DefRegs(insts[0]) == [] ==> LiveBefore(insts[1..], out) <= LiveBefore(insts, out)
  {
  }

  /** The blocks, their graph and a solution of the equations for them. */
  ghost predicate Analysed(blocks: seq<MachineBlock>, info: LivenessInfo, succs: Succs)
    reads info
  {
    && info.Summarises(blocks) && IsCfg(blocks, succs)
    && Solves(BlockIds(blocks), info.uses, info.defs, succs, info.liveIn, info.liveOut)
    && (forall k :: 0 <= k < |blocks| ==> Terminated(blocks[k].insts))
  }

  /** Block i leaves s and t the same way, agreeing on what is live where it goes. */
  ghost predicate Transits(arch: Arch, X: Externals, blocks: seq<MachineBlock>, liveIn: RegSets, i: nat, s: State,
                           t: State)
    requires i < |blocks|
  {
    var (e, s1) := MachineCleanup.RunBlock(arch, X, blocks[i].insts, s);
    var (e', t1) := MachineCleanup.RunBlock(arch, X, blocks[i].insts, t);
    && e == e' && s1.mem == t1.mem && !e.Falls?
    && (e.Returns? ==> Agree(s1, t1, Elements(UseRegs(Ret))))
    && (e.Goes? ==> Agree(s1, t1, Get(liveIn, e.dest)))
  }

  lemma TransitionAgree(arch: Arch, X: Externals, blocks: seq<MachineBlock>, info: LivenessInfo, succs: Succs, i: nat,
                        s: State, t: State)
    requires Analysed(blocks, info, succs) && i < |blocks|
    requires Agree(s, t, Get(info.liveIn, blocks[i].id))
    ensures Transits(arch, X, blocks, info.liveIn, i, s, t)
  {
    var b, insts := blocks[i].id, blocks[i].insts;
    var ids := BlockIds(blocks);
    assert ids[i] == b && b in ids;
    var out := Get(info.liveOut, b);
    BackwardFoldIsTransfer(insts, out);
    assert LiveBefore(insts, out) == Get(info.liveIn, b);
    assert TrailingSuccs(insts) == Get(succs, b);
    hide LiveBefore, BlockUses, BlockDefs, TrailingSuccs, MachineCleanup.RunBlock;
    RunBlockAgree(arch, X, insts, out, s, t);
    var e := MachineCleanup.RunBlock(arch, X, insts, s).0;
    if e.Goes? {
      assert Get(info.liveIn, e.dest) <= JoinSuccs(info.liveIn, Get(succs, b));
    }
  }

  lemma RunFromTransition(arch: Arch, X: Externals, blocks: seq<MachineBlock>, liveIn: RegSets, i: nat, s: State,
                          t: State, steps: nat)
    requires i < |blocks| && steps > 0 && Transits(arch, X, blocks, liveIn, i, s, t)
    requires forall j, s1, t1 :: 0 <= j < |blocks| && Agree(s1, t1, Get(liveIn, blocks[j].id)) ==>
               SameRun(blocks, liveIn, MachineCleanup.Run(arch, X, blocks, MachineCleanup.At(j), s1, steps - 1),
                       MachineCleanup.Run(arch, X, blocks, MachineCleanup.At(j), t1, steps - 1))
    ensures SameRun(blocks, liveIn, MachineCleanup.Run(arch, X, blocks, MachineCleanup.At(i), s, steps),
                    MachineCleanup.Run(arch, X, blocks, MachineCleanup.At(i), t, steps))
  {
    hide MachineCleanup.RunBlock, MachineCleanup.Run, MachineCleanup.Find;
    MachineCleanup.RunUnfold(arch, X, blocks, i, s, steps);
    MachineCleanup.RunUnfold(arch, X, blocks, i, t, steps);
    var (e, s1) := MachineCleanup.RunBlock(arch, X, blocks[i].insts, s);
    var (_, t1) := MachineCleanup.RunBlock(arch, X, blocks[i].insts, t);
    var next := MachineCleanup.Next(blocks, i, e);
    if e.Goes? {
      MachineCleanup.FindIsBlock(blocks, e.dest);
    }
    if !next.At? {
      MachineCleanup.RunStopped(arch, X, blocks, next, s1, steps - 1);
      MachineCleanup.RunStopped(arch, X, blocks, next, t1, steps - 1);
    }
  }

  lemma NoSteps(arch: Arch, X: Externals, blocks: seq<MachineBlock>, liveIn: RegSets, j: nat, s: State, t: State)
    requires j < |blocks| && Agree(s, t, Get(liveIn, blocks[j].id))
    ensures SameRun(blocks, liveIn, MachineCleanup.Run(arch, X, blocks, MachineCleanup.At(j), s, 0),
                    MachineCleanup.Run(arch, X, blocks, MachineCleanup.At(j), t, 0))
  {
  }

  lemma {:induction false} RunsFromTransitions(arch: Arch, X: Externals, blocks: seq<MachineBlock>, liveIn: RegSets,
                                               steps: nat)
    requires forall j, s1, t1 :: 0 <= j < |blocks| && Agree(s1, t1, Get(liveIn, blocks[j].id)) ==>
      Transits(arch, X, blocks, liveIn, j, s1, t1)
    ensures forall j, s1, t1 :: 0 <= j < |blocks| && Agree(s1, t1, Get(liveIn, blocks[j].id)) ==>
              SameRun(blocks, liveIn, MachineCleanup.Run(arch, X, blocks, MachineCleanup.At(j), s1, steps),
                      MachineCleanup.Run(arch, X, blocks, MachineCleanup.At(j), t1, steps))
  {
    hide Transits, SameRun, Agree, MachineCleanup.Run;
    if steps == 0 {
      forall j, s1, t1 | 0 <= j < |blocks| && Agree(s1, t1, Get(liveIn, blocks[j].id))
        ensures SameRun(blocks, liveIn, MachineCleanup.Run(arch, X, blocks, MachineCleanup.At(j), s1, steps),
                        MachineCleanup.Run(arch, X, blocks, MachineCleanup.At(j), t1, steps))
      {
        NoSteps(arch, X, blocks, liveIn, j, s1, t1);
      }
    } else {
      RunsFromTransitions(arch, X, blocks, liveIn, steps - 1);
      forall j, s1, t1 | 0 <= j < |blocks| && Agree(s1, t1, Get(liveIn, blocks[j].id))
        ensures SameRun(blocks, liveIn, MachineCleanup.Run(arch, X, blocks, MachineCleanup.At(j), s1, steps),
                        MachineCleanup.Run(arch, X, blocks, MachineCleanup.At(j), t1, steps))
      {
        RunFromTransition(arch, X, blocks, liveIn, j, s1, t1, steps);
      }
    }
  }

  /** The purpose of the analysis: two runs that start in states agreeing on the registers live
      into a block visit the same blocks, agree on memory and on what is live wherever they are, and
      return alike. Registers the analysis calls dead never influence execution. */
  lemma DeadRegistersDoNotMatter(arch: Arch, X: Externals, blocks: seq<MachineBlock>, info: LivenessInfo,
                                 succs: Succs, i: nat, s: State, t: State, steps: nat)
    requires Analysed(blocks, info, succs) && i < |blocks|
    requires Agree(s, t, Get(info.liveIn, blocks[i].id))
    ensures SameRun(blocks, info.liveIn, MachineCleanup.Run(arch, X, blocks, MachineCleanup.At(i), s, steps),
                    MachineCleanup.Run(arch, X, blocks, MachineCleanup.At(i), t, steps))
  {
    hide Analysed, Transits, SameRun, Agree, MachineCleanup.Run;
    forall j, s1, t1 | 0 <= j < |blocks| && Agree(s1, t1, Get(info.liveIn, blocks[j].id))
      ensures Transits(arch, X, blocks, info.liveIn, j, s1, t1)
    {
      TransitionAgree(arch, X, blocks, info, succs, j, s1, t1);
    }
    RunsFromTransitions(arch, X, blocks, info.liveIn, steps);
  }

  /** The same place and memory, and the same values in whatever is live there. */
  ghost predicate SameRun(blocks: seq<MachineBlock>, liveIn: RegSets, a: (MachineCleanup.Place, State),
                          b: (MachineCleanup.Place, State)) {
    && a.0 == b.0 && a.1.mem == b.1.mem
    && (a.0.At? && a.0.index < |blocks| ==> Agree(a.1, b.1, Get(liveIn, blocks[a.0.index].id)))
    && (a.0.Finished? ==> Agree(a.1, b.1, Elements(UseRegs(Ret))))
  }
}
