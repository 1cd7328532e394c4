/** The control flow graph of a body and its depth-first numbering (src/ir/cfg.rs:60-101, 256-293). */
module Cfg {
  import opened Sequences
  import opened CoreInts
  import opened Ir
  import opened UseLists
  import opened ModuleCores
  import opened Semantics

  datatype ControlFlowGraph = ControlFlowGraph(entry: BlockId, succs: map<BlockId, set<BlockId>>,
                                               preds: map<BlockId, set<BlockId>>)

  /** The graph has the body's blocks and exactly its edges, both ways round. */
  ghost predicate CfgOf(body: Body, cfg: ControlFlowGraph) {
    && cfg.entry == body.entry && cfg.succs.Keys == body.blocks.Keys && cfg.preds.Keys == body.blocks.Keys
    && (forall p, b :: p in cfg.succs ==> (b in cfg.succs[p] <==> Edge(body, p, b)))
    && (forall p, b :: b in cfg.preds ==> (p in cfg.preds[b] <==> Edge(body, p, b)))
  }

  function Targets(body: Body, p: BlockId): set<BlockId>
    requires p in body.blocks
  {
    var t := body.blocks[p].terminator;
    if t.None? || t.value !in body.insts then {}
    else match body.insts[t.value].kind
      case Branch(target, cond) => if cond.Some? then {target, cond.value.elseBlock} else {target}
      case _ => {}
  }

  lemma TargetsAreEdges(body: Body, p: BlockId, b: BlockId)
    requires p in body.blocks
    ensures b in Targets(body, p) <==> Edge(body, p, b)
  {
  }

  lemma TargetsExist(body: Body, p: BlockId)
    requires WellPlaced(body) && p in body.blocks
    ensures Targets(body, p) <= body.blocks.Keys
  {
    var t := body.blocks[p].terminator;
    if t.Some? && t.value in body.insts {
      assert Contains(body.blocks[p], t.value);
      assert WellHeld(body, t.value);
      var kind := body.insts[t.value].kind;
      if kind.Branch? {
        assert BlockOperands(kind)[BranchThen] == kind.thenBlock;
        assert kind.cond.Some? ==> BlockOperands(kind)[BranchElse] == kind.cond.value.elseBlock;
      }
    }
  }

  /** The edges out of the blocks already looked at. */
  ghost predicate CfgSoFar(body: Body, succs: map<BlockId, set<BlockId>>, preds: map<BlockId, set<BlockId>>,
                           todo: set<BlockId>) {
    SuccsSoFar(body, succs, todo) && PredsSoFar(body, preds, todo)
  }

  ghost predicate SuccsSoFar(body: Body, succs: map<BlockId, set<BlockId>>, todo: set<BlockId>) {
    succs.Keys == body.blocks.Keys - todo && forall p :: p in succs ==> succs[p] == Targets(body, p)
  }

  ghost predicate PredsSoFar(body: Body, preds: map<BlockId, set<BlockId>>, todo: set<BlockId>) {
    && body.blocks.Keys - todo <= preds.Keys <= body.blocks.Keys
    && (forall p, b :: b in preds && p in preds[b] ==> p in body.blocks && p !in todo && b in Targets(body, p))
    && (forall p, b :: p in body.blocks && p !in todo && b in Targets(body, p) ==> b in preds && p in preds[b])
  }

  function AddPred(preds: map<BlockId, set<BlockId>>, b: BlockId, p: BlockId): map<BlockId, set<BlockId>> {
    preds[b := (if b in preds then preds[b] else {}) + {p}]
  }

  method BuildCfg(m: ModuleCore) returns (cfg: ControlFlowGraph)
    requires m.Valid()
    ensures CfgOf(m.Now(), cfg)
  {
    hide Exact, Registry, BlockRegistry, Targets, WellPlaced, CfgSoFar;
    ghost var body := m.Now();
    var succs: map<BlockId, set<BlockId>>, preds: map<BlockId, set<BlockId>> := map[], map[];
    var todo := m.blocks.Keys;
    CfgStart(body);
    while todo != {}
      invariant todo <= m.blocks.Keys && CfgSoFar(body, succs, preds, todo)
      decreases todo
    {
      var p :| p in todo;
      ghost var succs0, preds0 := succs, preds;
      UnfoldTargets(body, p);
      succs := succs[p := {}];
      if p !in preds {
        preds := preds[p := {}];
      }
      if m.blocks[p].terminator.Some? && m.blocks[p].terminator.value in m.insts {
        match m.insts[m.blocks[p].terminator.value].kind {
          case Branch(target, cond) =>
            succs := succs[p := succs[p] + {target}];
            preds := AddPred(preds, target, p);
            if cond.Some? {
              succs := succs[p := succs[p] + {cond.value.elseBlock}];
              preds := AddPred(preds, cond.value.elseBlock, p);
            }
          case _ =>
        }
      }
      assert succs[p] == Targets(body, p);
      assert succs == succs0[p := Targets(body, p)];
      CfgStep(body, succs0, preds0, todo, p, succs, preds);
      todo := todo - {p};
    }
    cfg := ControlFlowGraph(m.entry, succs, preds);
    CfgDone(body, cfg);
  }

  lemma CfgStart(body: Body)
    ensures CfgSoFar(body, map[], map[], body.blocks.Keys)
  {
  }

  lemma CfgStep(body: Body, succs: map<BlockId, set<BlockId>>, preds: map<BlockId, set<BlockId>>, todo: set<BlockId>,
                p: BlockId,
                succs': map<BlockId, set<BlockId>>, preds': map<BlockId, set<BlockId>>)
    requires WellPlaced(body) && CfgSoFar(body, succs, preds, todo) && p in todo && todo <= body.blocks.Keys
    requires succs' == succs[p := Targets(body, p)]
    requires preds'.Keys == preds.Keys + {p} + Targets(body, p)
    requires forall b :: b in preds' ==>
      preds'[b] == (if b in preds then preds[b] else {}) + (if b in Targets(body, p) then {p} else {})
    ensures CfgSoFar(body, succs', preds', todo - {p})
  {
    TargetsExist(body, p);
    hide WellPlaced;
    PredsStep(body, preds, todo, p, preds');
    hide PredsSoFar, Targets;
  }

  lemma PredsStep(body: Body, preds: map<BlockId, set<BlockId>>, todo: set<BlockId>, p: BlockId,
                  preds': map<BlockId, set<BlockId>>)
    requires PredsSoFar(body, preds, todo) && p in todo && p in body.blocks && Targets(body, p) <= body.blocks.Keys
    requires preds'.Keys == preds.Keys + {p} + Targets(body, p)
    requires forall b :: b in preds' ==>
      preds'[b] == (if b in preds then preds[b] else {}) + (if b in Targets(body, p) then {p} else {})
    ensures PredsSoFar(body, preds', todo - {p})
  {
    hide Targets;
    forall q, b | b in preds' && q in preds'[b] ensures q in body.blocks && q !in todo - {p} && b in Targets(body, q) {
      assert (b in preds && q in preds[b]) || (b in Targets(body, p) && q == p);
    }
    forall q, b | q in body.blocks && q !in todo - {p} && b in Targets(body, q) ensures b in preds' && q in preds'[b] {
      if q != p {
        assert b in preds && q in preds[b];
      }
    }
  }

  lemma CfgDone(body: Body, cfg: ControlFlowGraph)
    requires CfgSoFar(body, cfg.succs, cfg.preds, {}) && cfg.entry == body.entry
    ensures CfgOf(body, cfg)
  {
    hide Targets;
    forall p, b | p in body.blocks ensures b in Targets(body, p) <==> Edge(body, p, b) {
      TargetsAreEdges(body, p, b);
    }
  }

  lemma UnfoldTargets(body: Body, p: BlockId)
    requires p in body.blocks
    ensures Targets(body, p)
      == (if body.blocks[p].terminator.None? || body.blocks[p].terminator.value !in body.insts then {}
        else match body.insts[body.blocks[p].terminator.value].kind
          case Branch(target, cond) => if cond.Some? then {target, cond.value.elseBlock} else {target}
          case _ => {})
  {
  }

  // ---------------------------------------------------------------- depth-first numbering

  /** A depth-first numbering: the order of discovery, the tree, and where each block's subtree ends. */
  datatype Numbering = Numbering(order: seq<BlockId>, parent: map<BlockId, BlockId>, fin: map<BlockId, nat>)

  /** Blocks from position `from` on form finished subtrees: each one's parent comes earlier and has
      an edge to it, subtrees are contiguous, and a block is left only after its successors were seen. */
  ghost predicate FinishedFrom(cfg: ControlFlowGraph, num: Numbering, from: nat) {
    && Distinct(num.order)
    && (forall i :: from <= i < |num.order| ==> num.order[i] in num.fin && i < num.fin[num.order[i]] <= |num.order|)
    && (forall i, j :: from <= i < j < |num.order| && j < num.fin[num.order[i]] ==> ChildWithin(cfg, num, i, j))
    && (forall i, y :: from <= i < |num.order| && num.order[i] in cfg.succs && y in cfg.succs[num.order[i]] ==>
         SeenBy(num, y, num.fin[num.order[i]]))
  }

  /** The block at j lies strictly inside the subtree of the one at i: so does its subtree, and its
      parent is not above i. */
  ghost predicate ChildWithin(cfg: ControlFlowGraph, num: Numbering, i: nat, j: nat)
    requires i < j < |num.order|
  {
    && num.order[i] in num.fin && num.order[j] in num.fin && num.fin[num.order[j]] <= num.fin[num.order[i]]
    && num.order[j] in num.parent
    && exists k: nat :: i <= k < j && ParentAt(cfg, num, j, k)
  }

  ghost predicate ParentAt(cfg: ControlFlowGraph, num: Numbering, j: nat, k: nat) {
    && j < |num.order| && k < |num.order| && num.order[j] in num.parent && num.order[k] == num.parent[num.order[j]]
    && num.order[k] in cfg.succs && num.order[j] in cfg.succs[num.order[k]]
  }

  ghost predicate SeenBy(num: Numbering, y: BlockId, n: nat) {
    exists k: nat :: k < n && k < |num.order| && num.order[k] == y
  }

  /** A later state of the same search: what was there before is kept. */
  ghost predicate Grows(a: Numbering, b: Numbering) {
    && a.order <= b.order
    && (forall x :: x in a.order ==>
         (x in b.parent <==> x in a.parent) && (x in a.parent ==> b.parent[x] == a.parent[x]))
    && (forall x :: x in a.order && x in a.fin ==> x in b.fin && b.fin[x] == a.fin[x])
  }

  lemma GrowsTransitive(a: Numbering, b: Numbering, c: Numbering)
    requires Grows(a, b) && Grows(b, c)
    ensures Grows(a, c)
  {
    assert forall x :: x in a.order ==> x in b.order;
  }

  class Dfs {
    const cfg: ControlFlowGraph
    var visited: set<BlockId>
    var order: seq<BlockId>
    var parent: map<BlockId, BlockId>
    ghost var fin: map<BlockId, nat>

    constructor (cfg: ControlFlowGraph)
      ensures this.cfg == cfg && visited == {} && order == [] && parent == map[] && fin == map[]
    {
      this.cfg := cfg;
      visited, order, parent, fin := {}, [], map[], map[];
    }

    ghost function Now(): Numbering
      reads this
    {
      Numbering(order, parent, fin)
    }

    ghost predicate Searching()
      reads this
    {
      Distinct(order) && (forall b :: b in order <==> b in visited) && (forall b :: b in visited ==> b in AllNodes(cfg))
    }

    /** Numbers everything newly reachable from the successors of the block entered at `start`. */
    method VisitAll(block: BlockId, succs: set<BlockId>, ghost start: nat)
      requires Searching() && start < |order| && order[start] == block && OpenFrom(cfg, Now(), start)
      requires block in AllNodes(cfg) && succs == if block in cfg.succs then cfg.succs[block] else {}
      modifies this`visited, this`order, this`parent, this`fin
      ensures Searching() && Grows(old(Now()), Now()) && old(visited) <= visited && OpenFrom(cfg, Now(), start)
      ensures forall y :: y in succs ==> y in order
      decreases AllNodes(cfg) - visited, 2
    {
      hide AllNodes, OpenFrom, FinishedFrom;
      ghost var entered := Now();
      var todo := succs;
      while todo != {}
        invariant Searching() && todo <= succs && Grows(entered, Now()) && start < |order| && order[start] == block
        invariant old(visited) <= visited
        invariant OpenFrom(cfg, Now(), start)
        invariant forall y :: y in succs - todo ==> y in order
        decreases todo
      {
        var succ :| succ in todo;
        SuccInAll(cfg, block, succ);
        ghost var mid := Now();
        assert block in order by { assert order[start] == block; }
        Visit(succ, Some(block));
        GrowsTransitive(entered, mid, Now());
        SubtreeJoins(cfg, mid, Now(), start, block, succ);
        todo := todo - {succ};
        assert forall y :: y in mid.order ==> y in order;
      }
    }

    /** Numbers a block and everything newly reachable from it. */
    method Visit(block: BlockId, from: Option<BlockId>)
      requires Searching() && block in AllNodes(cfg)
      requires from.Some? ==> from.value in order && from.value in cfg.succs && block in cfg.succs[from.value]
      modifies this`visited, this`order, this`parent, this`fin
      ensures Searching() && Grows(old(Now()), Now()) && block in visited
      ensures FinishedFrom(cfg, Now(), |old(order)|)
      ensures |order| > |old(order)| ==>
        && order[|old(order)|] == block && block in fin && fin[block] == |order|
        && (from.Some? ==> block in parent && parent[block] == from.value)
        && (from.None? ==> (block in parent <==> block in old(parent)))
      ensures block in old(visited) ==> Now() == old(Now())
      ensures block !in old(visited) ==> |order| > |old(order)|
      decreases AllNodes(cfg) - visited, 1
    {
      hide AllNodes, OpenFrom, FinishedFrom;
      if block in visited {
        NothingNew(cfg, Now());
        return;
      }
      ghost var start := |order|;
      ghost var before := Now();
      if from.Some? {
        parent := parent[block := from.value];
      }
      order := order + [block];
      visited := visited + {block};
      ghost var entered := Now();
      assert Grows(before, entered);
      var succs := if block in cfg.succs then cfg.succs[block] else {};
      NoSubtrees(cfg, Now(), start);
      VisitAll(block, succs, start);
      ghost var open := Now();
      fin := fin[block := |order|];
      CloseBlock(cfg, open, start, block);
      GrowsTransitive(before, entered, open);
      NewIsFresh(before, open, block);
    }
  }

  ghost function AllNodes(cfg: ControlFlowGraph): set<BlockId> {
    {cfg.entry} + cfg.succs.Keys + set p, b | p in cfg.succs && b in cfg.succs[p] :: b
  }

  lemma SuccInAll(cfg: ControlFlowGraph, p: BlockId, b: BlockId)
    requires p in cfg.succs && b in cfg.succs[p]
    ensures b in AllNodes(cfg)
  {
  }

  /** The block at `start` is still open: what was found under it so far is finished. */
  ghost predicate OpenFrom(cfg: ControlFlowGraph, num: Numbering, start: nat) {
    && start < |num.order| && FinishedFrom(cfg, num, start + 1)
    && (forall j :: start < j < |num.order| ==> UnderOpen(cfg, num, start, j))
  }

  ghost predicate UnderOpen(cfg: ControlFlowGraph, num: Numbering, start: nat, j: nat) {
    && j < |num.order| && num.order[j] in num.parent && exists k: nat :: start <= k < j && ParentAt(cfg, num, j, k)
  }

  lemma NothingNew(cfg: ControlFlowGraph, num: Numbering)
    requires Distinct(num.order)
    ensures FinishedFrom(cfg, num, |num.order|)
  {
  }

  lemma NoSubtrees(cfg: ControlFlowGraph, num: Numbering, start: nat)
    requires Distinct(num.order) && start + 1 == |num.order|
    ensures OpenFrom(cfg, num, start)
  {
  }

  lemma ParentGrows(cfg: ControlFlowGraph, a: Numbering, b: Numbering, j: nat, k: nat)
    requires Grows(a, b) && ParentAt(cfg, a, j, k)
    ensures ParentAt(cfg, b, j, k)
  {
    assert a.order[j] in a.order;
  }

  /** A successor's finished subtree, appended to what is under an open block, stays finished. */
  lemma SubtreeJoins(cfg: ControlFlowGraph, a: Numbering, b: Numbering, start: nat, block: BlockId, succ: BlockId)
    requires OpenFrom(cfg, a, start) && Grows(a, b) && a.order[start] == block && block in cfg.succs
    requires succ in cfg.succs[block]
    requires FinishedFrom(cfg, b, |a.order|)
    requires |b.order| > |a.order| ==>
      b.order[|a.order|] == succ && succ in b.fin && b.fin[succ] == |b.order| && succ in b.parent
      && b.parent[succ] == block
    ensures OpenFrom(cfg, b, start)
  {
    var n := |a.order|;
    forall j: nat | start < j < |b.order| ensures UnderOpen(cfg, b, start, j) {
      if j < n {
        assert UnderOpen(cfg, a, start, j);
        var k: nat :| start <= k < j && ParentAt(cfg, a, j, k);
        ParentGrows(cfg, a, b, j, k);
      } else if j == n {
        assert ParentAt(cfg, b, n, start);
      } else {
        assert ChildWithin(cfg, b, n, j);
      }
    }
    JoinFinished(cfg, a, b, start);
  }

  lemma JoinFinished(cfg: ControlFlowGraph, a: Numbering, b: Numbering, start: nat)
    requires OpenFrom(cfg, a, start) && Grows(a, b) && FinishedFrom(cfg, b, |a.order|)
    ensures FinishedFrom(cfg, b, start + 1)
  {
    var n := |a.order|;
    forall i: nat | start + 1 <= i < |b.order| ensures b.order[i] in b.fin && i < b.fin[b.order[i]] <= |b.order| {
      if i < n {
        assert a.order[i] in a.order;
      }
    }
    forall i: nat, j: nat | start + 1 <= i < j < |b.order| && j < b.fin[b.order[i]] ensures ChildWithin(cfg, b, i, j) {
      if i < n {
        assert a.order[i] in a.order && b.fin[b.order[i]] == a.fin[a.order[i]];
        assert j < n && ChildWithin(cfg, a, i, j);
        var k: nat :| i <= k < j && ParentAt(cfg, a, j, k);
        ParentGrows(cfg, a, b, j, k);
        assert a.order[j] in a.order;
      }
    }
    forall i: nat, y | start + 1 <= i < |b.order| && b.order[i] in cfg.succs && y in cfg.succs[b.order[i]]
      ensures SeenBy(b, y, b.fin[b.order[i]])
    {
      if i < n {
        assert a.order[i] in a.order && SeenBy(a, y, a.fin[a.order[i]]);
      }
    }
  }

  lemma CloseBlock(cfg: ControlFlowGraph, num: Numbering, start: nat, block: BlockId)
    requires OpenFrom(cfg, num, start) && num.order[start] == block
    requires forall y :: y in (if block in cfg.succs then cfg.succs[block] else {}) ==> y in num.order
    ensures FinishedFrom(cfg, num.(fin := num.fin[block := |num.order|]), start)
  {
    var b := num.(fin := num.fin[block := |num.order|]);
    forall i: nat | start < i < |num.order| ensures num.order[i] != block {
    }
    forall i: nat, j: nat | start <= i < j < |b.order| && j < b.fin[b.order[i]] ensures ChildWithin(cfg, b, i, j) {
      if i == start {
        assert UnderOpen(cfg, num, start, j);
        var k: nat :| start <= k < j && ParentAt(cfg, num, j, k);
        assert ParentAt(cfg, b, j, k);
      } else {
        assert ChildWithin(cfg, num, i, j);
        var k: nat :| i <= k < j && ParentAt(cfg, num, j, k);
        assert ParentAt(cfg, b, j, k);
      }
    }
    forall i: nat, y | start <= i < |b.order| && b.order[i] in cfg.succs && y in cfg.succs[b.order[i]]
      ensures SeenBy(b, y, b.fin[b.order[i]])
    {
      if i == start {
        assert y in num.order;
      } else {
        assert SeenBy(num, y, num.fin[num.order[i]]);
      }
    }
  }

  lemma NewIsFresh(a: Numbering, b: Numbering, block: BlockId)
    requires Grows(a, b) && block !in a.order
    ensures Grows(a, b.(fin := b.fin[block := |b.order|]))
  {
  }

  /** A complete numbering of a graph from its entry. */
  ghost predicate NumberingOf(cfg: ControlFlowGraph, num: Numbering) {
    && FinishedFrom(cfg, num, 0) && |num.order| > 0 && num.order[0] == cfg.entry && num.fin[cfg.entry] == |num.order|
    && cfg.entry !in num.parent
  }

  method BuildDfn(cfg: ControlFlowGraph)
    returns (order: seq<BlockId>, parent: map<BlockId, BlockId>, ghost num: Numbering)
    ensures NumberingOf(cfg, num) && num.order == order && num.parent == parent
  {
    var d := new Dfs(cfg);
    d.Visit(cfg.entry, None);
    order, parent, num := d.order, d.parent, d.Now();
  }

  // ---------------------------------------------------------------- what the numbering says

  lemma {:induction false} NumberedReachable(body: Body, cfg: ControlFlowGraph, num: Numbering, i: nat)
    requires CfgOf(body, cfg) && NumberingOf(cfg, num) && i < |num.order|
    ensures Reachable(body, num.order[i])
    decreases i
  {
    if i == 0 {
      EntryReachable(body);
    } else {
      assert ChildWithin(cfg, num, 0, i);
      var k: nat :| 0 <= k < i && ParentAt(cfg, num, i, k);
      NumberedReachable(body, cfg, num, k);
      ReachStep(body, num.order[k], num.order[i]);
    }
  }

  lemma {:induction false} ReachableNumbered(body: Body, cfg: ControlFlowGraph, num: Numbering, path: seq<BlockId>,
                                             b: BlockId)
    requires CfgOf(body, cfg) && NumberingOf(cfg, num) && PathTo(body, path, b)
    ensures b in num.order
    decreases |path|
  {
    if |path| == 1 {
      assert num.order[0] == b;
    } else {
      var n := |path|;
      PathPrefix(body, path, n - 2);
      ReachableNumbered(body, cfg, num, path[..n - 2 + 1], path[n - 2]);
      assert Edge(body, path[n - 2], path[n - 2 + 1]);
      var i :| 0 <= i < |num.order| && num.order[i] == path[n - 2];
      assert SeenBy(num, b, num.fin[num.order[i]]);
    }
  }

  /** The search numbers exactly the blocks reachable from the entry. */
  lemma NumberedExactlyReachable(body: Body, cfg: ControlFlowGraph, num: Numbering, b: BlockId)
    requires CfgOf(body, cfg) && NumberingOf(cfg, num)
    ensures b in num.order <==> Reachable(body, b)
  {
    hide CfgOf, NumberingOf, PathTo;
    if b in num.order {
      var i :| 0 <= i < |num.order| && num.order[i] == b;
      NumberedReachable(body, cfg, num, i);
    }
    if Reachable(body, b) {
      var path :| PathTo(body, path, b);
      ReachableNumbered(body, cfg, num, path, b);
    }
  }
}
