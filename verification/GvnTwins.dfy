/** What goes wrong when value numbering walks a tree in which a parent does not dominate its child
    (src/ir/opt/global_gvn.rs:38-183, src/ir/cfg.rs:103-201). */
module GvnTwins {
  import opened Sequences
  import opened CoreInts
  import opened Ir
  import opened Semantics
  import opened Ssa
  import opened Cfg
  import opened DomTrees
  import opened DomQueries
  import opened Rewrites
  import opened GvnWalk
  import opened GvnLeaders
  import opened GvnTree

  const TWINS_COND := Some(CondBranch(ArgValue(0), 3))

  const TWIN := Binary(Add, ArgValue(0), ArgValue(0))

  /** The graph of DomQueries.SKIP_BODY, with the same addition in blocks 1 and 2. */
  const TWINS_BODY := Body(
    map[0 := InstData(Some(0), VoidType, Branch(1, TWINS_COND)),
      1 := InstData(Some(1), VoidType, Branch(2, TWINS_COND)),
        2 := InstData(Some(2), VoidType, Ret(Some(InstValue(5)))), 3 := InstData(Some(3), VoidType, Branch(2, None)),
        4 := InstData(Some(1), IntType(1), TWIN), 5 := InstData(Some(2), IntType(1), TWIN)],
    map[0 := BlockData([], [], Some(0)), 1 := BlockData([], [4], Some(1)), 2 := BlockData([], [5], Some(2)),
      3 := BlockData([], [], Some(3))],
    [0, 1, 2, 3], 0, [], 1, 0)

  const TWINS_IDS: seq<nat> := [0, 0, 1, 0]

  const TWINS_TREE := Node(0, [Node(1, [Node(2, [])]), Node(3, [])])

  /** The tree is one the construction builds, and it puts block 2 under block 1. So the walk would
      meet the addition in block 2 with its twin from block 1 in the table, and put the twin in its
      place; but when control comes to block 2 by way of block 3 the twin was never computed. */
  lemma TwinsDiffer(text: ValueId -> int)
    ensures SSA(TWINS_BODY) && TreeBuiltOn(TWINS_BODY, SKIP_GRAPH, SKIP_NUMBERING, SKIP_TREE, TWINS_IDS)
    ensures Matches(TWINS_TREE, SKIP_NUMBERING.order, TWINS_IDS, 0)
    ensures 4 in InLists(TWINS_BODY.blocks, {1}) && 5 in InLists(TWINS_BODY.blocks, {2})
    ensures SameKey(text, TWINS_BODY, 4, 5) && !AlwaysEqual(TWINS_BODY, 5, 4)
  {
    hide SSA, TreeBuiltOn, Matches, AlwaysEqual, TWINS_BODY, TWINS_IDS, TWINS_TREE, SKIP_GRAPH, SKIP_NUMBERING,
      SKIP_TREE;
    TwinsSSA();
    TwinsTree();
    TwinsMatch();
    TwinsKeys(text);
    TwinsRun();
  }

  lemma TwinsKeys(text: ValueId -> int)
    ensures 4 in InLists(TWINS_BODY.blocks, {1}) && 5 in InLists(TWINS_BODY.blocks, {2})
    ensures SameKey(text, TWINS_BODY, 4, 5)
  {
    assert 4 in TWINS_BODY.blocks[1].insts && 5 in TWINS_BODY.blocks[2].insts;
  }

  lemma TwinsChild(k: nat)
    requires 1 <= k < 4
    ensures |TWINS_IDS| == 4 && TWINS_IDS[k] == (if k == 2 then 1 else 0)
  {
  }

  lemma TwinsMatch()
    ensures Matches(TWINS_TREE, SKIP_NUMBERING.order, TWINS_IDS, 0)
  {
    hide Matches, SKIP_NUMBERING, TWINS_IDS;
    var order := SKIP_NUMBERING.order;
    assert order == [0, 1, 2, 3] by { SkipOrderIs(); }
    forall k: nat | 1 <= k < 4 ensures |TWINS_IDS| == 4 && TWINS_IDS[k] == (if k == 2 then 1 else 0) {
      TwinsChild(k);
    }
    TwinsChild(2);
    TwinsLeaf(2);
    TwinsLeaf(3);
    OneChildMatches(Node(2, []), order, TWINS_IDS, 1, 2);
    TwoChildrenMatch(Node(1, [Node(2, [])]), Node(3, []), order, TWINS_IDS, 0, 1, 3);
  }

  lemma TwinsLeaf(j: nat)
    requires j == 2 || j == 3
    ensures Matches(Node(j, []), SKIP_NUMBERING.order, TWINS_IDS, j)
  {
    hide Matches, SKIP_NUMBERING, TWINS_IDS;
    assert SKIP_NUMBERING.order == [0, 1, 2, 3] by { SkipOrderIs(); }
    forall k: nat | 1 <= k < 4 ensures |TWINS_IDS| == 4 && TWINS_IDS[k] == (if k == 2 then 1 else 0) {
      TwinsChild(k);
    }
    TwinsChild(1);
    NodeMatches(Node(j, []), SKIP_NUMBERING.order, TWINS_IDS, j);
  }

  lemma OneChildMatches(c: DomTree, order: seq<BlockId>, ids: seq<nat>, j: nat, k: nat)
    requires j < |order| == |ids| && 1 <= k < |ids| && ids[k] == j && Matches(c, order, ids, k)
    requires forall i: nat :: 1 <= i < |ids| && ids[i] == j ==> i == k
    ensures Matches(Node(order[j], [c]), order, ids, j)
  {
    hide Matches;
    SoleChild(c, order, ids, k);
    NodeMatches(Node(order[j], [c]), order, ids, j);
  }

  lemma TwoChildrenMatch(c: DomTree, d: DomTree, order: seq<BlockId>, ids: seq<nat>, j: nat, k: nat, l: nat)
    requires j < |order| == |ids| && 1 <= k < |ids| && ids[k] == j && Matches(c, order, ids, k)
    requires 1 <= l < |ids| && ids[l] == j && Matches(d, order, ids, l) && c.block != d.block
    requires forall i: nat :: 1 <= i < |ids| && ids[i] == j ==> i == k || i == l
    ensures Matches(Node(order[j], [c, d]), order, ids, j)
  {
    hide Matches, HasChild;
    var both := [c] + [d];
    assert HasChild([c], order, ids, k) by { SoleChild(c, order, ids, k); }
    MoreChildren([c], d, order, ids, k, l);
    forall x | x in both ensures exists i: nat :: 1 <= i < |ids| && ids[i] == j && Matches(x, order, ids, i) {
      assert x == c || x == d;
    }
    NodeMatches(Node(order[j], both), order, ids, j);
    assert both == [c, d];
  }

  lemma SoleChild(c: DomTree, order: seq<BlockId>, ids: seq<nat>, k: nat)
    requires Matches(c, order, ids, k)
    ensures HasChild([c], order, ids, k)
  {
    hide Matches;
    assert [c][0] in [c];
  }

  lemma SkipOrderIs()
    ensures SKIP_NUMBERING.order == [0, 1, 2, 3]
  {
  }

  // ---------------------------------------------------------------- the tree

  lemma TwinsEdges()
    ensures SameEdges(SKIP_BODY, TWINS_BODY)
  {
    forall p, q ensures Edge(SKIP_BODY, p, q) <==> Edge(TWINS_BODY, p, q) {
      TwinsEdge(p, q);
    }
    hide Edge;
  }

  lemma TwinsEdge(p: BlockId, q: BlockId)
    ensures Edge(SKIP_BODY, p, q) <==> Edge(TWINS_BODY, p, q)
  {
  }

  lemma TwinsTree()
    ensures TreeBuiltOn(TWINS_BODY, SKIP_GRAPH, SKIP_NUMBERING, SKIP_TREE, TWINS_IDS)
  {
    hide CfgOf, NumberingOf, TreeOfNumbering, LeastClimb, SKIP_BODY, TWINS_BODY, SKIP_GRAPH, SKIP_NUMBERING, SKIP_TREE,
      SameEdges, DfsTree, Repr, WellPlaced, Dominates;
    ParentNeedNotDominate();
    TwinsEdges();
    TwinsKeysSame();
    SkipOrderIs();
    CfgOfSame(SKIP_BODY, TWINS_BODY, SKIP_GRAPH);
  }

  lemma TwinsKeysSame()
    ensures TWINS_BODY.blocks.Keys == SKIP_BODY.blocks.Keys
  {
  }

  lemma CfgOfSame(a: Body, b: Body, cfg: ControlFlowGraph)
    requires CfgOf(a, cfg) && SameEdges(a, b) && a.blocks.Keys == b.blocks.Keys
    ensures CfgOf(b, cfg)
  {
    hide Edge;
  }

  // ---------------------------------------------------------------- the body is in SSA form

  lemma TwinsHeld(i: InstId)
    requires i in TWINS_BODY.insts
    ensures WellHeld(TWINS_BODY, i)
  {
    match i {
      case 0 => TwinsBranches(0);
      case 1 => TwinsBranches(1);
      case 2 =>
      case 3 =>
      case 4 =>
      case _ =>
    }
  }

  lemma TwinsBranches(i: InstId)
    requires i == 0 || i == 1
    ensures WellHeld(TWINS_BODY, i)
  {
    assert OperandsExist(TWINS_BODY, i);
    hide OperandsExist;
  }

  lemma TwinsListed(b: BlockId, i: InstId)
    requires b in TWINS_BODY.blocks && Contains(TWINS_BODY.blocks[b], i)
    ensures i in TWINS_BODY.insts && TWINS_BODY.insts[i].parent == Some(b)
    ensures Lists(TWINS_BODY.blocks[b], TWINS_BODY.insts[i].kind, i)
  {
    hide OperandsExist;
    assert i in TWINS_BODY.insts && TWINS_BODY.insts[i].parent == Some(b);
    TwinsHeld(i);
  }

  lemma TwinsOrder()
    ensures Distinct(TWINS_BODY.order) && (forall b :: b in TWINS_BODY.order <==> b in TWINS_BODY.blocks)
    ensures TWINS_BODY.entry in TWINS_BODY.blocks && TWINS_BODY.blocks[TWINS_BODY.entry].phis == []
    ensures forall b :: b in TWINS_BODY.blocks ==>
      Distinct(TWINS_BODY.blocks[b].phis) && Distinct(TWINS_BODY.blocks[b].insts)
  {
  }

  lemma TwinsExist(i: InstId)
    requires Attached(TWINS_BODY, i)
    ensures i in TWINS_BODY.insts
  {
  }

  lemma TwinsSSA()
    ensures SSA(TWINS_BODY)
  {
    hide TWINS_BODY, WellHeld, Lists, Contains, Attached, BlockOk, Reachable;
    forall i | Attached(TWINS_BODY, i) ensures WellHeld(TWINS_BODY, i) {
      TwinsExist(i);
      TwinsHeld(i);
    }
    forall b, i | b in TWINS_BODY.blocks && Contains(TWINS_BODY.blocks[b], i)
      ensures i in TWINS_BODY.insts && TWINS_BODY.insts[i].parent == Some(b)
      ensures Lists(TWINS_BODY.blocks[b], TWINS_BODY.insts[i].kind, i)
    {
      TwinsListed(b, i);
    }
    TwinsOrder();
    forall b | b in TWINS_BODY.blocks ensures BlockOk(TWINS_BODY, b) {
      TwinsBlockOk(b);
    }
  }

  lemma TwinsBlockOk(b: BlockId)
    requires b in TWINS_BODY.blocks
    ensures BlockOk(TWINS_BODY, b)
  {
    hide Dominates, Reachable, PhiOk;
    if b == 2 {
      assert TWINS_BODY.blocks[2].insts[0] == 5;
      assert Before(TWINS_BODY, 5, 2, 1);
    }
  }

  // ---------------------------------------------------------------- a run that goes round block 1

  ghost function Zero(): Val {
    IntVal(CoreInt(0, 1))
  }

  /** A world in which the argument is zero; the rest does not matter. */
  ghost function ZeroWorld(): World {
    World(_ => Zero(), _ => Zero(), _ => Zero(), _ => Zero(), _ => Zero(), (_, _, _) => Zero(), (_, _, _) => true,
      (_, _) => Zero(), (_, _, _) => Zero(), (m, _, _) => m, (_, _, _) => Zero(), (_, _, m) => m)
  }

  lemma TwinsStep(b: BlockId, from: Option<BlockId>, st: State)
    requires b == 0 || b == 3
    ensures var (place, st') := StepBlock(ZeroWorld(), TWINS_BODY, {}, At(b, from), st);
      place == At(if b == 0 then 3 else 2, Some(b)) && st'.env[4] == st.env[4]
  {
  }

  lemma TwinsArrive()
    ensures var (place, st) := Execute(ZeroWorld(), TWINS_BODY, {}, map[], 2);
      place == At(2, Some(3)) && st.env[4] == Unspecified
  {
    hide TWINS_BODY, StepBlock, ZeroWorld;
    var W := ZeroWorld();
    assert TWINS_BODY.entry == 0 by { TwinsEntry(); }
    var (p0, s0) := Execute(W, TWINS_BODY, {}, map[], 0);
    TwinsStep(0, None, s0);
    var (p1, s1) := Execute(W, TWINS_BODY, {}, map[], 1);
    assert (p1, s1) == StepBlock(W, TWINS_BODY, {}, p0, s0);
    TwinsStep(3, Some(0), s1);
    assert Execute(W, TWINS_BODY, {}, map[], 2) == StepBlock(W, TWINS_BODY, {}, p1, s1);
  }

  lemma TwinsEntry()
    ensures TWINS_BODY.entry == 0
  {
  }

  lemma TwinsSum(st: State)
    ensures StepInst(ZeroWorld(), TWINS_BODY, {}, 5, st).env[5] != Unspecified
    ensures StepInst(ZeroWorld(), TWINS_BODY, {}, 5, st).env[4] == st.env[4]
  {
    hide Fold;
    var args := ArgVals(ZeroWorld(), TWINS_BODY, 5, st.env);
    assert args == [Zero(), Zero()];
  }

  lemma TwinsEnter(st: State)
    ensures EnterBlock(ZeroWorld(), TWINS_BODY, {}, [], Some(3), st).env[4] == st.env[4]
  {
  }

  lemma TwinsInside(st: State)
    ensures InsideBlock(ZeroWorld(), TWINS_BODY, {}, At(2, Some(3)), st, 1)[5] != Unspecified
    ensures InsideBlock(ZeroWorld(), TWINS_BODY, {}, At(2, Some(3)), st, 1)[4] == st.env[4]
  {
    hide TWINS_BODY, ZeroWorld, EnterBlock, StepInst;
    TwinsTwo();
    TwinsEnter(st);
    var st1 := EnterBlock(ZeroWorld(), TWINS_BODY, {}, [], Some(3), st);
    TwinsSum(st1);
    assert [5][..1] == [5] && [5][..0] == [];
    assert ExecInsts(ZeroWorld(), TWINS_BODY, {}, [], st1) == st1;
  }

  lemma TwinsTwo()
    ensures 2 in TWINS_BODY.blocks && TWINS_BODY.blocks[2].insts == [5] && TWINS_BODY.blocks[2].phis == []
  {
  }

  lemma TwinsRun()
    ensures !AlwaysEqual(TWINS_BODY, 5, 4)
  {
    hide TWINS_BODY, Execute, InsideBlock, ZeroWorld;
    var W := ZeroWorld();
    TwinsArrive();
    var (place, st) := Execute(W, TWINS_BODY, {}, map[], 2);
    TwinsInside(st);
    TwinsHere();
    assert !EqualAt(W, TWINS_BODY, {}, map[], 2, 1, 5, 4);
  }

  lemma TwinsHere()
    ensures HasValueAt(TWINS_BODY, At(2, Some(3)), 1, 5)
  {
    hide Dominates;
    assert TWINS_BODY.blocks[2].insts[0] == 5;
  }
}
