/** The walk of global value numbering over the constructed dominator tree
    (src/ir/opt/global_gvn.rs:38-79, src/ir/cfg.rs:103-201), and when that tree is good enough for it. */
module GvnTree {
  import opened Sequences
  import opened Ir
  import opened UseLists
  import opened ModuleCores
  import opened Semantics
  import opened Ssa
  import opened Cfg
  import opened DomTrees
  import opened DomQueries
  import opened Clearing
  import opened Gvn
  import opened GvnWalk
  import opened GvnLeaders
  import opened GvnPass

  /** The node has the block numbered j, and a subtree for each block whose parent is j. */
  ghost predicate Matches(n: DomTree, order: seq<BlockId>, ids: seq<nat>, j: nat)
    decreases n
  {
    && j < |order| == |ids| && n.block == order[j]
    && (forall c :: c in n.children ==> exists k: nat :: 1 <= k < |ids| && ids[k] == j && Matches(c, order, ids, k))
    && (forall k: nat :: 1 <= k < |ids| && ids[k] == j ==> HasChild(n.children, order, ids, k))
    && OnceEach(n.children)
  }

  predicate OnceEach(children: seq<DomTree>) {
    forall i, j :: 0 <= i < j < |children| ==> children[i].block != children[j].block
  }

  ghost predicate HasChild(children: seq<DomTree>, order: seq<BlockId>, ids: seq<nat>, k: nat)
    decreases children
  {
    exists c :: c in children && Matches(c, order, ids, k)
  }

  /** The nodes the walk visits, from a block downwards, in some order of each block's children. */
  method WalkFrom(tree: DominatorTree, b: BlockId, ghost order: seq<BlockId>, ghost ids: seq<nat>, ghost j: nat)
    returns (n: DomTree)
    requires Distinct(order) && Repr(order, tree.idom, ids) && Falling(ids) && InverseOf(tree.children, tree.idom)
    requires j < |order| && order[j] == b
    ensures Matches(n, order, ids, j)
    decreases |order| - j
  {
    hide Matches;
    var nodes: seq<DomTree> := [];
    var todo := tree.children[b];
    ghost var done: set<nat> := {};
    while todo != {}
      invariant todo <= tree.children[b] && OnceEach(nodes) && forall c :: c in nodes ==> c.block !in todo
      invariant forall c :: c in nodes ==> exists k: nat :: 1 <= k < |ids| && ids[k] == j && Matches(c, order, ids, k)
      invariant forall k: nat :: 1 <= k < |ids| && ids[k] == j ==> order[k] in todo || HasChild(nodes, order, ids, k)
      decreases todo
    {
      var child :| child in todo;
      ghost var k := ChildNumber(tree, order, ids, b, j, child);
      var node := WalkFrom(tree, child, order, ids, k);
      MatchesBlock(node, order, ids, k);
      ghost var before := nodes;
      nodes := nodes + [node];
      forall i: nat | 1 <= i < |ids| && ids[i] == j
        ensures order[i] in todo - {child} || HasChild(nodes, order, ids, i)
      {
        MoreChildren(before, node, order, ids, i, k);
        if order[i] == child {
          assert i == k;
        }
      }
      todo := todo - {child};
    }
    n := Node(b, nodes);
    NodeMatches(n, order, ids, j);
  }

  lemma NodeMatches(n: DomTree, order: seq<BlockId>, ids: seq<nat>, j: nat)
    requires j < |order| == |ids| && n.block == order[j]
    requires forall c :: c in n.children ==> exists k: nat :: 1 <= k < |ids| && ids[k] == j && Matches(c, order, ids, k)
    requires forall k: nat :: 1 <= k < |ids| && ids[k] == j ==> HasChild(n.children, order, ids, k)
    requires OnceEach(n.children)
    ensures Matches(n, order, ids, j)
  {
  }

  lemma MatchesBlock(n: DomTree, order: seq<BlockId>, ids: seq<nat>, j: nat)
    requires Matches(n, order, ids, j)
    ensures j < |order| && n.block == order[j]
  {
  }

  lemma MoreChildren(nodes: seq<DomTree>, node: DomTree, order: seq<BlockId>, ids: seq<nat>, i: nat, k: nat)
    requires Matches(node, order, ids, k)
    ensures HasChild(nodes + [node], order, ids, k)
    ensures (HasChild(nodes, order, ids, i) ==> HasChild(nodes + [node], order, ids, i))
  {
    hide Matches;
    assert node in nodes + [node];
    if HasChild(nodes, order, ids, i) {
      var c :| c in nodes && Matches(c, order, ids, i);
      assert c in nodes + [node];
    }
  }

  lemma ChildNumber(tree: DominatorTree, order: seq<BlockId>, ids: seq<nat>, b: BlockId, j: nat, child: BlockId)
    returns (k: nat)
    requires Distinct(order) && Repr(order, tree.idom, ids) && Falling(ids) && InverseOf(tree.children, tree.idom)
    requires j < |order| && order[j] == b
    requires b in tree.children && child in tree.children[b]
    ensures 1 <= k < |order| && order[k] == child && ids[k] == j && k > j
  {
    assert child in order;
    k :| k < |order| && order[k] == child;
    OrderOnce(order, ids[k], j);
  }

  lemma {:induction false} ParentsMakeTrueTree(body: Body, n: DomTree, order: seq<BlockId>, ids: seq<nat>, j: nat)
    requires Matches(n, order, ids, j) && Falling(ids) && ParentsDominate(body, order, ids) && Distinct(order)
    requires forall b :: b in order ==> Reachable(body, b) && b in body.blocks
    ensures TrueTree(body, n)
    decreases n
  {
    hide Reachable, Dominates;
    assert order[j] in order;
    forall c | c in n.children ensures TrueTree(body, c) && Dominates(body, n.block, c.block) && c.block != n.block {
      var k: nat :| 1 <= k < |ids| && ids[k] == j && Matches(c, order, ids, k);
      ParentsMakeTrueTree(body, c, order, ids, k);
    }
  }

  /** Every numbered block has a node below a matching root. */
  lemma {:induction false} NodeFor(body: Body, root: DomTree, order: seq<BlockId>, ids: seq<nat>, k: nat)
    returns (n: DomTree)
    requires Matches(root, order, ids, 0) && Falling(ids) && TrueTree(body, root) && k < |order|
    ensures Matches(n, order, ids, k) && TrueTree(body, n) && Blocks(n) <= Blocks(root)
    ensures k >= 1 ==> Dominates(body, order[ids[k]], order[k])
    decreases k
  {
    hide Reachable, Dominates;
    if k == 0 {
      n := root;
    } else {
      var up := NodeFor(body, root, order, ids, ids[k]);
      assert HasChild(up.children, order, ids, k);
      n :| n in up.children && Matches(n, order, ids, k);
    }
  }

  /** Value numbering may walk the constructed tree exactly when every edge of the graph leaves from
      at or below its target's parent. */
  lemma WalkableExactly(body: Body, cfg: ControlFlowGraph, num: Numbering, t: SearchTree, ids: seq<nat>, root: DomTree)
    requires CfgOf(body, cfg) && NumberingOf(cfg, num) && TreeOfNumbering(cfg, num, t) && ClimbTree(t, ids)
    requires Falling(ids)
    requires Matches(root, num.order, ids, 0) && WellPlaced(body)
    ensures TrueTree(body, root) <==> EdgesStayBelow(t, ids)
  {
    hide CfgOf, NumberingOf, TreeOfNumbering, ClimbTree, DfsTree, EdgesStayBelow, Dominates, Reachable, WellPlaced,
      Matches, TrueTree;
    TreeIsDfs(cfg, num, t);
    TreeExactly(body, cfg, num, t, ids);
    NumberedOnce(cfg, num);
    ClimbCount(cfg, num, t, ids);
    forall b | b in num.order ensures Reachable(body, b) && b in body.blocks {
      NumberedExactlyReachable(body, cfg, num, b);
      ReachableExists(body, b);
    }
    if EdgesStayBelow(t, ids) {
      ParentsMakeTrueTree(body, root, num.order, ids, 0);
    }
    if TrueTree(body, root) {
      forall k: nat | 1 <= k < |num.order|
        ensures ids[k] < |num.order| && Dominates(body, num.order[ids[k]], num.order[k])
      {
        var n := NodeFor(body, root, num.order, ids, k);
      }
    }
  }

  // ---------------------------------------------------------------- siblings are apart

  /** Two blocks above the same one: one of them is above the other. */
  lemma {:induction false} AboveLinear(ids: seq<nat>, a: nat, b: nat, j: nat)
    requires Falling(ids) && Above(ids, a, j) && Above(ids, b, j)
    ensures Above(ids, a, b) || Above(ids, b, a)
    decreases j
  {
    if a != j && b != j {
      AboveLinear(ids, a, b, ids[j]);
    }
  }

  lemma SiblingNotAbove(ids: seq<nat>, k1: nat, k2: nat, j: nat)
    requires Falling(ids) && 1 <= k1 < |ids| && 1 <= k2 < |ids| && ids[k1] == j == ids[k2] && k1 != k2
    ensures !Above(ids, k1, k2)
  {
    if Above(ids, k1, k2) {
      AboveFalls(ids, k1, j);
    }
  }

  lemma ChildIndex(n: DomTree, order: seq<BlockId>, ids: seq<nat>, j: nat, c: DomTree) returns (k: nat)
    requires Matches(n, order, ids, j) && c in n.children
    ensures j < |order| && n.block == order[j]
    ensures 1 <= k < |ids| && ids[k] == j && Matches(c, order, ids, k) && OnceEach(n.children)
  {
    k :| 1 <= k < |ids| && ids[k] == j && Matches(c, order, ids, k);
  }

  /** Every block under a node has a number the node's own is above. */
  lemma {:induction false} BelowNumber(n: DomTree, order: seq<BlockId>, ids: seq<nat>, j: nat, x: BlockId)
    returns (p: nat)
    requires Matches(n, order, ids, j) && Falling(ids) && x in Blocks(n)
    ensures p < |order| && order[p] == x && Above(ids, j, p)
    decreases n
  {
    hide Matches;
    if x == n.block {
      MatchesBlock(n, order, ids, j);
      p := j;
    } else {
      var c :| c in n.children && x in Blocks(c);
      var k := ChildIndex(n, order, ids, j, c);
      p := BelowNumber(c, order, ids, k, x);
      assert Above(ids, j, j) && Above(ids, j, k);
      AboveTransitive(ids, j, k, p);
    }
  }

  lemma SubtreesApart(body: Body, n: DomTree, order: seq<BlockId>, ids: seq<nat>, j: nat, c1: DomTree, c2: DomTree,
                      x: BlockId, y: BlockId)
    requires Matches(n, order, ids, j) && Falling(ids) && Distinct(order) && TreeExact(body, order, ids)
    requires c1 in n.children && c2 in n.children && c1.block != c2.block && x in Blocks(c1) && y in Blocks(c2)
    ensures !Dominates(body, x, y)
  {
    hide Dominates, Blocks, Above, Matches;
    var k1 := ChildIndex(n, order, ids, j, c1);
    var k2 := ChildIndex(n, order, ids, j, c2);
    var p := BelowNumber(c1, order, ids, k1, x);
    var q := BelowNumber(c2, order, ids, k2, y);
    MatchesBlock(c1, order, ids, k1);
    MatchesBlock(c2, order, ids, k2);
    if Dominates(body, x, y) {
      assert Above(ids, p, q);
      AboveTransitive(ids, k1, p, q);
      AboveLinear(ids, k1, k2, q);
      SiblingNotAbove(ids, k1, k2, j);
      SiblingNotAbove(ids, k2, k1, j);
    }
  }

  lemma {:induction false} ExactIsApart(body: Body, n: DomTree, order: seq<BlockId>, ids: seq<nat>, j: nat)
    requires Matches(n, order, ids, j) && Falling(ids) && Distinct(order) && TreeExact(body, order, ids)
    ensures Apart(body, n)
    decreases n
  {
    hide Blocks, TreeExact, Matches, Dominates;
    forall c | c in n.children ensures Apart(body, c) {
      var k := ChildIndex(n, order, ids, j, c);
      ExactIsApart(body, c, order, ids, k);
    }
    forall a, b, x, y | 0 <= a < |n.children| && 0 <= b < |n.children| && a != b && x in Blocks(n.children[a])
      && y in Blocks(n.children[b])
      ensures !Dominates(body, x, y)
    {
      var k := ChildIndex(n, order, ids, j, n.children[a]);
      SubtreesApart(body, n, order, ids, j, n.children[a], n.children[b], x, y);
    }
  }

  /** The tree holds exactly the numbered blocks. */
  lemma RootHoldsAll(body: Body, root: DomTree, order: seq<BlockId>, ids: seq<nat>)
    requires Matches(root, order, ids, 0) && Falling(ids) && TrueTree(body, root)
    ensures forall b :: b in Blocks(root) <==> b in order
  {
    hide Matches, TrueTree, Above, Blocks;
    forall b | b in Blocks(root) ensures b in order {
      var p := BelowNumber(root, order, ids, 0, b);
    }
    forall b | b in order ensures b in Blocks(root) {
      var k: nat :| k < |order| && order[k] == b;
      var n := NodeFor(body, root, order, ids, k);
      MatchesBlock(n, order, ids, k);
      OwnBlock(n);
    }
  }

  lemma OwnBlock(n: DomTree)
    ensures n.block in Blocks(n)
  {
  }

  lemma ClimbCount(cfg: ControlFlowGraph, num: Numbering, t: SearchTree, ids: seq<nat>)
    requires TreeOfNumbering(cfg, num, t) && ClimbTree(t, ids)
    ensures |ids| == |num.order|
  {
    hide DfsTree, LeastClimb;
  }

  /** Whatever depth-first numbering the search arrives at, every edge leaves from at or below its
      target's parent in the tree built on it. */
  ghost predicate TreesAreTrue(body: Body) {
    forall cfg, num, t, ids :: TreeBuiltOn(body, cfg, num, t, ids) ==> EdgesStayBelow(t, ids)
  }

  ghost predicate TreeBuiltOn(body: Body, cfg: ControlFlowGraph, num: Numbering, t: SearchTree, ids: seq<nat>) {
    CfgOf(body, cfg) && NumberingOf(cfg, num) && TreeOfNumbering(cfg, num, t) && ClimbTree(t, ids)
  }

  ghost function ReachableBlocks(body: Body): set<BlockId> {
    set b | b in body.blocks && Reachable(body, b)
  }

  /** The pass on a function: graph, tree, walk, removals. Exactly the replaced instructions are
      gone; each had the key of its replacement, which always equals it and is still there; no
      instruction left in a reachable block has the key of one before it. */
  method OptGlobalGvn(m: ModuleCore, text: ValueId -> int) returns (ghost replaced: seq<(InstId, InstId)>)
    requires m.Valid() && SSA(m.Now()) && TreesAreTrue(m.Now())
    modifies m
    ensures m.Valid() && SSA(m.Now()) && m.insts.Keys <= old(m.insts).Keys
    ensures ReplacedOk(old(m.Now()), replaced)
    ensures Lockstep(old(m.Now()), m.Now(), m.insts.Keys)
    ensures Cleared(ApplyAll(old(m.Now()), replaced), m.Now(), Gone(replaced))
    ensures old(m.insts).Keys - m.insts.Keys == Gone(replaced)
    ensures Followed(text, ApplyAll(old(m.Now()), replaced), m.insts.Keys, replaced)
    ensures Thorough(text, old(m.Now()), m.Now(), InLists(old(m.blocks), ReachableBlocks(old(m.Now()))))
    ensures TextsDiffer(text) ==>
      var left := InLists(old(m.blocks), ReachableBlocks(old(m.Now()))) * m.insts.Keys;
      NoneRepeats(old(m.Now()), m.Now(), left, left)
  {
    hide Exact, Registry, BlockRegistry, WellPlaced, SSA, CfgOf, NumberingOf, TreeOfNumbering, ClimbTree, DfsTree,
      InverseOf, Dominates, Reachable, Matches, TrueTree,
      ReplacedOk, Lockstep, EdgesStayBelow, TreeExact, Apart, Blocks, Thorough, Followed, Cleared, ApplyAll, Gone,
      InLists, NoneRepeats, TextsDiffer;
    ghost var before := m.Now();
    var tree;
    ghost var cfg, num, t, ids;
    tree, cfg, num, t, ids := BodyDomTree(m);
    assert TreeBuiltOn(before, cfg, num, t, ids);
    TreeIsDfs(cfg, num, t);
    var root := WalkFrom(tree, tree.root, num.order, ids, 0);
    WalkableExactly(before, cfg, num, t, ids, root);
    ExactIsApart(before, root, num.order, ids, 0);
    RootHoldsAll(before, root, num.order, ids);
    assert Blocks(root) == ReachableBlocks(before) by { AllReached(before, num.order, Blocks(root)); }
    replaced := FuncGlobalGvn(m, text, root);
  }

  lemma AllReached(body: Body, order: seq<BlockId>, blocks: set<BlockId>)
    requires SSA(body) && (forall b :: b in order <==> Reachable(body, b)) && (forall b :: b in blocks <==> b in order)
    ensures blocks == ReachableBlocks(body)
  {
    SsaPlaced(body);
    hide SSA, WellPlaced, Reachable;
    forall b | b in blocks ensures b in body.blocks {
      ReachableExists(body, b);
    }
  }
}
