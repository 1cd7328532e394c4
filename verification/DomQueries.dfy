/** What the dominator tree is worth: its queries, when it is exact, and the frontiers read off it
    (src/ir/cfg.rs:203-253). */
module DomQueries {
  import opened Sequences
  import opened CoreInts
  import opened Ir
  import opened UseLists
  import opened ModuleCores
  import opened Semantics
  import opened Cfg
  import opened DomTrees

  // ---------------------------------------------------------------- what the tree is worth

  lemma {:induction false} AncestorPath(body: Body, cfg: ControlFlowGraph, num: Numbering, t: SearchTree, a: nat,
                                        j: nat)
    returns (path: seq<BlockId>)
    requires CfgOf(body, cfg) && TreeOfNumbering(cfg, num, t) && j < |t.par| && Anc(t, a, j)
    ensures a <= j && path != [] && path[0] == num.order[a] && path[|path| - 1] == num.order[j]
    ensures forall k :: 0 <= k < |path| - 1 ==> Edge(body, path[k], path[k + 1])
    ensures forall b :: b in path ==> exists k :: a <= k <= j && num.order[k] == b
    decreases j
  {
    hide Edge;
    if a == j {
      path := [num.order[j]];
    } else {
      var up := AncestorPath(body, cfg, num, t, a, t.par[j]);
      assert ParentAt(cfg, num, j, t.par[j]);
      path := up + [num.order[j]];
      forall b | b in path ensures exists k :: a <= k <= j && num.order[k] == b {
        if b in up {
          var k :| a <= k <= t.par[j] && num.order[k] == b;
        }
      }
    }
  }

  /** A true dominator is an ancestor in the search tree. */
  lemma DominatorIsAncestor(body: Body, cfg: ControlFlowGraph, num: Numbering, t: SearchTree, a: nat, j: nat)
    requires CfgOf(body, cfg) && NumberingOf(cfg, num) && TreeOfNumbering(cfg, num, t) && a < |t.par| && j < |t.par|
    requires Dominates(body, num.order[a], num.order[j])
    ensures Anc(t, a, j)
  {
    BelowEntry(cfg, num, t, j);
    TreeDominator(body, cfg, num, t, a, j);
  }

  lemma BelowEntry(cfg: ControlFlowGraph, num: Numbering, t: SearchTree, j: nat)
    requires NumberingOf(cfg, num) && TreeOfNumbering(cfg, num, t) && j < |t.par|
    ensures Anc(t, 0, j)
    decreases j
  {
    if j > 0 {
      BelowEntry(cfg, num, t, t.par[j]);
    }
  }

  lemma {:induction false} TreeDominator(body: Body, cfg: ControlFlowGraph, num: Numbering, t: SearchTree, a: nat,
                                         j: nat)
    requires CfgOf(body, cfg) && NumberingOf(cfg, num) && TreeOfNumbering(cfg, num, t) && a < |t.par| && j < |t.par|
    requires Dominates(body, num.order[a], num.order[j])
    ensures Anc(t, a, j)
    decreases j
  {
    NumberedOnce(cfg, num);
    EntryAlone(body, num.order[a]);
    if a != j && j != 0 {
      assert ParentAt(cfg, num, j, t.par[j]);
      assert num.order[a] != num.order[j];
      DominatesPredecessor(body, num.order[a], num.order[t.par[j]], num.order[j]);
      TreeDominator(body, cfg, num, t, a, t.par[j]);
    }
  }

  lemma EntryAlone(body: Body, a: BlockId)
    ensures Dominates(body, a, body.entry) ==> a == body.entry
  {
    assert PathTo(body, [body.entry], body.entry);
    assert Dominates(body, a, body.entry) ==> a in [body.entry];
  }

  /** A strict dominator of a block dominates the block's parent in the constructed tree. */
  lemma DominatesTreeParent(body: Body, cfg: ControlFlowGraph, num: Numbering, t: SearchTree, m: nat, a: nat, j: nat)
    requires CfgOf(body, cfg) && NumberingOf(cfg, num) && TreeOfNumbering(cfg, num, t) && a < |t.par|
    requires 1 <= j < |t.par| && a != j
    requires m < j && LeastClimb(t, j, m) && Dominates(body, num.order[a], num.order[j])
    ensures Dominates(body, num.order[a], num.order[m])
  {
    hide Edge, Reachable, CfgOf, NumberingOf, TreeOfNumbering, Dominates, Anc, Up, DfsTree;
    ParentIsAbove(body, cfg, num, t, m, a, j);
    if a == m {
      DominatesSelf(body, num.order[m]);
    } else {
      var down := AncestorPath(body, cfg, num, t, m, j);
      NumberedOnce(cfg, num);
      forall path | PathTo(body, path, num.order[m]) ensures num.order[a] in path {
        PathsJoin(body, path, down, num.order[m], num.order[j]);
        InJoined(body, num, a, m, j, path, down);
      }
      AllPathsDominate(body, num.order[a], num.order[m]);
    }
  }

  lemma ParentIsAbove(body: Body, cfg: ControlFlowGraph, num: Numbering, t: SearchTree, m: nat, a: nat, j: nat)
    requires CfgOf(body, cfg) && NumberingOf(cfg, num) && TreeOfNumbering(cfg, num, t) && a < |t.par|
    requires 1 <= j < |t.par| && a != j
    requires m < j && LeastClimb(t, j, m) && Dominates(body, num.order[a], num.order[j])
    ensures a <= m && Anc(t, m, j) && |num.order| == |t.par|
  {
    hide Edge, Reachable, CfgOf, NumberingOf, TreeOfNumbering, Dominates;
    assert DfsTree(t) && |num.order| == |t.par| by { TreeIsDfs(cfg, num, t); }
    var p :| p in t.preds[j] && m == Up(t, p, j + 1);
    PredIsEdge(body, cfg, num, t, p, j);
    NumberedOnce(cfg, num);
    assert num.order[a] != num.order[j];
    DominatesPredecessor(body, num.order[a], num.order[p], num.order[j]);
    DominatorIsAncestor(body, cfg, num, t, a, p);
    DominatorIsAncestor(body, cfg, num, t, a, j);
    hide Up;
    UpIsNearest(t, p, j + 1, a);
    ClimbLandsAbove(t, p, j);
  }

  lemma AllPathsDominate(body: Body, a: BlockId, b: BlockId)
    requires forall path :: PathTo(body, path, b) ==> a in path
    ensures Dominates(body, a, b)
  {
  }

  lemma PredIsEdge(body: Body, cfg: ControlFlowGraph, num: Numbering, t: SearchTree, p: nat, j: nat)
    requires CfgOf(body, cfg) && NumberingOf(cfg, num) && TreeOfNumbering(cfg, num, t) && j < |t.par| && p in t.preds[j]
    ensures p < |t.par| && Edge(body, num.order[p], num.order[j])
  {
    NumberedOnce(cfg, num);
    hide Edge;
  }

  lemma PathsJoin(body: Body, path: seq<BlockId>, down: seq<BlockId>, mid: BlockId, b: BlockId)
    requires PathTo(body, path, mid) && down != [] && down[0] == mid && down[|down| - 1] == b
    requires forall k :: 0 <= k < |down| - 1 ==> Edge(body, down[k], down[k + 1])
    ensures PathTo(body, path + down[1..], b)
  {
    hide Edge;
    var all := path + down[1..];
    forall i | 0 <= i < |all| - 1 ensures Edge(body, all[i], all[i + 1]) {
      if i >= |path| - 1 {
        var k := i - (|path| - 1);
        assert Edge(body, down[k], down[k + 1]);
        assert all[i] == down[k] && all[i + 1] == down[k + 1];
      }
    }
  }

  lemma InJoined(body: Body, num: Numbering, a: nat, m: nat, j: nat, path: seq<BlockId>, down: seq<BlockId>)
    requires down != [] && Distinct(num.order) && a < m <= j < |num.order|
    requires Dominates(body, num.order[a], num.order[j]) && PathTo(body, path + down[1..], num.order[j])
    requires forall b :: b in down ==> exists k :: m <= k <= j && num.order[k] == b
    ensures num.order[a] in path
  {
    assert num.order[a] in path + down[1..];
    assert forall k :: m <= k <= j ==> num.order[k] != num.order[a];
    assert num.order[a] !in down;
  }

  // ---------------------------------------------------------------- chains of parents

  /** Numbers fall along parents, towards number 0. */
  ghost predicate Falling(ids: seq<nat>) {
    |ids| > 0 && ids[0] == 0 && forall i :: 1 <= i < |ids| ==> ids[i] < i
  }

  /** a is j, or above it in the tree whose parents are ids. */
  ghost predicate Above(ids: seq<nat>, a: nat, j: nat)
    requires Falling(ids)
    decreases j
  {
    a == j || (1 <= j < |ids| && Above(ids, a, ids[j]))
  }

  lemma {:induction false} RootAbove(ids: seq<nat>, j: nat)
    requires Falling(ids) && j < |ids|
    ensures Above(ids, 0, j)
    decreases j
  {
    if j > 0 {
      RootAbove(ids, ids[j]);
    }
  }

  lemma {:induction false} AboveFalls(ids: seq<nat>, a: nat, j: nat)
    requires Falling(ids) && j < |ids| && Above(ids, a, j)
    ensures a <= j
    decreases j
  {
    if a != j {
      AboveFalls(ids, a, ids[j]);
    }
  }

  lemma {:induction false} AboveTransitive(ids: seq<nat>, a: nat, b: nat, c: nat)
    requires Falling(ids) && Above(ids, a, b) && Above(ids, b, c)
    ensures Above(ids, a, c)
    decreases c
  {
    if b != c {
      AboveTransitive(ids, a, b, ids[c]);
    }
  }

  // ---------------------------------------------------------------- queries

  /** Walks up the tree; it ends because numbers fall towards the root. */
  method QueryDominates(tree: DominatorTree, a: BlockId, b: BlockId, ghost order: seq<BlockId>, ghost ids: seq<nat>)
    returns (yes: bool)
    requires Distinct(order) && Repr(order, tree.idom, ids) && Falling(ids) && order[0] == tree.root
    requires b in order
    ensures yes <==> exists k: nat, j: nat ::
      k < |order| && j < |order| && order[k] == a && order[j] == b && Above(ids, k, j)
  {
    ghost var start: nat :| start < |order| && order[start] == b;
    if a == tree.root {
      RootAbove(ids, start);
      return true;
    }
    var current := b;
    ghost var j: nat := start;
    while current != tree.root
      invariant j < |order| && order[j] == current
      invariant forall k: nat :: k < |order| && order[k] == a ==> Above(ids, k, j) == Above(ids, k, start)
      decreases j
    {
      if current == a {
        assert Above(ids, j, start);
        return true;
      }
      current := tree.idom[current];
      j := ids[j];
    }
    assert j == 0;
    assert forall i :: 0 <= i < |order| && order[i] == b ==> i == start;
    return false;
  }

  /** A true dominator is above the block in the tree. */
  lemma {:induction false} DominatorAbove(body: Body, cfg: ControlFlowGraph, num: Numbering, t: SearchTree,
                                          ids: seq<nat>, a: nat, j: nat)
    requires CfgOf(body, cfg) && NumberingOf(cfg, num) && TreeOfNumbering(cfg, num, t) && ClimbTree(t, ids)
    requires a < |num.order| && j < |num.order| && Dominates(body, num.order[a], num.order[j])
    ensures Falling(ids) && Above(ids, a, j)
    decreases j
  {
    hide Dominates, CfgOf, NumberingOf, TreeOfNumbering, LeastClimb, Anc, Up, DfsTree;
    assert DfsTree(t) && |t.par| == |num.order| by { TreeIsDfs(cfg, num, t); }
    ClimbsFall(t, ids);
    NumberedFirst(cfg, num);
    NumberedOnce(cfg, num);
    EntryAlone(body, num.order[a]);
    EntryNumber(body, cfg, num);
    if j == 0 {
      assert num.order[a] == num.order[0];
    } else if a != j {
      DominatesTreeParent(body, cfg, num, t, ids[j], a, j);
      DominatorAbove(body, cfg, num, t, ids, a, ids[j]);
    }
  }

  lemma ClimbsFall(t: SearchTree, ids: seq<nat>)
    requires DfsTree(t) && ClimbTree(t, ids)
    ensures Falling(ids) && |ids| == |t.par|
  {
  }

  // ---------------------------------------------------------------- when a parent dominates

  /** A way to j on numbers strictly inside m's subtree. */
  ghost predicate InsideWay(t: SearchTree, m: nat, way: seq<nat>, j: nat)
    requires DfsTree(t) && m < |t.par|
  {
    && way != [] && way[|way| - 1] == j
    && (forall k :: 0 <= k < |way| ==> m < way[k] < t.end[m])
    && (forall k :: 0 <= k < |way| - 1 ==> StepOn(t, way[k], way[k + 1]))
  }

  ghost predicate StepOn(t: SearchTree, p: nat, v: nat)
    requires DfsTree(t)
  {
    v < |t.par| && p in t.preds[v]
  }

  /** Control can come into m's subtree past m, and from there on to j. */
  ghost predicate SideEntered(t: SearchTree, m: nat, j: nat)
    requires DfsTree(t) && m < |t.par|
  {
    exists way: seq<nat>, p: nat :: InsideWay(t, m, way, j) && StepOn(t, p, way[0]) && !(m <= p < t.end[m])
  }

  /** A side entry gives a path that misses m. */
  lemma RoundAbout(body: Body, cfg: ControlFlowGraph, num: Numbering, t: SearchTree, m: nat, way: seq<nat>, p: nat,
                   j: nat)
    returns (path: seq<BlockId>)
    requires CfgOf(body, cfg) && NumberingOf(cfg, num) && TreeOfNumbering(cfg, num, t) && m < |t.par| && m < j < |t.par|
    requires InsideWay(t, m, way, j) && StepOn(t, p, way[0]) && !(m <= p < t.end[m])
    ensures PathTo(body, path, num.order[j]) && num.order[m] !in path
  {
    hide Edge, CfgOf, NumberingOf, TreeOfNumbering, PathTo, Anc;
    TreeIsDfs(cfg, num, t);
    PredIsEdge(body, cfg, num, t, p, way[0]);
    path := WayFromEntry(body, cfg, num, t, p, m);
    path := FollowWay(body, cfg, num, t, m, way, p, path, |way|);
  }

  /** Down the tree to p, past everything that is not above p. */
  lemma {:induction false} WayFromEntry(body: Body, cfg: ControlFlowGraph, num: Numbering, t: SearchTree, p: nat,
                                        m: nat)
    returns (path: seq<BlockId>)
    requires CfgOf(body, cfg) && NumberingOf(cfg, num) && TreeOfNumbering(cfg, num, t) && p < |t.par| && m < |t.par|
    requires !(m <= p < t.end[m])
    ensures PathTo(body, path, num.order[p]) && num.order[m] !in path
    decreases p
  {
    hide Edge, CfgOf, NumberingOf, TreeOfNumbering;
    TreeIsDfs(cfg, num, t);
    NumberedFirst(cfg, num);
    NumberedOnce(cfg, num);
    EntryNumber(body, cfg, num);
    if p == 0 {
      path := [num.order[0]];
    } else {
      ParentEdge(body, cfg, num, t, p);
      path := WayFromEntry(body, cfg, num, t, t.par[p], m);
      PathExtends(body, path, num.order[t.par[p]], num.order[p]);
      path := path + [num.order[p]];
    }
  }

  lemma ParentEdge(body: Body, cfg: ControlFlowGraph, num: Numbering, t: SearchTree, p: nat)
    requires CfgOf(body, cfg) && TreeOfNumbering(cfg, num, t) && 1 <= p < |t.par|
    ensures t.par[p] < p && Edge(body, num.order[t.par[p]], num.order[p])
    ensures forall m: nat :: m < |t.par| && m <= t.par[p] < t.end[m] ==> p < t.end[m]
  {
    hide Edge;
    assert ParentAt(cfg, num, p, t.par[p]);
    forall m: nat | m < |t.par| && m <= t.par[p] < t.end[m] ensures p < t.end[m] {
      assert p < t.end[t.par[p]];
      if m < t.par[p] {
        assert t.end[t.par[p]] <= t.end[m];
      }
    }
  }

  /** On from p along the first k steps of a way. */
  lemma {:induction false} FollowWay(body: Body, cfg: ControlFlowGraph, num: Numbering, t: SearchTree, m: nat,
                                     way: seq<nat>, p: nat, start: seq<BlockId>, k: nat)
    returns (path: seq<BlockId>)
    requires CfgOf(body, cfg) && NumberingOf(cfg, num) && TreeOfNumbering(cfg, num, t) && m < |t.par| && way != []
    requires 1 <= k <= |way|
    requires InsideWay(t, m, way, way[|way| - 1]) && StepOn(t, p, way[0]) && p < |t.par|
    requires PathTo(body, start, num.order[p]) && num.order[m] !in start
    ensures way[k - 1] < |num.order| && PathTo(body, path, num.order[way[k - 1]]) && num.order[m] !in path
    decreases k
  {
    hide Edge, CfgOf, NumberingOf, TreeOfNumbering, PathTo;
    TreeIsDfs(cfg, num, t);
    NumberedOnce(cfg, num);
    var before, last := start, p;
    if k > 1 {
      before := FollowWay(body, cfg, num, t, m, way, p, start, k - 1);
      last := way[k - 2];
      assert StepOn(t, way[k - 2], way[k - 2 + 1]);
    }
    PredIsEdge(body, cfg, num, t, last, way[k - 1]);
    PathExtends(body, before, num.order[last], num.order[way[k - 1]]);
    path := before + [num.order[way[k - 1]]];
  }

  /** A path that misses m gets into m's subtree from the side. */
  lemma {:induction false} LastEntry(body: Body, cfg: ControlFlowGraph, num: Numbering, t: SearchTree, m: nat, j: nat,
                                     path: seq<BlockId>)
    returns (way: seq<nat>, p: nat)
    requires CfgOf(body, cfg) && NumberingOf(cfg, num) && TreeOfNumbering(cfg, num, t) && m < |t.par| && m < j < |t.par|
    requires j < t.end[m]
    requires PathTo(body, path, num.order[j]) && num.order[m] !in path
    ensures InsideWay(t, m, way, j) && StepOn(t, p, way[0]) && !(m <= p < t.end[m])
    decreases |path|
  {
    hide Edge, CfgOf, NumberingOf, TreeOfNumbering;
    TreeIsDfs(cfg, num, t);
    NumberedFirst(cfg, num);
    NumberedOnce(cfg, num);
    EntryNumber(body, cfg, num);
    var n := |path|;
    if n == 1 {
      assert false;
    } else {
      PathPrefix(body, path, n - 2);
      assert Edge(body, path[n - 2], path[n - 2 + 1]);
      assert path[n - 2] in path;
      var q := EdgeIsPred(body, cfg, num, t, path[..n - 2 + 1], path[n - 2], j);
      assert q != m;
      if m < q < t.end[m] {
        way, p := LastEntry(body, cfg, num, t, m, q, path[..n - 2 + 1]);
        way := way + [j];
      } else {
        way, p := [j], q;
      }
    }
  }

  /** What an edge comes from has a number, among the target's predecessors. */
  lemma EdgeIsPred(body: Body, cfg: ControlFlowGraph, num: Numbering, t: SearchTree, path: seq<BlockId>, b: BlockId,
                   j: nat)
    returns (q: nat)
    requires CfgOf(body, cfg) && NumberingOf(cfg, num) && TreeOfNumbering(cfg, num, t) && j < |t.par|
    requires PathTo(body, path, b) && Edge(body, b, num.order[j])
    ensures q < |num.order| && num.order[q] == b && StepOn(t, q, j)
  {
    hide Edge;
    ReachableNumbered(body, cfg, num, path, b);
    q :| q < |num.order| && num.order[q] == b;
  }

  /** A block dominates one below it in the search tree exactly when nothing inside its subtree from
      which that block is reached inside can be entered from the side. */
  lemma AncestorDominatesExactly(body: Body, cfg: ControlFlowGraph, num: Numbering, t: SearchTree, m: nat, j: nat)
    requires CfgOf(body, cfg) && NumberingOf(cfg, num) && TreeOfNumbering(cfg, num, t) && m < j < |t.par|
    requires Anc(t, m, j)
    ensures Dominates(body, num.order[m], num.order[j]) <==> !SideEntered(t, m, j)
  {
    hide Edge, CfgOf, NumberingOf, PathTo, Anc;
    TreeIsDfs(cfg, num, t);
    BelowIsInterval(t, m, j);
    hide TreeOfNumbering, DfsTree;
    if way: seq<nat>, p: nat :| InsideWay(t, m, way, j) && StepOn(t, p, way[0]) && !(m <= p < t.end[m]) {
      var path := RoundAbout(body, cfg, num, t, m, way, p, j);
    }
    if path :| PathTo(body, path, num.order[j]) && num.order[m] !in path {
      var way, p := LastEntry(body, cfg, num, t, m, j, path);
    }
  }

  /** So the tree parent the construction gives a block dominates it exactly when no side entry into
      the parent's subtree reaches the block past the parent. */
  lemma ParentDominatesExactly(body: Body, cfg: ControlFlowGraph, num: Numbering, t: SearchTree, ids: seq<nat>, j: nat)
    requires CfgOf(body, cfg) && NumberingOf(cfg, num) && TreeOfNumbering(cfg, num, t) && ClimbTree(t, ids)
    requires 1 <= j < |t.par|
    ensures Dominates(body, num.order[ids[j]], num.order[j]) <==> !SideEntered(t, ids[j], j)
  {
    hide Dominates, CfgOf, NumberingOf, TreeOfNumbering, SideEntered, Up;
    TreeIsDfs(cfg, num, t);
    ClimbIsAbove(t, j, ids[j]);
    AncestorDominatesExactly(body, cfg, num, t, ids[j], j);
  }

  lemma ClimbIsAbove(t: SearchTree, j: nat, m: nat)
    requires DfsTree(t) && 1 <= j < |t.par| && LeastClimb(t, j, m)
    ensures Anc(t, m, j)
  {
    var p :| p in t.preds[j] && m == Up(t, p, j + 1);
    ClimbLandsAbove(t, p, j);
  }

  // ---------------------------------------------------------------- when the whole tree is the dominator tree

  /** Every edge leaves from at or below the target's parent in the tree. */
  ghost predicate EdgesStayBelow(t: SearchTree, ids: seq<nat>)
    requires DfsTree(t) && ClimbTree(t, ids)
  {
    ClimbsFall(t, ids);
    forall v: nat, p: nat :: 1 <= v < |t.par| && StepOn(t, p, v) ==> Above(ids, ids[v], p)
  }

  ghost predicate TreeExact(body: Body, order: seq<BlockId>, ids: seq<nat>)
    requires Falling(ids)
  {
    forall a: nat, j: nat :: a < |order| && j < |order| ==> (Dominates(body, order[a], order[j]) <==> Above(ids, a, j))
  }

  ghost predicate ParentsDominate(body: Body, order: seq<BlockId>, ids: seq<nat>) {
    |ids| == |order| && forall j :: 1 <= j < |order| ==> ids[j] < |order| && Dominates(body, order[ids[j]], order[j])
  }

  lemma {:induction false} ChainOnPath(body: Body, cfg: ControlFlowGraph, num: Numbering, t: SearchTree, ids: seq<nat>,
                                       a: nat, j: nat, path: seq<BlockId>)
    requires CfgOf(body, cfg) && NumberingOf(cfg, num) && TreeOfNumbering(cfg, num, t) && ClimbTree(t, ids)
    requires EdgesStayBelow(t, ids)
    requires Falling(ids) && j < |t.par| && Above(ids, a, j) && PathTo(body, path, num.order[j])
    ensures a < |num.order| && num.order[a] in path
    decreases |path|
  {
    hide Edge, CfgOf, NumberingOf, TreeOfNumbering, LeastClimb;
    TreeIsDfs(cfg, num, t);
    NumberedFirst(cfg, num);
    NumberedOnce(cfg, num);
    EntryNumber(body, cfg, num);
    AboveFalls(ids, a, j);
    var n := |path|;
    if a == j {
      assert path[n - 1] in path;
    } else if n == 1 {
      assert false;
    } else {
      PathPrefix(body, path, n - 2);
      assert Edge(body, path[n - 2], path[n - 2 + 1]);
      var q := EdgeIsPred(body, cfg, num, t, path[..n - 2 + 1], path[n - 2], j);
      AboveTransitive(ids, a, ids[j], q);
      ChainOnPath(body, cfg, num, t, ids, a, q, path[..n - 2 + 1]);
      assert forall b :: b in path[..n - 2 + 1] ==> b in path;
    }
  }

  lemma StaysBelowIsExact(body: Body, cfg: ControlFlowGraph, num: Numbering, t: SearchTree, ids: seq<nat>)
    requires CfgOf(body, cfg) && NumberingOf(cfg, num) && TreeOfNumbering(cfg, num, t) && ClimbTree(t, ids)
    requires EdgesStayBelow(t, ids) && Falling(ids)
    ensures TreeExact(body, num.order, ids)
  {
    hide CfgOf, NumberingOf, TreeOfNumbering, ClimbTree, EdgesStayBelow, PathTo, DfsTree, Above;
    TreeIsDfs(cfg, num, t);
    forall a: nat, j: nat | a < |num.order| && j < |num.order|
      ensures Dominates(body, num.order[a], num.order[j]) <==> Above(ids, a, j)
    {
      if Dominates(body, num.order[a], num.order[j]) {
        DominatorAbove(body, cfg, num, t, ids, a, j);
      }
      if Above(ids, a, j) {
        forall path | PathTo(body, path, num.order[j]) ensures num.order[a] in path {
          ChainOnPath(body, cfg, num, t, ids, a, j, path);
        }
      }
    }
  }

  lemma ParentsKeepEdges(body: Body, cfg: ControlFlowGraph, num: Numbering, t: SearchTree, ids: seq<nat>)
    requires CfgOf(body, cfg) && NumberingOf(cfg, num) && TreeOfNumbering(cfg, num, t) && ClimbTree(t, ids)
    requires ParentsDominate(body, num.order, ids)
    ensures EdgesStayBelow(t, ids)
  {
    hide CfgOf, NumberingOf, TreeOfNumbering, LeastClimb, Dominates, Edge, DfsTree, Above;
    TreeIsDfs(cfg, num, t);
    ClimbsFall(t, ids);
    NumberedOnce(cfg, num);
    forall v: nat, p: nat | 1 <= v < |t.par| && StepOn(t, p, v) ensures Above(ids, ids[v], p) {
      PredIsEdge(body, cfg, num, t, p, v);
      assert num.order[ids[v]] != num.order[v];
      DominatesPredecessor(body, num.order[ids[v]], num.order[p], num.order[v]);
      DominatorAbove(body, cfg, num, t, ids, ids[v], p);
    }
  }

  /** The tree is the dominator tree exactly when every edge leaves from at or below its target's
      parent; and that is exactly when every parent dominates its children. */
  lemma TreeExactly(body: Body, cfg: ControlFlowGraph, num: Numbering, t: SearchTree, ids: seq<nat>)
    requires CfgOf(body, cfg) && NumberingOf(cfg, num) && TreeOfNumbering(cfg, num, t) && ClimbTree(t, ids)
    requires Falling(ids)
    ensures TreeExact(body, num.order, ids) <==> EdgesStayBelow(t, ids)
    ensures ParentsDominate(body, num.order, ids) <==> EdgesStayBelow(t, ids)
  {
    hide CfgOf, NumberingOf, TreeOfNumbering, LeastClimb, Dominates, EdgesStayBelow;
    TreeIsDfs(cfg, num, t);
    if EdgesStayBelow(t, ids) {
      StaysBelowIsExact(body, cfg, num, t, ids);
    }
    if TreeExact(body, num.order, ids) {
      forall j: nat | 1 <= j < |num.order|
        ensures ids[j] < |num.order| && Dominates(body, num.order[ids[j]], num.order[j])
      {
        assert Above(ids, ids[j], j);
      }
    }
    if ParentsDominate(body, num.order, ids) {
      ParentsKeepEdges(body, cfg, num, t, ids);
    }
  }

  lemma EntryNumber(body: Body, cfg: ControlFlowGraph, num: Numbering)
    requires CfgOf(body, cfg) && NumberingOf(cfg, num)
    ensures body.entry == num.order[0]
  {
  }

  lemma CfgMirrors(body: Body, cfg: ControlFlowGraph, num: Numbering)
    requires CfgOf(body, cfg) && NumberingOf(cfg, num) && WellPlaced(body)
    ensures Mirrored(cfg, num)
  {
    hide Edge;
    forall b | b in num.order ensures b in cfg.preds {
      NumberedExactlyReachable(body, cfg, num, b);
      ReachableExists(body, b);
    }
    forall i, j | 0 <= i < |num.order| && 0 <= j < |num.order|
      ensures num.order[i] in cfg.preds[num.order[j]] <==> IsSucc(cfg, num.order[i], num.order[j])
    {
      NumberedExactlyReachable(body, cfg, num, num.order[i]);
      ReachableExists(body, num.order[i]);
    }
  }

  lemma ReachableExists(body: Body, b: BlockId)
    requires WellPlaced(body) && Reachable(body, b)
    ensures b in body.blocks
  {
    var path :| PathTo(body, path, b);
    if |path| > 1 {
      var p := path[|path| - 2];
      assert Edge(body, path[|path| - 2], path[|path| - 2 + 1]);
      TargetsAreEdges(body, p, b);
      TargetsExist(body, p);
    }
  }

  /** The tree of a body's own graph: over exactly the reachable blocks, with numbers falling towards
      the root. Every true dominator of a block is above it. A block's parent dominates it exactly
      when no side entry into the parent's subtree reaches it past the parent; and the tree is the
      dominator tree exactly when every edge leaves from at or below its target's parent. */
  method BodyDomTree(m: ModuleCore)
    returns (tree: DominatorTree, ghost cfg: ControlFlowGraph, ghost num: Numbering, ghost t: SearchTree,
             ghost ids: seq<nat>)
    requires m.Valid()
    ensures CfgOf(m.Now(), cfg) && NumberingOf(cfg, num) && TreeOfNumbering(cfg, num, t) && ClimbTree(t, ids)
    ensures Distinct(num.order) && (forall b :: b in num.order <==> Reachable(m.Now(), b)) && |num.order| > 0
    ensures num.order[0] == m.entry == tree.root
    ensures Repr(num.order, tree.idom, ids) && Falling(ids) && InverseOf(tree.children, tree.idom)
    ensures forall a: nat, j: nat ::
      a < |num.order| && j < |num.order| && Dominates(m.Now(), num.order[a], num.order[j]) ==> Above(ids, a, j)
    ensures forall j :: 1 <= j < |num.order| ==>
      (Dominates(m.Now(), num.order[ids[j]], num.order[j]) <==> !SideEntered(t, ids[j], j))
    ensures TreeExact(m.Now(), num.order, ids) <==> EdgesStayBelow(t, ids)
  {
    hide Exact, Registry, BlockRegistry, WellPlaced, NumberingOf, Mirrored, CfgOf, InverseOf, TreeOfNumbering,
      Dominates, Reachable, DfsTree, SideEntered, EdgesStayBelow, TreeExact;
    ghost var body := m.Now();
    var graph := BuildCfg(m);
    cfg := graph;
    forall n: Numbering | NumberingOf(cfg, n) ensures Mirrored(cfg, n) {
      CfgMirrors(body, cfg, n);
    }
    tree, num, t, ids := BuildDomTree(graph);
    NumberedOnce(cfg, num);
    NumberedFirst(cfg, num);
    EntryNumber(body, cfg, num);
    TreeIsDfs(cfg, num, t);
    TreeClimbs(num.order, t, tree.idom, ids);
    ClimbsFall(t, ids);
    forall b ensures b in num.order <==> Reachable(body, b) {
      NumberedExactlyReachable(body, cfg, num, b);
    }
    forall a: nat, j: nat | a < |num.order| && j < |num.order| && Dominates(body, num.order[a], num.order[j])
      ensures Above(ids, a, j)
    {
      DominatorAbove(body, cfg, num, t, ids, a, j);
    }
    forall j: nat | 1 <= j < |num.order|
      ensures Dominates(body, num.order[ids[j]], num.order[j]) <==> !SideEntered(t, ids[j], j)
    {
      ParentDominatesExactly(body, cfg, num, t, ids, j);
    }
    TreeExactly(body, cfg, num, t, ids);
  }

  lemma TreeClimbs(order: seq<BlockId>, t: SearchTree, idom: Links, ids: seq<nat>)
    requires TreeFor(order, t, idom, ids)
    ensures DfsTree(t) && ClimbTree(t, ids) && Repr(order, idom, ids)
  {
    hide DfsTree;
  }

  // ---------------------------------------------------------------- the frontier

  /** The blocks a runner visits from number p upwards before it meets `stop` or has visited the root. */
  ghost predicate Runs(ids: seq<nat>, p: nat, stop: nat, x: nat)
    requires Falling(ids)
    decreases p
  {
    p < |ids| && p != stop && (x == p || (ids[p] < p && Runs(ids, ids[p], stop, x)))
  }

  /** x is above p, and not above `stop` when p is below `stop`. */
  ghost predicate Passed(ids: seq<nat>, p: nat, stop: nat, x: nat)
    requires Falling(ids)
  {
    Above(ids, x, p) && !(Above(ids, stop, p) && Above(ids, x, stop))
  }

  lemma {:induction false} RunsExactly(ids: seq<nat>, p: nat, stop: nat, x: nat)
    requires Falling(ids) && p < |ids|
    ensures Runs(ids, p, stop, x) <==> Passed(ids, p, stop, x)
    decreases p
  {
    if p != stop {
      if x == p && Above(ids, stop, p) && Above(ids, x, stop) {
        AboveFalls(ids, stop, p);
        AboveFalls(ids, x, stop);
      }
      if p > 0 {
        RunsExactly(ids, ids[p], stop, x);
      }
    }
  }

  /** Adds one block to the frontiers of everything a runner visits. */
  method RunFrontier(block: BlockId, pred: BlockId, stop: BlockId, idom: Links, frontier: Buckets,
                     ghost order: seq<BlockId>, ghost ids: seq<nat>, ghost p: nat,
                       ghost s: nat) returns (frontier': Buckets)
    requires Distinct(order) && Repr(order, idom, ids) && Falling(ids)
    requires p < |order| && order[p] == pred && s < |order| && order[s] == stop
    ensures forall x: nat :: x < |order| ==>
      (Listed(frontier', order[x], block) <==> Listed(frontier, order[x], block) || Passed(ids, p, s, x))
    ensures forall x, y :: y != block || x !in order ==> (Listed(frontier', x, y) <==> Listed(frontier, x, y))
  {
    frontier' := frontier;
    var runner := pred;
    ghost var r: nat := p;
    while runner != stop
      invariant r < |order| && order[r] == runner
      invariant forall x: nat :: x < |order| ==>
        (Listed(frontier', order[x], block) || Runs(ids, r, s, x) <==>
        Listed(frontier, order[x], block) || Runs(ids, p, s, x))
      invariant forall x, y :: y != block || x !in order ==> (Listed(frontier', x, y) <==> Listed(frontier, x, y))
      decreases r
    {
      ghost var before := frontier';
      frontier' := AddTo(frontier', runner, block);
      assert forall x, y :: Listed(frontier', x, y) <==> Listed(before, x, y) || (x == runner && y == block);
      var next := idom[runner];
      if next != runner {
        runner := next;
        r := ids[r];
      } else {
        assert ids[r] == r;
        break;
      }
    }
    forall x: nat | x < |order| ensures Runs(ids, p, s, x) <==> Passed(ids, p, s, x) {
      RunsExactly(ids, p, s, x);
    }
  }

  ghost predicate Listed(f: Buckets, x: BlockId, y: BlockId) {
    x in f && y in f[x]
  }

  /** x is above some predecessor, past the block's own parent. */
  ghost predicate PassedFrom(order: seq<BlockId>, ids: seq<nat>, preds: set<BlockId>, stop: nat, x: nat)
    requires Falling(ids)
  {
    exists p: nat :: p < |order| && order[p] in preds && Passed(ids, p, stop, x)
  }

  /** One block's contribution to the frontiers. */
  method FrontierOf(block: BlockId, preds: set<BlockId>, idom: Links, frontier: Buckets, ghost order: seq<BlockId>,
                    ghost ids: seq<nat>, ghost s: nat)
    returns (frontier': Buckets)
    requires Distinct(order) && Repr(order, idom, ids) && Falling(ids) && s < |order| && block in idom
    requires idom[block] == order[s]
    ensures forall x: nat :: x < |order| ==>
      (Listed(frontier', order[x], block) <==> Listed(frontier, order[x], block) || PassedFrom(order, ids, preds, s, x))
    ensures forall x, y :: y != block || x !in order ==> (Listed(frontier', x, y) <==> Listed(frontier, x, y))
  {
    hide Passed;
    frontier' := frontier;
    var todo := preds;
    while todo != {}
      invariant todo <= preds
      invariant forall x: nat :: x < |order| ==>
        (Listed(frontier', order[x], block) <==>
        Listed(frontier, order[x], block) || PassedFrom(order, ids, preds - todo, s, x))
      invariant forall x, y :: y != block || x !in order ==> (Listed(frontier', x, y) <==> Listed(frontier, x, y))
      decreases todo
    {
      var pred :| pred in todo;
      ghost var before := frontier';
      if pred in idom {
        ghost var p: nat :| p < |order| && order[p] == pred;
        frontier' := RunFrontier(block, pred, idom[block], idom, frontier', order, ids, p, s);
        forall x: nat | x < |order|
          ensures PassedFrom(order, ids, preds - (todo - {pred}), s, x) <==>
            PassedFrom(order, ids, preds - todo, s, x) || Passed(ids, p, s, x)
        {
          RunnerMore(order, ids, preds - todo, pred, p, s, x);
          assert preds - (todo - {pred}) == preds - todo + {pred};
        }
      } else {
        assert forall p: nat :: p < |order| && order[p] in preds - (todo - {pred}) ==> order[p] in preds - todo;
      }
      todo := todo - {pred};
    }
    assert preds - todo == preds;
  }

  lemma RunnerMore(order: seq<BlockId>, ids: seq<nat>, done: set<BlockId>, pred: BlockId, p: nat, s: nat, x: nat)
    requires Distinct(order) && p < |order| && order[p] == pred && Falling(ids)
    ensures PassedFrom(order, ids, done + {pred}, s, x) <==> PassedFrom(order, ids, done, s, x) || Passed(ids, p, s, x)
  {
    hide Passed;
    if Passed(ids, p, s, x) {
      assert order[p] in done + {pred};
    }
  }

  /** y joins several edges, and x is above one of its predecessors but not above y's parent. */
  ghost predicate InFrontier(cfg: ControlFlowGraph, order: seq<BlockId>, ids: seq<nat>, x: nat, y: BlockId)
    requires Falling(ids) && |ids| == |order|
  {
    exists j: nat :: j < |order| && order[j] == y && y in cfg.preds && |cfg.preds[y]| >= 2
      && PassedFrom(order, ids, cfg.preds[y], ids[j], x)
  }

  /** The runners fill in exactly the frontiers of the tree. */
  method BuildDomFrontier(cfg: ControlFlowGraph, tree: DominatorTree, ghost order: seq<BlockId>, ghost ids: seq<nat>)
    returns (frontier: Buckets)
    requires Distinct(order) && Repr(order, tree.idom, ids) && Falling(ids) && forall b :: b in order ==> b in cfg.preds
    ensures forall x: nat, y :: x < |order| ==> (Listed(frontier, order[x], y) <==> InFrontier(cfg, order, ids, x, y))
  {
    hide PassedFrom, InFrontier, Listed;
    frontier := map[];
    var todo := tree.idom.Keys;
    FrontierStart(cfg, order, ids, todo);
    while todo != {}
      invariant todo <= tree.idom.Keys && FrontierSoFar(cfg, order, ids, todo, frontier)
      decreases todo
    {
      hide FrontierSoFar;
      var block :| block in todo;
      ghost var j: nat :| j < |order| && order[j] == block;
      ghost var before := frontier;
      if |cfg.preds[block]| >= 2 {
        frontier := FrontierOf(block, cfg.preds[block], tree.idom, frontier, order, ids, ids[j]);
      }
      FrontierStep(cfg, order, ids, todo, before, frontier, block, j);
      todo := todo - {block};
    }
  }

  /** The frontiers filled in by the blocks already looked at. */
  ghost predicate FrontierSoFar(cfg: ControlFlowGraph, order: seq<BlockId>, ids: seq<nat>, todo: set<BlockId>,
                                frontier: Buckets)
    requires Falling(ids) && |ids| == |order|
  {
    forall x: nat, y :: x < |order| ==>
      (Listed(frontier, order[x], y) <==> y !in todo && InFrontier(cfg, order, ids, x, y))
  }

  lemma FrontierStart(cfg: ControlFlowGraph, order: seq<BlockId>, ids: seq<nat>, todo: set<BlockId>)
    requires Falling(ids) && |ids| == |order| && forall b :: b in order ==> b in todo
    ensures FrontierSoFar(cfg, order, ids, todo, map[])
  {
    hide PassedFrom;
    forall x: nat, y | x < |order| && InFrontier(cfg, order, ids, x, y) ensures y in todo {
      assert y in order;
    }
  }

  lemma FrontierStep(cfg: ControlFlowGraph, order: seq<BlockId>, ids: seq<nat>, todo: set<BlockId>, before: Buckets,
                     after: Buckets, block: BlockId, j: nat)
    requires Falling(ids) && |ids| == |order| && Distinct(order) && j < |order| && order[j] == block && block in todo
    requires block in cfg.preds
    requires FrontierSoFar(cfg, order, ids, todo, before)
    requires |cfg.preds[block]| < 2 ==> after == before
    requires |cfg.preds[block]| >= 2 ==> forall x: nat :: x < |order| ==>
      (Listed(after, order[x], block) <==>
        Listed(before, order[x], block) || PassedFrom(order, ids, cfg.preds[block], ids[j], x))
    requires forall x, y :: y != block || x !in order ==> (Listed(after, x, y) <==> Listed(before, x, y))
    ensures FrontierSoFar(cfg, order, ids, todo - {block}, after)
  {
    hide PassedFrom, Listed;
    forall x: nat, y | x < |order|
      ensures Listed(after, order[x], y) <==> y !in todo - {block} && InFrontier(cfg, order, ids, x, y)
    {
      if y == block {
        FrontierMember(cfg, order, ids, x, block, j);
        hide InFrontier;
      } else {
        hide InFrontier;
      }
    }
  }

  lemma FrontierMember(cfg: ControlFlowGraph, order: seq<BlockId>, ids: seq<nat>, x: nat, block: BlockId, j: nat)
    requires Falling(ids) && |ids| == |order| && Distinct(order) && j < |order| && order[j] == block
    requires block in cfg.preds
    ensures InFrontier(cfg, order, ids, x, block) <==>
      |cfg.preds[block]| >= 2 && PassedFrom(order, ids, cfg.preds[block], ids[j], x)
  {
    hide PassedFrom;
    assert forall i: nat :: i < |order| && order[i] == block ==> i == j;
  }

  /** The dominance frontier: control can leave what a dominates along an edge to y. */
  ghost predicate DominanceFrontier(body: Body, a: BlockId, y: BlockId) {
    exists p :: LeavesAt(body, a, p, y)
  }

  ghost predicate LeavesAt(body: Body, a: BlockId, p: BlockId, y: BlockId) {
    Reachable(body, p) && Edge(body, p, y) && Dominates(body, a, p) && !(a != y && Dominates(body, a, y))
  }

  /** Where the tree is the dominator tree, what the runners fill in is the dominance frontier of
      every block other than the entry. */
  lemma FrontierIsDominanceFrontier(body: Body, cfg: ControlFlowGraph, num: Numbering, t: SearchTree, ids: seq<nat>,
                                    x: nat, j: nat)
    requires CfgOf(body, cfg) && NumberingOf(cfg, num) && TreeOfNumbering(cfg, num, t) && ClimbTree(t, ids)
    requires Falling(ids)
    requires EdgesStayBelow(t, ids) && |ids| == |num.order| && x < |num.order| && 1 <= j < |num.order|
    ensures InFrontier(cfg, num.order, ids, x, num.order[j]) <==> DominanceFrontier(body, num.order[x], num.order[j])
  {
    hide CfgOf, NumberingOf, TreeOfNumbering, LeastClimb, Dominates, Edge, Reachable, EdgesStayBelow;
    TreeIsDfs(cfg, num, t);
    NumberedOnce(cfg, num);
    TreeExactly(body, cfg, num, t, ids);
    var y := num.order[j];
    PredsOfBlock(cfg, num, t, j);
    forall p: nat | p < |num.order|
      ensures num.order[p] in cfg.preds[y] && Passed(ids, p, ids[j], x) <==>
        LeavesAt(body, num.order[x], num.order[p], y)
    {
      PassedLeaves(body, cfg, num, t, ids, x, j, p);
    }
    if InFrontier(cfg, num.order, ids, x, y) {
      var p: nat :| p < |num.order| && num.order[p] in cfg.preds[y] && Passed(ids, p, ids[j], x);
      assert LeavesAt(body, num.order[x], num.order[p], y);
    }
    if DominanceFrontier(body, num.order[x], y) {
      var b :| LeavesAt(body, num.order[x], b, y);
      NumberedExactlyReachable(body, cfg, num, b);
      var p: nat :| p < |num.order| && num.order[p] == b;
      assert num.order[p] in cfg.preds[y] && Passed(ids, p, ids[j], x);
      SeveralPreds(cfg, num, t, ids, x, j, p);
      assert PassedFrom(num.order, ids, cfg.preds[y], ids[j], x);
    }
  }

  lemma PredsOfBlock(cfg: ControlFlowGraph, num: Numbering, t: SearchTree, j: nat)
    requires TreeOfNumbering(cfg, num, t) && j < |num.order|
    ensures num.order[j] in cfg.preds && |t.preds| == |num.order|
    ensures forall p: nat :: p < |num.order| ==> (num.order[p] in cfg.preds[num.order[j]] <==> p in t.preds[j])
  {
  }

  lemma PassedLeaves(body: Body, cfg: ControlFlowGraph, num: Numbering, t: SearchTree, ids: seq<nat>, x: nat, j: nat,
                     p: nat)
    requires CfgOf(body, cfg) && NumberingOf(cfg, num) && TreeOfNumbering(cfg, num, t) && ClimbTree(t, ids)
    requires Falling(ids) && |ids| == |num.order|
    requires EdgesStayBelow(t, ids) && TreeExact(body, num.order, ids) && x < |num.order| && 1 <= j < |num.order|
    requires p < |num.order|
    requires num.order[j] in cfg.preds
    ensures num.order[p] in cfg.preds[num.order[j]] && Passed(ids, p, ids[j], x) <==>
      LeavesAt(body, num.order[x], num.order[p], num.order[j])
  {
    hide NumberingOf, TreeOfNumbering, LeastClimb, Dominates, Edge, Reachable;
    TreeIsDfs(cfg, num, t);
    NumberedOnce(cfg, num);
    PredsOfBlock(cfg, num, t, j);
    NumberedExactlyReachable(body, cfg, num, num.order[p]);
    AboveParent(ids, x, j);
    if p in t.preds[j] {
      assert StepOn(t, p, j);
    }
  }

  /** Strictly above a block is above its parent. */
  lemma AboveParent(ids: seq<nat>, x: nat, j: nat)
    requires Falling(ids) && 1 <= j < |ids|
    ensures Above(ids, x, ids[j]) <==> Above(ids, x, j) && x != j
  {
    if Above(ids, j, ids[j]) {
      AboveFalls(ids, j, ids[j]);
    }
  }

  /** A block's only predecessor is its parent, and nothing above it is past the parent. */
  lemma SeveralPreds(cfg: ControlFlowGraph, num: Numbering, t: SearchTree, ids: seq<nat>, x: nat, j: nat, p: nat)
    requires NumberingOf(cfg, num) && TreeOfNumbering(cfg, num, t) && ClimbTree(t, ids) && Falling(ids)
    requires |ids| == |num.order|
    requires 1 <= j < |num.order| && p < |num.order| && num.order[j] in cfg.preds
    requires num.order[p] in cfg.preds[num.order[j]] && Passed(ids, p, ids[j], x)
    ensures |cfg.preds[num.order[j]]| >= 2
  {
    hide NumberingOf, TreeOfNumbering, Passed, LeastClimb;
    TreeIsDfs(cfg, num, t);
    PredsOfBlock(cfg, num, t, j);
    NumberedOnce(cfg, num);
    var preds := cfg.preds[num.order[j]];
    ParentAmongPreds(cfg, num, t, j);
    if |preds| < 2 {
      forall q | q in t.preds[j] ensures q == p {
        OnlyOne(preds, num.order[p], num.order[q]);
        OrderOnce(num.order, p, q);
      }
      OnlyPred(t, j, p, ids[j]);
      NotPassed(ids, p, x);
    }
  }

  lemma ParentAmongPreds(cfg: ControlFlowGraph, num: Numbering, t: SearchTree, j: nat)
    requires TreeOfNumbering(cfg, num, t) && 1 <= j < |num.order|
    ensures |t.par| == |t.preds| == |num.order| && t.par[j] < j && t.par[j] in t.preds[j]
    ensures forall q :: q in t.preds[j] ==> q < |num.order|
  {
  }

  lemma OnlyOne<T>(s: set<T>, a: T, b: T)
    requires a in s && b in s && |s| < 2
    ensures a == b
  {
    if a != b {
      assert {a, b} <= s;
      SubsetSize({a, b}, s);
    }
  }

  lemma {:induction false} SubsetSize<T>(a: set<T>, b: set<T>)
    requires a <= b
    ensures |a| <= |b|
    decreases a
  {
    if a != {} {
      var x :| x in a;
      SubsetSize(a - {x}, b - {x});
    }
  }

  lemma OnlyPred(t: SearchTree, j: nat, p: nat, m: nat)
    requires DfsTree(t) && 1 <= j < |t.par| && LeastClimb(t, j, m) && forall q :: q in t.preds[j] ==> q == p
    ensures m == p
  {
    assert Up(t, p, j + 1) == p;
  }

  lemma NotPassed(ids: seq<nat>, p: nat, x: nat)
    requires Falling(ids)
    ensures !Passed(ids, p, p, x)
  {
  }

  // ---------------------------------------------------------------- where the tree falls short

  const SKIP_GRAPH := ControlFlowGraph(0, map[0 := {1, 3}, 1 := {2, 3}, 2 := {}, 3 := {2}],
    map[0 := {}, 1 := {0}, 2 := {1, 3}, 3 := {0, 1}])

  const SKIP_NUMBERING := Numbering([0, 1, 2, 3], map[1 := 0, 2 := 1, 3 := 1], map[0 := 4, 1 := 4, 2 := 3, 3 := 4])

  const SKIP_TREE := SearchTree([0, 0, 1, 1], [4, 4, 3, 4], [{}, {0}, {1, 3}, {0, 1}])

  const SKIP_IDOM: Links := map[0 := 0, 1 := 0, 2 := 1, 3 := 0]

  const SKIP_COND := ConstValue(0)

  /** Block 0 branches to 1 or 3, block 1 to 2 or 3, block 3 to 2, and block 2 returns. */
  const SKIP_BODY := Body(
    map[0 := InstData(Some(0), VoidType, Branch(1, Some(CondBranch(SKIP_COND, 3)))),
        1 := InstData(Some(1), VoidType, Branch(2, Some(CondBranch(SKIP_COND, 3)))),
        2 := InstData(Some(2), VoidType, Ret(None)),
        3 := InstData(Some(3), VoidType, Branch(2, None))],
    map[0 := BlockData([], [], Some(0)), 1 := BlockData([], [], Some(1)), 2 := BlockData([], [], Some(2)),
      3 := BlockData([], [], Some(3))],
    [0, 1, 2, 3], 0, [IntConst(CoreInt(1, 1), IntType(1))], 0, 0)

  /** The climb never takes the label with the smaller sdom, so the tree can put a block under one
      that does not dominate it: here block 2 gets the parent 1, and block 3, inside the parent's
      subtree, is entered from the side and leads on to block 2. */
  lemma ParentNeedNotDominate()
    ensures WellPlaced(SKIP_BODY) && CfgOf(SKIP_BODY, SKIP_GRAPH) && NumberingOf(SKIP_GRAPH, SKIP_NUMBERING)
    ensures TreeOfNumbering(SKIP_GRAPH, SKIP_NUMBERING, SKIP_TREE)
    ensures TreeFor(SKIP_NUMBERING.order, SKIP_TREE, SKIP_IDOM, [0, 0, 1, 0])
    ensures SKIP_IDOM[2] == 1 && !Dominates(SKIP_BODY, 1, 2)
  {
    hide LeastClimb, FinishedFrom, Mirrored, DfsTree, Repr, CfgOf, TreeOfNumbering, WellPlaced, ClimbTree, SideEntered;
    SkipFinished();
    SkipTreeOk();
    SkipRepr();
    SkipClimb1();
    SkipClimb2();
    SkipClimb3();
    SkipClimbs();
    SkipPlaced();
    SkipEdges();
    SkipNumbered();
    SkipSide();
    var ids: seq<nat> := [0, 0, 1, 0];
    assert ClimbTree(SKIP_TREE, ids) by { TreeClimbs(SKIP_NUMBERING.order, SKIP_TREE, SKIP_IDOM, ids); }
    ParentDominatesExactly(SKIP_BODY, SKIP_GRAPH, SKIP_NUMBERING, SKIP_TREE, ids, 2);
  }

  lemma SkipPlaced()
    ensures WellPlaced(SKIP_BODY)
  {
    hide SKIP_BODY, WellHeld, Lists, Contains, Attached;
    forall i | Attached(SKIP_BODY, i) ensures WellHeld(SKIP_BODY, i) {
      SkipAttached(i);
      SkipHeld(i);
    }
    forall b, i | b in SKIP_BODY.blocks && Contains(SKIP_BODY.blocks[b], i)
      ensures i in SKIP_BODY.insts && SKIP_BODY.insts[i].parent == Some(b)
      ensures Lists(SKIP_BODY.blocks[b], SKIP_BODY.insts[i].kind, i)
    {
      SkipListed(b, i);
    }
    SkipOrder();
  }

  lemma SkipAttached(i: InstId)
    requires Attached(SKIP_BODY, i)
    ensures i in SKIP_BODY.insts
  {
  }

  lemma SkipListed(b: BlockId, i: InstId)
    requires b in SKIP_BODY.blocks && Contains(SKIP_BODY.blocks[b], i)
    ensures i in SKIP_BODY.insts && SKIP_BODY.insts[i].parent == Some(b)
    ensures Lists(SKIP_BODY.blocks[b], SKIP_BODY.insts[i].kind, i)
  {
    hide OperandsExist;
    assert i == b;
    SkipHeld(i);
  }

  lemma SkipOrder()
    ensures Distinct(SKIP_BODY.order) && (forall b :: b in SKIP_BODY.order <==> b in SKIP_BODY.blocks)
    ensures SKIP_BODY.entry in SKIP_BODY.blocks
    ensures forall b :: b in SKIP_BODY.blocks ==>
      Distinct(SKIP_BODY.blocks[b].phis) && Distinct(SKIP_BODY.blocks[b].insts)
  {
  }

  lemma SkipHeld(i: InstId)
    requires i in SKIP_BODY.insts
    ensures WellHeld(SKIP_BODY, i)
  {
    match i {
      case 0 =>
      case 1 =>
      case 2 =>
      case _ =>
    }
  }

  lemma SkipEdges()
    ensures CfgOf(SKIP_BODY, SKIP_GRAPH)
  {
    hide SKIP_BODY, SKIP_GRAPH, Edge;
    SkipKeys();
    forall p, b | p in SKIP_BODY.blocks ensures Edge(SKIP_BODY, p, b) <==> b in SKIP_GRAPH.succs[p] {
      SkipEdge(p, b);
    }
    forall p, b | b in SKIP_GRAPH.preds ensures p in SKIP_GRAPH.preds[b] <==> Edge(SKIP_BODY, p, b) {
      SkipPreds(p, b);
      SkipNoEdge(p, b);
      if p in SKIP_BODY.blocks {
        SkipEdge(p, b);
      }
    }
  }

  lemma SkipKeys()
    ensures SKIP_GRAPH.entry == SKIP_BODY.entry && SKIP_GRAPH.succs.Keys == SKIP_BODY.blocks.Keys
    ensures SKIP_GRAPH.preds.Keys == SKIP_BODY.blocks.Keys
  {
  }

  lemma SkipNoEdge(p: BlockId, b: BlockId)
    ensures Edge(SKIP_BODY, p, b) ==> p in SKIP_BODY.blocks
  {
    hide SKIP_BODY;
  }

  lemma SkipPreds(p: BlockId, b: BlockId)
    requires b in SKIP_GRAPH.preds
    ensures p in SKIP_GRAPH.preds[b] <==> p in SKIP_GRAPH.succs && b in SKIP_GRAPH.succs[p]
  {
  }

  lemma SkipEdge(p: BlockId, b: BlockId)
    requires p in SKIP_BODY.blocks
    ensures Edge(SKIP_BODY, p, b) <==> b in SKIP_GRAPH.succs[p]
  {
  }

  lemma SkipNumbered()
    requires DfsTree(SKIP_TREE)
    ensures TreeOfNumbering(SKIP_GRAPH, SKIP_NUMBERING, SKIP_TREE)
  {
    hide DfsTree, PredIndices, ParentAt;
    forall i: nat | i < 4
      ensures SKIP_NUMBERING.order[i] in SKIP_GRAPH.preds
      ensures SKIP_TREE.preds[i] == PredIndices(SKIP_GRAPH, SKIP_NUMBERING, i)
    {
      SkipPredIndices(i);
    }
    SkipParents();
  }

  lemma SkipParents()
    ensures forall i :: 1 <= i < 4 ==> ParentAt(SKIP_GRAPH, SKIP_NUMBERING, i, SKIP_TREE.par[i])
  {
  }

  lemma SkipPredIndices(i: nat)
    requires i < 4
    ensures SKIP_NUMBERING.order[i] in SKIP_GRAPH.preds
    ensures SKIP_TREE.preds[i] == PredIndices(SKIP_GRAPH, SKIP_NUMBERING, i)
  {
    assert forall k :: 0 <= k < 4 ==> SKIP_NUMBERING.order[k] == k;
    assert SKIP_GRAPH.preds[i] == SKIP_TREE.preds[i];
    hide SKIP_GRAPH;
  }

  lemma SkipSide()
    requires DfsTree(SKIP_TREE)
    ensures SideEntered(SKIP_TREE, 1, 2)
  {
    var way: seq<nat> := [3, 2];
    assert InsideWay(SKIP_TREE, 1, way, 2);
    assert StepOn(SKIP_TREE, 0, way[0]);
  }

  lemma SkipRepr()
    ensures Repr(SKIP_NUMBERING.order, SKIP_IDOM, [0, 0, 1, 0])
  {
    var n := SKIP_NUMBERING;
    assert forall i :: 0 <= i < 4 ==> n.order[i] == i;
  }

  lemma SkipClimbs()
    requires DfsTree(SKIP_TREE) && LeastClimb(SKIP_TREE, 1, 0) && LeastClimb(SKIP_TREE, 2, 1)
    requires LeastClimb(SKIP_TREE, 3, 0)
    ensures forall i :: 1 <= i < 4 ==> var ids: seq<nat> := [0, 0, 1, 0]; ids[i] < i && LeastClimb(SKIP_TREE, i, ids[i])
  {
    hide LeastClimb, DfsTree;
  }

  lemma SkipSubtrees()
    ensures forall i, j :: 0 <= i < j < 4 && j < SKIP_NUMBERING.fin[SKIP_NUMBERING.order[i]] ==>
      ChildWithin(SKIP_GRAPH, SKIP_NUMBERING, i, j)
  {
    var g, n := SKIP_GRAPH, SKIP_NUMBERING;
    assert ParentAt(g, n, 1, 0) && ParentAt(g, n, 2, 1) && ParentAt(g, n, 3, 1);
  }

  lemma SkipFinished()
    ensures FinishedFrom(SKIP_GRAPH, SKIP_NUMBERING, 0)
  {
    hide ChildWithin;
    SkipSubtrees();
    SkipSeen();
    hide SeenBy;
  }

  lemma SkipSeen()
    ensures forall i, y :: 0 <= i < 4 && y in SKIP_GRAPH.succs[SKIP_NUMBERING.order[i]] ==>
      SeenBy(SKIP_NUMBERING, y, SKIP_NUMBERING.fin[SKIP_NUMBERING.order[i]])
  {
    var n := SKIP_NUMBERING;
    assert n.order[1] == 1 && n.order[2] == 2 && n.order[3] == 3;
  }

  lemma SkipTreeOk()
    ensures DfsTree(SKIP_TREE)
  {
  }

  lemma SkipClimb1()
    requires DfsTree(SKIP_TREE)
    ensures LeastClimb(SKIP_TREE, 1, 0)
  {
    hide DfsTree;
    assert Up(SKIP_TREE, 0, 2) == 0 && 0 in SKIP_TREE.preds[1];
  }

  lemma SkipClimb2()
    requires DfsTree(SKIP_TREE)
    ensures LeastClimb(SKIP_TREE, 2, 1)
  {
    hide DfsTree;
    assert Up(SKIP_TREE, 1, 3) == 1;
    assert Up(SKIP_TREE, 3, 3) == Up(SKIP_TREE, SKIP_TREE.par[3], 3);
    assert 1 in SKIP_TREE.preds[2];
  }

  lemma SkipClimb3()
    requires DfsTree(SKIP_TREE)
    ensures LeastClimb(SKIP_TREE, 3, 0)
  {
    hide DfsTree;
    assert Up(SKIP_TREE, 0, 4) == 0 && 0 in SKIP_TREE.preds[3];
  }
}
