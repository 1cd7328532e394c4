/** The dominator tree construction (src/ir/cfg.rs:103-201), stated on depth-first numbers: a block
    is its number, its tree parent and its predecessors are numbers. */
module DomTrees {
  import opened Sequences
  import opened Ir
  import opened Cfg

  // ---------------------------------------------------------------- search trees on numbers

  /** Parents, subtree ends and predecessors of the numbered blocks. */
  datatype SearchTree = SearchTree(par: seq<nat>, end: seq<nat>, preds: seq<set<nat>>)

  /** What a depth-first search guarantees: subtrees are intervals, no edge leaves a subtree to the
      right, and each block's tree parent is one of its predecessors. */
  ghost predicate DfsTree(t: SearchTree) {
    var n := |t.par|;
    && n > 0 && |t.end| == n && |t.preds| == n
    && (forall i :: 1 <= i < n ==> t.par[i] < i && t.par[i] in t.preds[i])
    && (forall i :: 0 <= i < n ==> i < t.end[i] <= n)
    && (forall i, j :: 0 <= i < j < n && j < t.end[i] ==> i <= t.par[j] && t.end[j] <= t.end[i])
    && (forall v, p :: 0 <= v < n && p in t.preds[v] ==> p < n)
    && (forall v, p :: 0 <= v < n && p in t.preds[v] ==> v < t.end[p])
  }

  ghost predicate Anc(t: SearchTree, a: nat, j: nat)
    requires DfsTree(t) && j < |t.par|
  {
    a == j || (a < j && Anc(t, a, t.par[j]))
  }

  /** The nearest ancestor-or-self with a number below lim. */
  ghost function Up(t: SearchTree, j: nat, lim: nat): (u: nat)
    requires DfsTree(t) && j < |t.par| && lim >= 1
    ensures u < lim && u <= j
  {
    if j < lim then j else Up(t, t.par[j], lim)
  }

  lemma {:induction false} UpIsAncestor(t: SearchTree, j: nat, lim: nat)
    requires DfsTree(t) && j < |t.par| && lim >= 1
    ensures Anc(t, Up(t, j, lim), j)
    decreases j
  {
    if j >= lim {
      UpIsAncestor(t, t.par[j], lim);
    }
  }

  lemma {:induction false} UpIsNearest(t: SearchTree, j: nat, lim: nat, a: nat)
    requires DfsTree(t) && j < |t.par| && lim >= 1 && Anc(t, a, j) && a < lim
    ensures a <= Up(t, j, lim) && Anc(t, a, Up(t, j, lim))
    decreases j
  {
    if j >= lim {
      UpIsNearest(t, t.par[j], lim, a);
    }
  }

  /** Lowering the limit by one: the climb stops where it did, or goes on from the block just linked. */
  lemma {:induction false} UpLower(t: SearchTree, j: nat, lim: nat)
    requires DfsTree(t) && j < |t.par| && 1 <= lim < |t.par|
    ensures Up(t, j, lim) == if Up(t, j, lim + 1) == lim then t.par[lim] else Up(t, j, lim + 1)
    decreases j
  {
    if j > lim {
      UpLower(t, t.par[j], lim);
    }
  }

  /** Inside a subtree's interval is below its root, and the other way round. */
  lemma {:induction false} IntervalIsBelow(t: SearchTree, a: nat, j: nat)
    requires DfsTree(t) && a <= j < |t.par| && j < t.end[a]
    ensures Anc(t, a, j)
    decreases j
  {
    if a < j {
      IntervalIsBelow(t, a, t.par[j]);
    }
  }

  lemma {:induction false} BelowIsInterval(t: SearchTree, a: nat, j: nat)
    requires DfsTree(t) && a < |t.par| && j < |t.par| && Anc(t, a, j)
    ensures a <= j < t.end[a]
    decreases j
  {
    if a < j {
      BelowIsInterval(t, a, t.par[j]);
      assert t.par[j] in t.preds[j];
    }
  }

  /** Along any edge, the climb from the source to the target's number lands above the target. */
  lemma ClimbLandsAbove(t: SearchTree, p: nat, v: nat)
    requires DfsTree(t) && v < |t.par| && p in t.preds[v]
    ensures p < |t.par| && Anc(t, Up(t, p, v + 1), v)
  {
    if p <= v {
      IntervalIsBelow(t, p, v);
    } else {
      var u := Up(t, p, v + 1);
      UpIsAncestor(t, p, v + 1);
      BelowIsInterval(t, u, p);
      IntervalIsBelow(t, u, v);
    }
  }

  /** A linked block below the parent of the block just linked climbs exactly to that parent. */
  lemma ClimbToParent(t: SearchTree, i: nat, j: nat)
    requires DfsTree(t) && 1 <= i <= j < |t.par| && Anc(t, t.par[i], j)
    ensures Up(t, j, i) == t.par[i]
  {
    var u := Up(t, j, i);
    UpIsAncestor(t, j, i);
    UpIsNearest(t, j, i, t.par[i]);
    if u > t.par[i] {
      BelowIsInterval(t, u, j);
      IntervalIsBelow(t, u, i);
    }
  }

  // ---------------------------------------------------------------- the algorithm's state, on numbers

  /** m is the least number reached by climbing from a predecessor of i to below i + 1. */
  ghost predicate LeastClimb(t: SearchTree, i: nat, m: nat)
    requires DfsTree(t) && i < |t.par|
  {
    && (forall p :: p in t.preds[i] ==> m <= Up(t, p, i + 1))
    && (exists p :: p in t.preds[i] && m == Up(t, p, i + 1))
  }

  /** The union-find forest when the blocks from lim on have been linked: roots are the rest, and
      following a link neither leaves the tree path nor passes the root. */
  ghost predicate Forest(t: SearchTree, sets: seq<nat>, lim: nat)
    requires DfsTree(t) && lim >= 1
  {
    && |sets| == |t.par|
    && (forall j: nat :: j < |sets| && j < lim ==> sets[j] == j)
    && (forall j: nat :: lim <= j < |sets| ==>
         sets[j] < j && Up(t, sets[j], lim) == Up(t, j, lim) && Anc(t, sets[j], j))
  }

  lemma Compress(t: SearchTree, sets: seq<nat>, lim: nat, j: nat)
    requires DfsTree(t) && lim >= 1 && Forest(t, sets, lim) && lim <= j < |t.par|
    ensures Forest(t, sets[j := Up(t, j, lim)], lim)
  {
    UpIsAncestor(t, j, lim);
    UpFixed(t, j, lim);
    hide Up, Anc;
  }

  lemma UpFixed(t: SearchTree, j: nat, lim: nat)
    requires DfsTree(t) && lim >= 1 && j < |t.par|
    ensures Up(t, j, lim) < |t.par| && Up(t, Up(t, j, lim), lim) == Up(t, j, lim)
  {
  }

  lemma LinkStep(t: SearchTree, sets: seq<nat>, lim: nat)
    requires DfsTree(t) && 1 <= lim < |t.par| && Forest(t, sets, lim + 1)
    ensures Forest(t, sets[lim := t.par[lim]], lim)
  {
    var sets' := sets[lim := t.par[lim]];
    forall j: nat | lim <= j < |sets|
      ensures sets'[j] < j && Up(t, sets'[j], lim) == Up(t, j, lim) && Anc(t, sets'[j], j)
    {
      UpLower(t, j, lim);
      if j > lim {
        UpLower(t, sets[j], lim);
      }
    }
  }

  /** sdom of the unprocessed blocks is themselves; of the processed ones, their least climb. */
  ghost predicate Semi(t: SearchTree, sdom: seq<nat>, lim: nat)
    requires DfsTree(t)
  {
    && |sdom| == |t.par|
    && (forall j: nat :: j < |sdom| && j < lim ==> sdom[j] == j)
    && (forall j: nat :: lim <= j < |sdom| ==> sdom[j] < j && LeastClimb(t, j, sdom[j]) && Anc(t, sdom[j], j))
  }

  /** Part way through a block's predecessors. */
  ghost predicate Climbing(t: SearchTree, i: nat, m: nat, done: set<nat>)
    requires DfsTree(t) && i < |t.par|
  {
    && m <= i && done <= t.preds[i]
    && (forall p :: p in done ==> p in t.preds[i] && m <= Up(t, p, i + 1))
    && (m < i ==> exists p :: p in t.preds[i] && m == Up(t, p, i + 1))
  }

  /** The tree parent is a predecessor, so the least climb is below the block itself; and it lands
      on an ancestor. */
  lemma ClimbDone(t: SearchTree, i: nat, m: nat)
    requires DfsTree(t) && 1 <= i < |t.par| && Climbing(t, i, m, t.preds[i])
    ensures m < i && LeastClimb(t, i, m) && Anc(t, m, i)
  {
    assert Up(t, t.par[i], i + 1) == t.par[i];
    var p :| p in t.preds[i] && m == Up(t, p, i + 1);
    ClimbLandsAbove(t, p, i);
  }

  lemma SemiStep(t: SearchTree, sdom: seq<nat>, i: nat, m: nat)
    requires DfsTree(t) && 1 <= i < |t.par| && m < i && Semi(t, sdom, i + 1) && LeastClimb(t, i, m) && Anc(t, m, i)
    ensures Semi(t, sdom[i := m], i)
  {
    hide Anc, LeastClimb;
  }

  /** Each processed block has its idom already, or waits in the bucket of its sdom, whose child
      towards the block has not been linked yet. */
  ghost predicate Settled(t: SearchTree, sdom: seq<nat>, idom: seq<nat>, bucket: seq<set<nat>>, lim: nat)
    requires DfsTree(t) && lim >= 1
  {
    && |sdom| == |t.par| && |idom| == |t.par| && |bucket| == |t.par|
    && (forall j: nat :: j < |idom| && j < lim ==> idom[j] == j)
    && (forall j: nat :: lim <= j < |idom| ==> idom[j] == sdom[j] || Waiting(t, sdom, bucket, lim, j))
    && (forall s: nat, v: nat :: InBucket(bucket, s, v) ==> lim <= v < |sdom| && sdom[v] == s)
  }

  ghost predicate InBucket(bucket: seq<set<nat>>, s: nat, v: nat) {
    s < |bucket| && v in bucket[s]
  }

  ghost predicate Waiting(t: SearchTree, sdom: seq<nat>, bucket: seq<set<nat>>, lim: nat, j: nat)
    requires DfsTree(t) && lim >= 1 && j < |t.par| && |sdom| == |t.par| && |bucket| == |t.par|
  {
    sdom[j] < |bucket| && j in bucket[sdom[j]] && sdom[j] < Up(t, j, lim)
  }

  /** idom after a bucket has been emptied into it. */
  ghost predicate Emptied(sdom: seq<nat>, idom: seq<nat>, idom': seq<nat>, members: set<nat>) {
    |idom'| == |idom| == |sdom| && forall v :: 0 <= v < |idom| ==> idom'[v] == if v in members then sdom[v] else idom[v]
  }

  /** Linking block i and emptying its parent's bucket. */
  lemma SettleStep(t: SearchTree, sdom: seq<nat>, idom: seq<nat>, bucket: seq<set<nat>>, i: nat, m: nat,
                   idom': seq<nat>)
    requires DfsTree(t) && 1 <= i < |t.par| && m < i && |sdom| == |t.par| && |bucket| == |t.par|
    requires Semi(t, sdom[i := m], i)
    requires Settled(t, sdom, idom, bucket, i + 1)
    requires Emptied(sdom[i := m], idom, idom', bucket[m := bucket[m] + {i}][t.par[i]])
    ensures Settled(t, sdom[i := m], idom', bucket[m := bucket[m] + {i}][t.par[i] := {}], i)
  {
    var sdom', full, pa := sdom[i := m], bucket[m := bucket[m] + {i}], t.par[i];
    forall j: nat | i <= j < |idom| ensures idom'[j] == sdom'[j] || Waiting(t, sdom', full[pa := {}], i, j) {
      SettleOne(t, sdom, idom, bucket, i, m, idom', j);
    }
    var after := full[pa := {}];
    forall s: nat, v: nat | InBucket(after, s, v) ensures i <= v < |sdom| && sdom'[v] == s {
      assert InBucket(bucket, s, v) || (s == m && v == i);
    }
  }

  lemma SettleOne(t: SearchTree, sdom: seq<nat>, idom: seq<nat>, bucket: seq<set<nat>>, i: nat, m: nat, idom': seq<nat>,
                  j: nat)
    requires DfsTree(t) && 1 <= i <= j < |t.par| && m < i && |sdom| == |t.par| && |bucket| == |t.par|
    requires |idom| == |t.par| && Semi(t, sdom[i := m], i)
    requires Settled(t, sdom, idom, bucket, i + 1)
    requires Emptied(sdom[i := m], idom, idom', bucket[m := bucket[m] + {i}][t.par[i]])
    ensures idom'[j] == sdom[i := m][j] || Waiting(t, sdom[i := m], bucket[m := bucket[m] + {i}][t.par[i] := {}], i, j)
  {
    var sdom', pa := sdom[i := m], t.par[i];
    var s := sdom'[j];
    assert Anc(t, s, j);
    UpLower(t, j, i);
    if j == i {
      assert Anc(t, s, pa);
    } else if idom[j] != sdom[j] {
      assert Waiting(t, sdom, bucket, i + 1, j);
      if Up(t, j, i + 1) == i {
        UpIsNearest(t, j, i + 1, s);
      }
    }
  }

  lemma AllSettled(t: SearchTree, sdom: seq<nat>, idom: seq<nat>, bucket: seq<set<nat>>)
    requires DfsTree(t) && Settled(t, sdom, idom, bucket, 1)
    ensures forall j :: 1 <= j < |idom| ==> idom[j] == sdom[j]
  {
    forall j: nat | 1 <= j < |idom| ensures idom[j] == sdom[j] {
      assert !Waiting(t, sdom, bucket, 1, j);
    }
  }

  /** Whatever is in the bucket being emptied climbs to its owner. */
  lemma BucketMember(t: SearchTree, sdom: seq<nat>, idom: seq<nat>, bucket: seq<set<nat>>, i: nat, m: nat, v: nat)
    requires DfsTree(t) && 1 <= i < |t.par| && m < i && |sdom| == |t.par| && |bucket| == |t.par|
    requires Semi(t, sdom[i := m], i) && Settled(t, sdom, idom, bucket, i + 1)
    requires v in bucket[m := bucket[m] + {i}][t.par[i]]
    ensures i <= v < |t.par| && Up(t, v, i) == t.par[i] && sdom[i := m][v] == t.par[i]
    ensures sdom[i := m][t.par[i]] == t.par[i]
  {
    assert (v == i && m == t.par[i]) || InBucket(bucket, t.par[i], v);
    assert sdom[i := m][v] == t.par[i];
    assert Anc(t, sdom[i := m][v], v);
    ClimbToParent(t, i, v);
    hide Anc, Up;
  }

  // ---------------------------------------------------------------- maps over blocks as numbers

  type Links = map<BlockId, BlockId>

  /** A map over the numbered blocks, seen as a sequence of numbers. */
  ghost predicate Repr(order: seq<BlockId>, f: Links, s: seq<nat>) {
    && |s| == |order| && (forall b :: b in f <==> b in order)
    && (forall k :: 0 <= k < |s| ==> s[k] < |order| && f[order[k]] == order[s[k]])
  }

  lemma ReprUpdate(order: seq<BlockId>, f: Links, s: seq<nat>, i: nat, m: nat)
    requires Distinct(order) && Repr(order, f, s) && i < |order| && m < |order|
    ensures Repr(order, f[order[i] := order[m]], s[i := m])
  {
  }

  lemma ReprAt(order: seq<BlockId>, f: Links, s: seq<nat>, k: nat)
    requires Repr(order, f, s) && k < |order|
    ensures |s| == |order| && s[k] < |order| && order[k] in f && f[order[k]] == order[s[k]]
  {
  }

  type Buckets = map<BlockId, set<BlockId>>

  ghost predicate ReprSets(order: seq<BlockId>, f: Buckets, s: seq<set<nat>>) {
    && |s| == |order| && (forall b :: b in f ==> b in order)
    && (forall k :: 0 <= k < |s| ==>
         (order[k] in f ==> SameMembers(order, f[order[k]], s[k])) && (order[k] !in f ==> s[k] == {}))
  }

  ghost predicate SameMembers(order: seq<BlockId>, bs: set<BlockId>, ks: set<nat>) {
    && (forall k :: k in ks ==> k < |order| && order[k] in bs)
    && (forall b :: b in bs ==> exists k :: k in ks && k < |order| && order[k] == b)
  }

  function AddTo(bucket: Buckets, s: BlockId, v: BlockId): Buckets {
    bucket[s := (if s in bucket then bucket[s] else {}) + {v}]
  }

  lemma ReprAdd(order: seq<BlockId>, f: Buckets, s: seq<set<nat>>, m: nat, i: nat)
    requires Distinct(order) && ReprSets(order, f, s) && i < |order| && m < |order|
    ensures ReprSets(order, AddTo(f, order[m], order[i]), s[m := s[m] + {i}])
  {
    var f', s' := AddTo(f, order[m], order[i]), s[m := s[m] + {i}];
    MembersAdd(order, if order[m] in f then f[order[m]] else {}, s[m], i);
    hide SameMembers;
    forall k | 0 <= k < |s'| && order[k] in f' ensures SameMembers(order, f'[order[k]], s'[k]) {
    }
  }

  lemma MembersAdd(order: seq<BlockId>, bs: set<BlockId>, ks: set<nat>, i: nat)
    requires i < |order| && SameMembers(order, bs, ks)
    ensures SameMembers(order, bs + {order[i]}, ks + {i})
  {
    forall b | b in bs + {order[i]} ensures exists k :: k in ks + {i} && k < |order| && order[k] == b {
      if b in bs {
        var k :| k in ks && k < |order| && order[k] == b;
        assert k in ks + {i};
      } else {
        assert i in ks + {i} && order[i] == b;
      }
    }
  }

  lemma ReprDrop(order: seq<BlockId>, f: Buckets, s: seq<set<nat>>, k: nat)
    requires Distinct(order) && ReprSets(order, f, s) && k < |order|
    ensures ReprSets(order, f - {order[k]}, s[k := {}])
  {
    hide SameMembers;
  }

  // ---------------------------------------------------------------- numberings as search trees

  ghost function PredIndices(cfg: ControlFlowGraph, num: Numbering, i: nat): set<nat>
    requires i < |num.order| && num.order[i] in cfg.preds
  {
    set p: nat | p < |num.order| && num.order[p] in cfg.preds[num.order[i]]
  }

  ghost function ParentOf(cfg: ControlFlowGraph, num: Numbering, i: nat): nat {
    if k: nat :| k < i && ParentAt(cfg, num, i, k) then k else 0
  }

  /** Successor and predecessor sets of the numbered blocks mirror each other. */
  ghost predicate Mirrored(cfg: ControlFlowGraph, num: Numbering) {
    && (forall b :: b in num.order ==> b in cfg.preds)
    && (forall i, j :: 0 <= i < |num.order| && 0 <= j < |num.order| ==>
          (num.order[i] in cfg.preds[num.order[j]] <==> IsSucc(cfg, num.order[i], num.order[j])))
  }

  ghost predicate IsSucc(cfg: ControlFlowGraph, p: BlockId, b: BlockId) {
    p in cfg.succs && b in cfg.succs[p]
  }

  ghost predicate TreeOfNumbering(cfg: ControlFlowGraph, num: Numbering, t: SearchTree) {
    && DfsTree(t) && |t.par| == |num.order|
    && (forall i :: 0 <= i < |num.order| ==> num.order[i] in cfg.preds && t.preds[i] == PredIndices(cfg, num, i))
    && (forall i :: 1 <= i < |num.order| ==> ParentAt(cfg, num, i, t.par[i]))
  }

  ghost function SearchTreeOf(cfg: ControlFlowGraph, num: Numbering): (t: SearchTree)
    ensures |t.par| == |num.order| && |t.end| == |num.order| && |t.preds| == |num.order|
    ensures forall i :: 0 <= i < |num.order| ==>
      t.par[i] == ParentOf(cfg, num, i) && t.end[i] == EndOf(num, i) && t.preds[i] == PredsOf(cfg, num, i)
  {
    SearchTree(seq(|num.order|, i requires 0 <= i < |num.order| => ParentOf(cfg, num, i)),
               seq(|num.order|, i requires 0 <= i < |num.order| => EndOf(num, i)),
               seq(|num.order|, i requires 0 <= i < |num.order| => PredsOf(cfg, num, i)))
  }

  lemma ParentFound(cfg: ControlFlowGraph, num: Numbering, i: nat)
    requires NumberingOf(cfg, num) && 1 <= i < |num.order|
    ensures ParentOf(cfg, num, i) < i && ParentAt(cfg, num, i, ParentOf(cfg, num, i))
  {
    assert ChildWithin(cfg, num, 0, i);
  }

  lemma ParentIsPred(cfg: ControlFlowGraph, num: Numbering, i: nat)
    requires NumberingOf(cfg, num) && Mirrored(cfg, num) && 1 <= i < |num.order|
    ensures ParentOf(cfg, num, i) in PredsOf(cfg, num, i)
  {
    ParentFound(cfg, num, i);
    hide NumberingOf, ParentOf;
    var k := ParentOf(cfg, num, i);
    assert num.order[i] in num.order;
    assert IsSucc(cfg, num.order[k], num.order[i]);
  }

  lemma EndBounds(cfg: ControlFlowGraph, num: Numbering, i: nat)
    requires NumberingOf(cfg, num) && i < |num.order|
    ensures i < EndOf(num, i) <= |num.order|
  {
  }

  lemma PredInside(cfg: ControlFlowGraph, num: Numbering, p: nat, v: nat)
    requires NumberingOf(cfg, num) && Mirrored(cfg, num) && v < |num.order| && p in PredsOf(cfg, num, v)
    ensures p < |num.order| && v < EndOf(num, p)
  {
    assert IsSucc(cfg, num.order[p], num.order[v]);
    assert SeenBy(num, num.order[v], num.fin[num.order[p]]);
  }

  /** A complete numbering, seen on its numbers, is a depth-first search tree. */
  lemma NumberingIsTree(cfg: ControlFlowGraph, num: Numbering)
    requires NumberingOf(cfg, num) && Mirrored(cfg, num)
    ensures TreeOfNumbering(cfg, num, SearchTreeOf(cfg, num))
  {
    hide ParentOf, EndOf, PredsOf, SearchTreeOf, ParentAt, FinishedFrom;
    var t, n := SearchTreeOf(cfg, num), |num.order|;
    forall i | 1 <= i < n ensures t.par[i] < i && t.par[i] in t.preds[i] && ParentAt(cfg, num, i, t.par[i]) {
      ParentFound(cfg, num, i);
      ParentIsPred(cfg, num, i);
    }
    forall i | 0 <= i < n
      ensures i < t.end[i] <= n && num.order[i] in cfg.preds && t.preds[i] == PredIndices(cfg, num, i)
    {
      EndBounds(cfg, num, i);
      PredsAre(cfg, num, i);
    }
    forall i, j | 0 <= i < j < n && j < t.end[i] ensures i <= t.par[j] && t.end[j] <= t.end[i] {
      InsideSubtree(cfg, num, i, j);
    }
    forall v, p | 0 <= v < n && p in t.preds[v] ensures p < n && v < t.end[p] {
      PredInside(cfg, num, p, v);
    }
  }

  lemma PredsAre(cfg: ControlFlowGraph, num: Numbering, i: nat)
    requires Mirrored(cfg, num) && i < |num.order|
    ensures num.order[i] in cfg.preds && PredsOf(cfg, num, i) == PredIndices(cfg, num, i)
  {
    assert num.order[i] in num.order;
  }

  ghost function EndOf(num: Numbering, i: nat): nat {
    if i < |num.order| && num.order[i] in num.fin then num.fin[num.order[i]] else 0
  }

  ghost function PredsOf(cfg: ControlFlowGraph, num: Numbering, i: nat): set<nat> {
    if i < |num.order| && num.order[i] in cfg.preds then PredIndices(cfg, num, i) else {}
  }

  lemma InsideSubtree(cfg: ControlFlowGraph, num: Numbering, i: nat, j: nat)
    requires NumberingOf(cfg, num) && i < j < |num.order| && j < EndOf(num, i)
    ensures i <= ParentOf(cfg, num, j) && EndOf(num, j) <= EndOf(num, i)
  {
    assert ChildWithin(cfg, num, i, j);
    var k: nat :| i <= k < j && ParentAt(cfg, num, j, k);
    assert ParentAt(cfg, num, j, ParentOf(cfg, num, j));
    assert k == ParentOf(cfg, num, j);
  }

  // ---------------------------------------------------------------- the construction

  ghost predicate DfnOk(order: seq<BlockId>, dfn: map<BlockId, nat>) {
    (forall b :: b in dfn <==> b in order) && forall k: nat :: k < |order| ==> dfn[order[k]] == k
  }

  /** Finds a set's root and points everything on the way at it. The label map `best` is kept up to
      date as the compiler does, though nothing reads the result. */
  method Find(v: BlockId, sets: Links, dfn: map<BlockId, nat>, sdom: Links, best: Links,
              order: seq<BlockId>, ghost t: SearchTree, ghost ss: seq<nat>, ghost sd: seq<nat>, ghost bs: seq<nat>,
                ghost j: nat, ghost lim: nat)
    returns (root: BlockId, sets': Links, best': Links, ghost ss': seq<nat>, ghost bs': seq<nat>)
    requires DfsTree(t) && lim >= 1 && |t.par| == |order| && Distinct(order) && j < |order| && order[j] == v
    requires Forest(t, ss, lim) && Repr(order, sets, ss) && Repr(order, sdom, sd) && Repr(order, best, bs)
    requires DfnOk(order, dfn)
    ensures Up(t, j, lim) < |order| && root == order[Up(t, j, lim)]
    ensures Forest(t, ss', lim) && Repr(order, sets', ss') && Repr(order, best', bs')
    decreases j
  {
    hide Up, Anc, Repr, DfnOk, DfsTree, Forest, Distinct;
    UpFixed(t, j, lim);
    ForestAt(t, ss, lim, j);
    ReprAt(order, sets, ss, j);
    var parent := sets[v];
    OrderOnce(order, j, ss[j]);
    if parent != v {
      root, sets', best', ss', bs' := Find(parent, sets, dfn, sdom, best, order, t, ss, sd, bs, ss[j], lim);
      var relabel := BetterLabel(parent, v, dfn, sdom, best', order, sd, bs', ss[j], j);
      if relabel {
        ReprAt(order, best', bs', ss[j]);
        ReprUpdate(order, best', bs', j, bs'[ss[j]]);
        best', bs' := best'[v := best'[parent]], bs'[j := bs'[ss[j]]];
      }
      Compress(t, ss', lim, j);
      ForestAt(t, ss', lim, j);
      ReprUpdate(order, sets', ss', j, Up(t, j, lim));
      sets', ss' := sets'[v := root], ss'[j := Up(t, j, lim)];
    } else {
      root, sets', best', ss', bs' := v, sets, best, ss, bs;
    }
  }

  /** Whether the parent's label is the smaller one. */
  method BetterLabel(parent: BlockId, v: BlockId, dfn: map<BlockId, nat>, sdom: Links, best: Links,
                     order: seq<BlockId>, ghost sd: seq<nat>, ghost bs: seq<nat>, ghost p: nat,
                       ghost j: nat) returns (better: bool)
    requires p < |order| && j < |order| && order[p] == parent && order[j] == v
    requires Repr(order, sdom, sd) && Repr(order, best, bs) && DfnOk(order, dfn)
    ensures bs[p] < |sd| && bs[j] < |sd| && (better <==> sd[bs[p]] < sd[bs[j]])
  {
    ReprAt(order, best, bs, p);
    ReprAt(order, best, bs, j);
    ReprAt(order, sdom, sd, bs[p]);
    ReprAt(order, sdom, sd, bs[j]);
    better := dfn[sdom[best[parent]]] < dfn[sdom[best[v]]];
  }

  lemma OrderOnce(order: seq<BlockId>, j: nat, k: nat)
    requires Distinct(order) && j < |order| && k < |order|
    ensures order[j] == order[k] ==> j == k
  {
  }

  lemma ForestAt(t: SearchTree, ss: seq<nat>, lim: nat, j: nat)
    requires DfsTree(t) && lim >= 1 && Forest(t, ss, lim) && j < |t.par|
    ensures |ss| == |t.par| && ss[j] <= j && (ss[j] != j ==> j >= lim && Up(t, ss[j], lim) == Up(t, j, lim))
    ensures ss[j] == j ==> Up(t, j, lim) == j
  {
  }

  /** Every block but the first hangs under its least climb. */
  ghost predicate ClimbTree(t: SearchTree, ids: seq<nat>)
    requires DfsTree(t)
  {
    |ids| == |t.par| && ids[0] == 0 && forall i :: 1 <= i < |ids| ==> ids[i] < i && LeastClimb(t, i, ids[i])
  }

  /** What the construction promises: a tree over the numbered blocks in which each block's parent
      is its least climb. */
  ghost predicate TreeFor(order: seq<BlockId>, t: SearchTree, idom: Links, ids: seq<nat>) {
    && DfsTree(t) && |t.par| == |order| && Repr(order, idom, ids) && ids[0] == 0
    && forall i :: 1 <= i < |order| ==> ids[i] < i && LeastClimb(t, i, ids[i])
  }

  /** The children maps list exactly the blocks whose parent is the key. */
  ghost predicate InverseOf(children: Buckets, idom: Links) {
    && children.Keys == idom.Keys
    && forall p, c :: p in children ==> (c in children[p] <==> c in idom && c != p && idom[c] == p)
  }

  datatype DominatorTree = DominatorTree(root: BlockId, children: map<BlockId, set<BlockId>>, idom: Links)

  /** The predecessors of block i among the numbered ones that have been looked at. */
  ghost function Looked(order: seq<BlockId>, preds: set<BlockId>): set<nat> {
    set p: nat | p < |order| && order[p] in preds
  }

  /** The least climb of one block: its sdom. */
  method LowestClimb(preds: set<BlockId>, i: nat, sets: Links, dfn: map<BlockId, nat>, sdom: Links, best: Links,
                     order: seq<BlockId>, ghost t: SearchTree, ghost ss: seq<nat>, ghost sd: seq<nat>,
                       ghost bs: seq<nat>)
    returns (sdom': Links, sets': Links, best': Links, ghost m: nat, ghost ss': seq<nat>, ghost bs': seq<nat>)
    requires DfsTree(t) && |t.par| == |order| && Distinct(order) && 1 <= i < |order|
    requires t.preds[i] == Looked(order, preds)
    requires Forest(t, ss, i + 1) && Repr(order, sets, ss) && Repr(order, sdom, sd) && Repr(order, best, bs)
    requires DfnOk(order, dfn)
    requires forall j: nat :: j <= i ==> sd[j] == j
    ensures m < i && LeastClimb(t, i, m) && Anc(t, m, i) && Repr(order, sdom', sd[i := m])
    ensures Forest(t, ss', i + 1) && Repr(order, sets', ss') && Repr(order, best', bs')
  {
    hide Up, Anc, Repr, DfnOk, DfsTree, Forest, Distinct, Climbing, Looked, LeastClimb;
    var node := order[i];
    sdom', sets', best', ss', bs', m := sdom, sets, best, ss, bs, i;
    ReprAt(order, sdom, sd, i);
    assert sd[i := i] == sd;
    var todo := preds;
    ClimbStart(t, i, order, preds);
    while todo != {}
      invariant todo <= preds && m <= i && Climbing(t, i, m, Looked(order, preds - todo))
      invariant Repr(order, sdom', sd[i := m]) && Forest(t, ss', i + 1) && Repr(order, sets', ss')
      invariant Repr(order, best', bs')
      decreases todo
    {
      var pred :| pred in todo;
      LookedMore(order, preds, todo, pred, dfn);
      assert preds - (todo - {pred}) == preds - todo + {pred};
      if pred in dfn {
        ghost var p := dfn[pred];
        var candidate;
        candidate, sets', best', ss',
          bs' := Find(pred, sets', dfn, sdom', best', order, t, ss', sd[i := m], bs', p, i + 1);
        ghost var c := Up(t, p, i + 1);
        var lower := LowerCandidate(candidate, node, dfn, sdom', order, sd[i := m], c, i);
        assert lower <==> c < m;
        if lower {
          ReprUpdate(order, sdom', sd[i := m], i, c);
          assert sd[i := m][i := c] == sd[i := c];
          sdom' := sdom'[node := candidate];
        }
        ClimbStep(t, i, m, Looked(order, preds - todo), p);
        m := if c < m then c else m;
      }
      todo := todo - {pred};
    }
    assert preds - todo == preds;
    ClimbDone(t, i, m);
  }

  lemma ClimbStart(t: SearchTree, i: nat, order: seq<BlockId>, preds: set<BlockId>)
    requires DfsTree(t) && i < |t.par|
    ensures Climbing(t, i, i, Looked(order, preds - preds))
  {
    assert Looked(order, preds - preds) == {};
  }

  lemma ClimbStep(t: SearchTree, i: nat, m: nat, done: set<nat>, p: nat)
    requires DfsTree(t) && i < |t.par| && Climbing(t, i, m, done) && p in t.preds[i]
    ensures p < |t.par| && Climbing(t, i, if Up(t, p, i + 1) < m then Up(t, p, i + 1) else m, done + {p})
  {
    hide Up;
  }

  lemma LookedMore(order: seq<BlockId>, preds: set<BlockId>, todo: set<BlockId>, pred: BlockId, dfn: map<BlockId, nat>)
    requires Distinct(order) && DfnOk(order, dfn) && pred in todo && todo <= preds
    ensures pred in dfn ==> dfn[pred] < |order| && order[dfn[pred]] == pred && dfn[pred] in Looked(order, preds)
    ensures Looked(order, preds - todo + {pred}) == if pred in dfn then Looked(order, preds - todo) + {dfn[pred]}
      else Looked(order, preds - todo)
  {
    if pred in order {
      var k :| 0 <= k < |order| && order[k] == pred;
      assert dfn[pred] == k;
    }
  }

  /** Whether the candidate's sdom is numbered below the block's own. */
  method LowerCandidate(candidate: BlockId, node: BlockId, dfn: map<BlockId, nat>, sdom: Links, order: seq<BlockId>,
                        ghost sd: seq<nat>, ghost c: nat, ghost i: nat)
    returns (lower: bool)
    requires c < |order| && i < |order| && order[c] == candidate && order[i] == node && Repr(order, sdom, sd)
    requires DfnOk(order, dfn)
    ensures sd[c] < |order| && sd[i] < |order| && (lower <==> sd[c] < sd[i])
  {
    ReprAt(order, sdom, sd, c);
    ReprAt(order, sdom, sd, i);
    lower := dfn[sdom[candidate]] < dfn[sdom[node]];
  }

  /** The members of a bucket climb to its owner, their sdom. */
  ghost predicate Climbers(t: SearchTree, sd: seq<nat>, ks: set<nat>, i: nat)
    requires DfsTree(t) && 1 <= i < |t.par| && |sd| == |t.par|
  {
    sd[t.par[i]] == t.par[i] && forall k: nat :: k in ks ==> k < |t.par| && sd[k] == t.par[i] && Up(t, k, i) == t.par[i]
  }

  lemma BucketClimbs(t: SearchTree, sdom: seq<nat>, idom: seq<nat>, bucket: seq<set<nat>>, i: nat, m: nat)
    requires DfsTree(t) && 1 <= i < |t.par| && m < i && |sdom| == |t.par| && |bucket| == |t.par|
    requires Semi(t, sdom[i := m], i) && Settled(t, sdom, idom, bucket, i + 1)
    ensures Climbers(t, sdom[i := m], bucket[m := bucket[m] + {i}][t.par[i]], i)
  {
    SemiOwner(t, sdom[i := m], i);
    hide Semi, Settled, Up, DfsTree;
    var ks := bucket[m := bucket[m] + {i}][t.par[i]];
    forall k: nat | k in ks ensures k < |t.par| && sdom[i := m][k] == t.par[i] && Up(t, k, i) == t.par[i] {
      BucketMember(t, sdom, idom, bucket, i, m, k);
    }
    assert Climbers(t, sdom[i := m], ks, i);
  }

  lemma SemiOwner(t: SearchTree, sdom: seq<nat>, i: nat)
    requires DfsTree(t) && 1 <= i < |t.par| && Semi(t, sdom, i)
    ensures |sdom| == |t.par| && t.par[i] < i && sdom[t.par[i]] == t.par[i]
  {
  }

  lemma ClimberAt(t: SearchTree, sd: seq<nat>, ks: set<nat>, i: nat, k: nat)
    requires DfsTree(t) && 1 <= i < |t.par| && |sd| == |t.par| && Climbers(t, sd, ks, i) && k in ks
    ensures k < |t.par| && sd[k] == t.par[i] && Up(t, k, i) == t.par[i] && t.par[i] < i && sd[t.par[i]] == t.par[i]
  {
    hide Up;
  }

  /** Empties a parent's bucket: every member's idom becomes its sdom. */
  method EmptyBucket(members: set<BlockId>, i: nat, sets: Links, dfn: map<BlockId, nat>, sdom: Links, idom: Links,
                     best: Links, order: seq<BlockId>,
                     ghost t: SearchTree, ghost ss: seq<nat>, ghost sd: seq<nat>, ghost ids: seq<nat>,
                       ghost ks: set<nat>, ghost bs: seq<nat>)
    returns (idom': Links, sets': Links, best': Links, ghost ids': seq<nat>, ghost ss': seq<nat>, ghost bs': seq<nat>)
    requires DfsTree(t) && |t.par| == |order| && Distinct(order) && 1 <= i < |order| && |sd| == |order|
    requires Climbers(t, sd, ks, i) && SameMembers(order, members, ks)
    requires Forest(t, ss, i) && Repr(order, sets, ss) && Repr(order, sdom, sd) && Repr(order, idom, ids)
    requires Repr(order, best, bs) && DfnOk(order, dfn)
    ensures Repr(order, idom', ids') && Emptied(sd, ids, ids', ks)
    ensures Forest(t, ss', i) && Repr(order, sets', ss') && Repr(order, best', bs')
  {
    hide Up, Anc, Repr, DfnOk, DfsTree, Forest, Distinct, Emptied, Climbers, SameMembers;
    idom', sets', best', ids', ss', bs' := idom, sets, best, ids, ss, bs;
    var todo := members;
    ghost var done: set<nat> := {};
    ReprLength(order, idom, ids);
    EmptiedNothing(sd, ids);
    IndicesLeft(order, members, ks);
    while todo != {}
      invariant todo <= members && done <= ks && Emptied(sd, ids, ids', done) && Repr(order, idom', ids')
      invariant forall k :: k in ks ==> k < |order| && (order[k] in todo || k in done)
      invariant Forest(t, ss', i) && Repr(order, sets', ss') && Repr(order, best', bs')
      decreases todo
    {
      var v :| v in todo;
      ghost var k := MemberIndex(order, members, ks, v);
      ClimberAt(t, sd, ks, i, k);
      var w;
      w, sets', best', ss', bs' := Find(v, sets', dfn, sdom, best', order, t, ss', sd, bs', k, i);
      ReprAt(order, sdom, sd, k);
      ReprAt(order, sdom, sd, t.par[i]);
      ReprUpdate(order, idom', ids', k, sd[k]);
      EmptiedOne(sd, ids, ids', done, k);
      if sdom[w] == sdom[v] {
        idom' := idom'[v := sdom[v]];
      } else {
        idom' := idom'[v := w];
      }
      ids' := ids'[k := sd[k]];
      done := done + {k};
      OnlyIndex(order, k);
      todo := todo - {v};
    }
    assert done == ks;
  }

  lemma IndicesLeft(order: seq<BlockId>, members: set<BlockId>, ks: set<nat>)
    requires SameMembers(order, members, ks)
    ensures forall k :: k in ks ==> k < |order| && order[k] in members
  {
  }

  lemma MemberIndex(order: seq<BlockId>, members: set<BlockId>, ks: set<nat>, v: BlockId) returns (k: nat)
    requires SameMembers(order, members, ks) && v in members
    ensures k in ks && k < |order| && order[k] == v
  {
    k :| k in ks && k < |order| && order[k] == v;
  }

  lemma EmptiedOne(sd: seq<nat>, ids: seq<nat>, ids': seq<nat>, done: set<nat>, k: nat)
    requires Emptied(sd, ids, ids', done) && k < |sd|
    ensures |ids'| == |sd| && Emptied(sd, ids, ids'[k := sd[k]], done + {k})
  {
  }

  lemma OnlyIndex(order: seq<BlockId>, k: nat)
    requires Distinct(order) && k < |order|
    ensures forall j :: 0 <= j < |order| && order[j] == order[k] ==> j == k
  {
  }

  method Enumerate(order: seq<BlockId>) returns (dfn: map<BlockId, nat>, ids: Links, ghost s: seq<nat>)
    requires Distinct(order)
    ensures DfnOk(order, dfn) && Repr(order, ids, s) && forall k :: 0 <= k < |order| ==> s[k] == k
  {
    dfn, ids := map[], map[];
    for k := 0 to |order|
      invariant forall b :: b in dfn <==> b in order[..k]
      invariant forall b :: b in ids <==> b in order[..k]
      invariant forall j: nat :: j < k ==> order[j] in order[..k] && dfn[order[j]] == j && ids[order[j]] == order[j]
    {
      assert order[..k + 1] == order[..k] + [order[k]];
      dfn := dfn[order[k] := k];
      ids := ids[order[k] := order[k]];
    }
    assert order[..|order|] == order;
    s := seq(|order|, k => k);
  }

  /** The main loop: blocks in reverse order of discovery. */
  method ReverseScan(cfg: ControlFlowGraph, order: seq<BlockId>, dfsParent: map<BlockId, BlockId>, ghost num: Numbering,
                     ghost t: SearchTree)
    returns (idom: Links, sdom: Links, ghost ids: seq<nat>, ghost sd: seq<nat>)
    requires TreeOfNumbering(cfg, num, t) && DfsTree(t) && Distinct(order) && num.order == order
    requires num.parent == dfsParent && |t.par| == |order| && |order| > 0
    ensures Repr(order, idom, ids) && Repr(order, sdom, sd)
    ensures |sd| == |t.par| && ClimbTree(t, ids) && forall i :: 1 <= i < |ids| ==> ids[i] == sd[i]
  {
    hide Up, Anc, NumberingOf, Mirrored, TreeOfNumbering, DfsTree, Settled, Semi, Forest, LeastClimb, Emptied,
      SameMembers, Repr, ReprSets, Distinct, DfnOk, Looked;
    var dfn: map<BlockId, nat>;
    dfn, sdom, sd := Enumerate(order);
    idom := sdom;
    var sets: Links, best: Links := sdom, sdom;
    ghost var ss: seq<nat>, bs: seq<nat>, bk: seq<set<nat>> := sd, sd, seq(|order|, k => {});
    ids := sd;
    var bucket: Buckets := map[];
    ReprLength(order, sdom, sd);
    NoBuckets(order, bk);
    InitialState(t, sd, bk);
    var i := |order|;
    while i > 1
      invariant 1 <= i <= |order|
      invariant Forest(t, ss, i) && Semi(t, sd, i) && Settled(t, sd, ids, bk, i)
      invariant Repr(order, sets, ss) && Repr(order, sdom, sd) && Repr(order, idom, ids) && Repr(order, best, bs)
      invariant ReprSets(order, bucket, bk)
    {
      i := i - 1;
      var node := order[i];
      ghost var m, sd0, ids0 := i, sd, ids;
      NodeFacts(cfg, num, t, i);
      SettledLengths(t, sd, ids, bk, i + 1);
      SemiBelow(t, sd, i);
      sdom, sets, best, m, ss, bs := LowestClimb(cfg.preds[node], i, sets, dfn, sdom, best, order, t, ss, sd, bs);
      SemiStep(t, sd, i, m);
      sd := sd[i := m];
      ReprAt(order, sdom, sd, i);
      ReprAdd(order, bucket, bk, m, i);
      bucket := AddTo(bucket, sdom[node], node);
      ghost var full := bk[m := bk[m] + {i}];
      var parent := dfsParent[node];
      LinkStep(t, ss, i);
      ReprUpdate(order, sets, ss, i, t.par[i]);
      ReprAt(order, sets, ss, i);
      sets, ss := sets[node := parent], ss[i := t.par[i]];
      BucketAt(order, bucket, full, t.par[i]);
      if parent in bucket {
        BucketClimbs(t, sd0, ids, bk, i, m);
        idom, sets, best, ids, ss,
          bs := EmptyBucket(bucket[parent], i, sets, dfn, sdom, idom, best, order, t, ss, sd, ids, full[t.par[i]], bs);
      } else {
        EmptiedNothing(sd, ids);
      }
      ReprDrop(order, bucket, full, t.par[i]);
      bucket := bucket - {parent};
      SettleStep(t, sd0, ids0, bk, i, m, ids);
      bk := full[t.par[i] := {}];
    }
    Conclude(t, sd, ids, bk);
  }

  predicate AgreeBelowRoot(order: seq<BlockId>, f: Links, g: Links) {
    forall k :: 1 <= k < |order| ==> order[k] in f && order[k] in g && f[order[k]] == g[order[k]]
  }

  lemma ReprAgree(order: seq<BlockId>, f: Links, g: Links, s: seq<nat>, r: seq<nat>)
    requires Repr(order, f, s) && Repr(order, g, r) && forall k :: 1 <= k < |order| ==> s[k] == r[k]
    ensures AgreeBelowRoot(order, f, g)
  {
  }

  /** The construction, over any graph whose predecessor sets mirror its successors. */
  method BuildDomTree(cfg: ControlFlowGraph)
    returns (tree: DominatorTree, ghost num: Numbering, ghost t: SearchTree, ghost ids: seq<nat>)
    requires forall n: Numbering :: NumberingOf(cfg, n) ==> Mirrored(cfg, n)
    ensures NumberingOf(cfg, num) && TreeOfNumbering(cfg, num, t) && TreeFor(num.order, t, tree.idom, ids)
    ensures tree.root == cfg.entry
    ensures InverseOf(tree.children, tree.idom)
  {
    hide Up, Anc, NumberingOf, Mirrored, TreeOfNumbering, DfsTree, Settled, Semi, Forest, LeastClimb, Emptied,
      SameMembers, Repr, ReprSets, Distinct, DfnOk, Looked, AgreeBelowRoot, OverOrder, TreeFor, ChildrenOf,
      SearchTreeOf, InverseOf;
    var order, dfsParent;
    order, dfsParent, num := BuildDfn(cfg);
    NumberingIsTree(cfg, num);
    t := SearchTreeOf(cfg, num);
    TreeIsDfs(cfg, num, t);
    NumberedOnce(cfg, num);
    NumberedFirst(cfg, num);
    var idom: Links, sdom: Links;
    ghost var sd: seq<nat>;
    idom, sdom, ids, sd := ReverseScan(cfg, order, dfsParent, num, t);
    tree := Assemble(cfg, order, idom, sdom, t, ids, sd);
  }

  /** The tree from the final maps. */
  method Assemble(cfg: ControlFlowGraph, order: seq<BlockId>, idom: Links, sdom: Links, ghost t: SearchTree,
                  ghost ids: seq<nat>, ghost sd: seq<nat>)
    returns (tree: DominatorTree)
    requires DfsTree(t) && |t.par| == |order| && Repr(order, idom, ids) && Repr(order, sdom, sd) && |order| > 0
    requires order[0] == cfg.entry
    requires |sd| == |t.par| && ClimbTree(t, ids) && forall i :: 1 <= i < |ids| ==> ids[i] == sd[i]
    ensures TreeFor(order, t, tree.idom, ids) && tree.root == cfg.entry
    ensures InverseOf(tree.children, tree.idom)
  {
    hide DfsTree, ClimbTree, Repr, AgreeBelowRoot, OverOrder, TreeFor, ChildrenOf, InverseOf;
    ClimbLengths(t, ids);
    ReprAgree(order, idom, sdom, ids, sd);
    ReprOver(order, idom, ids);
    ReprOver(order, sdom, sd);
    var final := FollowSdom(order, idom, sdom);
    ReprAt(order, idom, ids, 0);
    SameUpdate(idom, cfg.entry);
    final := final[cfg.entry := cfg.entry];
    tree := DominatorTree(cfg.entry, ChildrenOf(final), final);
    AssembleTree(order, t, final, ids);
  }

  lemma ClimbLengths(t: SearchTree, ids: seq<nat>)
    requires DfsTree(t) && ClimbTree(t, ids)
    ensures |ids| == |t.par| && |ids| > 0 && ids[0] == 0
  {
  }

  lemma SameUpdate(f: Links, b: BlockId)
    requires b in f && f[b] == b
    ensures f[b := b] == f
  {
  }

  lemma AssembleTree(order: seq<BlockId>, t: SearchTree, idom: Links, ids: seq<nat>)
    requires DfsTree(t) && |t.par| == |order| && Repr(order, idom, ids) && ClimbTree(t, ids)
    ensures TreeFor(order, t, idom, ids)
  {
    hide DfsTree, Repr, LeastClimb;
  }

  /** The inverse of the parent map. */
  function ChildrenOf(idom: Links): (children: Buckets)
    ensures InverseOf(children, idom)
  {
    map b: BlockId | b in idom :: set c: BlockId | c in idom && c != b && idom[c] == b
  }

  ghost predicate OverOrder(order: seq<BlockId>, f: Links) {
    (forall b :: b in f <==> b in order) && forall b :: b in f ==> f[b] in order
  }

  lemma ReprOver(order: seq<BlockId>, f: Links, s: seq<nat>)
    requires Repr(order, f, s)
    ensures OverOrder(order, f)
  {
    forall b | b in f ensures f[b] in order {
      var k :| 0 <= k < |order| && order[k] == b;
      assert f[order[k]] == order[s[k]];
    }
  }

  lemma OverAt(order: seq<BlockId>, f: Links, k: nat)
    requires OverOrder(order, f) && k < |order|
    ensures order[k] in f && f[order[k]] in f && f[f[order[k]]] in order
  {
  }

  lemma OverSet(order: seq<BlockId>, f: Links, k: nat, v: BlockId)
    requires OverOrder(order, f) && k < |order| && v in order
    ensures OverOrder(order, f[order[k] := v])
  {
  }

  /** The last pass: blocks whose idom is not their sdom take their idom's. It finds nothing to do
      when the two agree. */
  method FollowSdom(order: seq<BlockId>, idom: Links, sdom: Links) returns (idom': Links)
    requires OverOrder(order, idom) && OverOrder(order, sdom)
    ensures AgreeBelowRoot(order, idom, sdom) ==> idom' == idom
  {
    hide OverOrder;
    idom' := idom;
    var k := 1;
    while k < |order|
      invariant 1 <= k
      invariant OverOrder(order, idom')
      invariant AgreeBelowRoot(order, idom, sdom) ==> idom' == idom
    {
      OverAt(order, idom', k);
      OverAt(order, sdom, k);
      if idom'[order[k]] != sdom[order[k]] {
        OverSet(order, idom', k, idom'[idom'[order[k]]]);
        idom' := idom'[order[k] := idom'[idom'[order[k]]]];
      }
      k := k + 1;
    }
  }

  lemma NumberedFirst(cfg: ControlFlowGraph, num: Numbering)
    requires NumberingOf(cfg, num)
    ensures |num.order| > 0 && num.order[0] == cfg.entry
  {
  }

  lemma ReprLength(order: seq<BlockId>, f: Links, s: seq<nat>)
    requires Repr(order, f, s)
    ensures |s| == |order|
  {
  }

  lemma NoBuckets(order: seq<BlockId>, bk: seq<set<nat>>)
    requires |bk| == |order| && forall k :: 0 <= k < |bk| ==> bk[k] == {}
    ensures ReprSets(order, map[], bk)
  {
  }

  lemma NodeFacts(cfg: ControlFlowGraph, num: Numbering, t: SearchTree, i: nat)
    requires TreeOfNumbering(cfg, num, t) && 1 <= i < |num.order|
    ensures |t.par| == |num.order| && |t.preds| == |num.order| && t.par[i] < i && num.order[i] in cfg.preds
    ensures t.preds[i] == Looked(num.order, cfg.preds[num.order[i]])
    ensures num.order[i] in num.parent && num.parent[num.order[i]] == num.order[t.par[i]]
  {
    assert ParentAt(cfg, num, i, t.par[i]);
  }

  lemma SettledLengths(t: SearchTree, sd: seq<nat>, ids: seq<nat>, bk: seq<set<nat>>, lim: nat)
    requires DfsTree(t) && lim >= 1 && Settled(t, sd, ids, bk, lim)
    ensures |sd| == |t.par| && |ids| == |t.par| && |bk| == |t.par|
  {
  }

  lemma BucketAt(order: seq<BlockId>, f: Buckets, s: seq<set<nat>>, k: nat)
    requires ReprSets(order, f, s) && k < |order|
    ensures |s| == |order| && (if order[k] in f then SameMembers(order, f[order[k]], s[k]) else s[k] == {})
  {
    hide SameMembers;
  }

  lemma NumberedOnce(cfg: ControlFlowGraph, num: Numbering)
    requires NumberingOf(cfg, num)
    ensures Distinct(num.order)
  {
  }

  lemma InitialState(t: SearchTree, sd: seq<nat>, bk: seq<set<nat>>)
    requires DfsTree(t) && |sd| == |t.par| && |bk| == |t.par| && (forall k :: 0 <= k < |sd| ==> sd[k] == k)
    requires (forall k :: 0 <= k < |bk| ==> bk[k] == {})
    ensures Forest(t, sd, |sd|) && Semi(t, sd, |sd|) && Settled(t, sd, sd, bk, |sd|)
  {
  }

  lemma SemiBelow(t: SearchTree, sd: seq<nat>, i: nat)
    requires DfsTree(t) && Semi(t, sd, i + 1) && i < |sd|
    ensures forall j: nat :: j <= i ==> sd[j] == j
  {
  }

  lemma EmptiedNothing(sd: seq<nat>, ids: seq<nat>)
    requires |sd| == |ids|
    ensures Emptied(sd, ids, ids, {})
  {
  }

  lemma Conclude(t: SearchTree, sd: seq<nat>, ids: seq<nat>, bk: seq<set<nat>>)
    requires DfsTree(t) && Semi(t, sd, 1) && Settled(t, sd, ids, bk, 1)
    ensures |sd| == |t.par| && ClimbTree(t, ids) && forall i :: 1 <= i < |ids| ==> ids[i] == sd[i]
  {
    AllSettled(t, sd, ids, bk);
  }

  lemma TreeIsDfs(cfg: ControlFlowGraph, num: Numbering, t: SearchTree)
    requires TreeOfNumbering(cfg, num, t)
    ensures DfsTree(t) && |num.order| == |t.par|
  {
  }
}
