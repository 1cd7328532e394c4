/** The walk of global value numbering over a dominator tree and the removals after it
    (src/ir/opt/global_gvn.rs:38-183). */
module GvnPass {
  import opened CoreInts
  import opened Ir
  import opened UseLists
  import opened ModuleCores
  import opened Semantics
  import opened Ssa
  import opened Rewrites
  import opened Clearing
  import opened Gvn
  import opened GvnWalk
  import opened GvnLeaders

  // ---------------------------------------------------------------- the walk

  lemma WalkedSSA(a: Body, b: Body, r: seq<(InstId, InstId)>, t: seq<InstId>)
    requires Walked(a, b, r, t)
    ensures SSA(b) && Rewritten(a, b) && b == ApplyAll(a, r) && b.blocks == a.blocks
  {
    hide SSA, Rewritten, ApplyAll;
    ApplyShape(a, r);
  }

  lemma ListedExists(body: Body, b: BlockId, k: nat)
    requires SSA(body) && b in body.blocks && k < |body.blocks[b].insts|
    ensures body.blocks[b].insts[k] in body.insts
  {
    hide BlockOk, OperandsExist;
    assert Contains(body.blocks[b], body.blocks[b].insts[k]);
  }

  lemma TableEntry(body: Body, table: Table, b: BlockId, k: nat, key: ExprKey)
    requires TableOk(body, table, b, k) && key in table
    ensures table[key].InstValue?
  {
    hide Leads, Before;
  }

  lemma InterchangeDistinct(body: Body, w: InstId, v: ValueId)
    requires Interchangeable(body, w, v)
    ensures v != InstValue(w) && Knows(body, InstValue(w))
  {
    hide Before, Reachable, EquationsHold;
  }

  lemma TableGrows(body: Body, table: Table, b: BlockId, k: nat, key: ExprKey, w: InstId)
    requires TableOk(body, table, b, k) && Leads(body, key, w) && Before(body, w, b, k)
    ensures TableOk(body, table[key := InstValue(w)], b, k)
  {
    hide Leads, Before;
  }

  /** Table, tree and reachability survive a step of the walk. */
  lemma WalkedStep(a: Body, b: Body, r: seq<(InstId, InstId)>, t: seq<InstId>, table: Table, tree: DomTree, c: BlockId,
                   k: nat)
    requires Walked(a, b, r, t) && TableOk(a, table, c, k) && TrueTree(a, tree)
    ensures b.blocks == a.blocks && TableOk(b, table, c, k) && TrueTree(b, tree)
    ensures (Reachable(a, c) ==> Reachable(b, c))
  {
    hide SSA, TableOk, TrueTree, AlwaysEqual, Removable;
    TableRewritten(a, b, table, c, k);
    TreeRewritten(a, b, tree);
    if Reachable(a, c) {
      SamePaths(a, b);
    }
    hide Reachable, EquationsHold, Execute, SameEdges;
  }

  // ---------------------------------------------------------------- the loop over the block's own instructions

  /** The part of the loop's invariant that says what was found: which instructions were seen, and
      that the table holds exactly those that were not replaced. */
  ghost predicate Found(text: ValueId -> int, body: Body, table: Table, b: BlockId, k: nat, above: set<InstId>,
                        seen: set<InstId>, replaced: seq<(InstId, InstId)>) {
    && b in body.blocks && k <= |body.blocks[b].insts|
    && (forall i :: i in seen <==> i in body.blocks[b].insts[..k])
    && AllBefore(body, above, b, k) && AllBefore(body, seen, b, k) && Gone(replaced) <= seen
    && TableExact(text, body, table, Leaders(above, seen, replaced))
    && Followed(text, body, Leaders(above, seen, replaced), replaced)
  }

  lemma FoundStart(text: ValueId -> int, body: Body, table: Table, b: BlockId, above: set<InstId>)
    requires b in body.blocks && AllBefore(body, above, b, 0) && TableExact(text, body, table, above)
    ensures Found(text, body, table, b, 0, above, {}, [])
  {
    hide KeyIn, Before;
    assert Leaders(above, {}, []) == above;
  }

  lemma SeenMore(body: Body, b: BlockId, k: nat, above: set<InstId>, seen: set<InstId>)
    requires SSA(body) && b in body.blocks && k < |body.blocks[b].insts|
    requires AllBefore(body, above, b, k) && AllBefore(body, seen, b, k)
    requires forall i :: i in seen <==> i in body.blocks[b].insts[..k]
    ensures AllBefore(body, above, b, k + 1) && AllBefore(body, seen + {body.blocks[b].insts[k]}, b, k + 1)
    ensures forall i :: i in seen + {body.blocks[b].insts[k]} <==> i in body.blocks[b].insts[..k + 1]
    ensures body.blocks[b].insts[k] !in above + seen
  {
    hide SSA, Before;
    forall i | i in above ensures Before(body, i, b, k + 1) {
      BeforeNext(body, b, k, i);
    }
    forall i | i in seen + {body.blocks[b].insts[k]} ensures Before(body, i, b, k + 1) {
      BeforeNext(body, b, k, i);
    }
    SelfNotBefore(body, b, k, above + seen);
  }

  lemma FoundKeyless(text: ValueId -> int, body: Body, table: Table, b: BlockId, k: nat, above: set<InstId>,
                     seen: set<InstId>, replaced: seq<(InstId, InstId)>, w: InstId)
    requires SSA(body) && Found(text, body, table, b, k, above, seen, replaced)
    requires k < |body.blocks[b].insts| && body.blocks[b].insts[k] == w && KeyIn(text, body, w).None?
    ensures Found(text, body, table, b, k + 1, above, seen + {w}, replaced)
  {
    hide SSA, KeyIn, TableExact, AllBefore;
    SeenMore(body, b, k, above, seen);
    ExactKeyless(text, body, table, Leaders(above, seen, replaced), w);
    assert Leaders(above, seen + {w}, replaced) == Leaders(above, seen, replaced) + {w};
  }

  lemma FoundLeader(text: ValueId -> int, body: Body, table: Table, b: BlockId, k: nat, above: set<InstId>,
                    seen: set<InstId>, replaced: seq<(InstId, InstId)>, w: InstId, key: ExprKey)
    requires SSA(body) && Found(text, body, table, b, k, above, seen, replaced)
    requires k < |body.blocks[b].insts| && body.blocks[b].insts[k] == w && KeyIn(text, body, w) == Some(key)
    requires key !in table
    ensures Found(text, body, table[key := InstValue(w)], b, k + 1, above, seen + {w}, replaced)
  {
    hide SSA, KeyIn, TableExact, AllBefore;
    SeenMore(body, b, k, above, seen);
    ExactGrows(text, body, table, Leaders(above, seen, replaced), w, key);
    assert Leaders(above, seen + {w}, replaced) == Leaders(above, seen, replaced) + {w};
  }

  lemma FoundFollower(text: ValueId -> int, body: Body, body': Body, table: Table, b: BlockId, k: nat,
                      above: set<InstId>, seen: set<InstId>, replaced: seq<(InstId, InstId)>, w: InstId, key: ExprKey)
    requires SSA(body) && Reachable(body, b) && Found(text, body, table, b, k, above, seen, replaced)
    requires k < |body.blocks[b].insts| && body.blocks[b].insts[k] == w && KeyIn(text, body, w) == Some(key)
    requires key in table && table[key].InstValue?
    requires body' == SubstituteAll(body, InstValue(w), table[key]) && Rewritten(body, body')
    ensures Found(text, body', table, b, k + 1, above, seen + {w}, replaced + [(w, table[key].inst)])
  {
    hide SSA, KeyIn, TableExact, Reachable, Rewritten, Followed, SubstituteAll, Gone, Leaders;
    SeenMore(body, b, k, above, seen);
    StepReplaces(text, body, body', table, b, k, w, above, seen, replaced);
    AllBeforeRewritten(body, body', above, b, k + 1);
    AllBeforeRewritten(body, body', seen + {w}, b, k + 1);
    GoneConcat(replaced, [(w, table[key].inst)]);
    GoneOne(w, table[key].inst);
    SameBlocks(body, w, table[key]);
  }

  lemma SameBlocks(body: Body, w: InstId, v: ValueId)
    ensures SubstituteAll(body, InstValue(w), v).blocks == body.blocks
  {
  }

  lemma GoneOne(w: InstId, leader: InstId)
    ensures Gone([(w, leader)]) == {w}
  {
    assert (w, leader) in [(w, leader)];
  }

  lemma AllBeforeRewritten(a: Body, b: Body, which: set<InstId>, c: BlockId, k: nat)
    requires Rewritten(a, b) && AllBefore(a, which, c, k)
    ensures AllBefore(b, which, c, k)
  {
    hide Rewritten, Before;
    forall i | i in which ensures Before(b, i, c, k) {
      RewrittenBefore(a, b, i, c, k);
    }
  }

  /** All of the block's own instructions have been seen. */
  lemma FoundAll(text: ValueId -> int, body: Body, table: Table, b: BlockId, above: set<InstId>, own: set<InstId>,
                 replaced: seq<(InstId, InstId)>)
    requires SSA(body) && b in body.blocks && Found(text, body, table, b, |body.blocks[b].insts|, above, own, replaced)
    ensures own == InLists(body.blocks, {b}) && Numbered(text, body, own, above, replaced)
  {
    SsaPlaced(body);
    hide SSA, WellPlaced, KeyIn, TableExact, AllBefore, Followed, Numbered;
    BlockNumbered(text, body, table, above, own, replaced);
  }

  // ---------------------------------------------------------------- the loop over the children

  /** After some children: the table is as it was after the block's own instructions, and when the
      tree keeps siblings apart nothing was missed. */
  ghost predicate Joined(text: ValueId -> int, body: Body, tree: DomTree, c: nat, table: Table, above: set<InstId>,
                         own: set<InstId>, seen: set<InstId>, replaced: seq<(InstId, InstId)>) {
    && c <= |tree.children| && tree.block in body.blocks
    && AllBefore(body, above + own, tree.block, |body.blocks[tree.block].insts|)
    && TableExact(text, body, table, Leaders(above, own, replaced)) && Gone(replaced) <= seen
    && seen == own + InLists(body.blocks, BlocksOf(tree.children[..c]))
    && (Apart(body, tree) ==> Numbered(text, body, seen, above, replaced))
  }

  lemma JoinedStart(text: ValueId -> int, body: Body, tree: DomTree, table: Table, above: set<InstId>,
                    own: set<InstId>, replaced: seq<(InstId, InstId)>)
    requires SSA(body) && tree.block in body.blocks
    requires Found(text, body, table, tree.block, |body.blocks[tree.block].insts|, above, own, replaced)
    ensures Joined(text, body, tree, 0, table, above, own, own, replaced)
  {
    hide SSA, KeyIn, TableExact, Before, Followed, Numbered, Apart;
    FoundAll(text, body, table, tree.block, above, own, replaced);
    assert tree.children[..0] == [];
  }

  lemma JoinedEnd(text: ValueId -> int, body: Body, tree: DomTree, table: Table, above: set<InstId>, own: set<InstId>,
                  seen: set<InstId>, replaced: seq<(InstId, InstId)>)
    requires Joined(text, body, tree, |tree.children|, table, above, own, seen, replaced)
    requires own == InLists(body.blocks, {tree.block})
    ensures seen == InLists(body.blocks, Blocks(tree)) && Gone(replaced) <= seen
    ensures Apart(body, tree) ==> Numbered(text, body, seen, above, replaced)
  {
    hide TableExact, AllBefore, Numbered, Apart;
    assert tree.children[..|tree.children|] == tree.children;
  }

  /** The table a child starts with is exact there. */
  lemma ChildTable(text: ValueId -> int, body: Body, tree: DomTree, c: nat, table: Table, above: set<InstId>,
                   own: set<InstId>, seen: set<InstId>, replaced: seq<(InstId, InstId)>)
    requires Joined(text, body, tree, c, table, above, own, seen, replaced) && c < |tree.children|
    requires TrueTree(body, tree)
    ensures TableExact(text, body, table, Leaders(above, own, replaced))
    ensures AllBefore(body, Leaders(above, own, replaced), tree.children[c].block, 0)
    ensures Apart(body, tree) ==> Apart(body, tree.children[c])
  {
    hide TableExact, TrueTree, Numbered, Before;
    TreeChild(body, tree, tree.children[c]);
    assert tree.children[c] in tree.children;
    hide Apart;
    forall i | i in Leaders(above, own, replaced) ensures Before(body, i, tree.children[c].block, 0) {
      assert i in above + own;
      AboveStays(body, i, tree.block, |body.blocks[tree.block].insts|, tree.children[c].block, 0);
    }
  }

  lemma OwnOutOf(body: Body, tree: DomTree, child: DomTree, which: set<InstId>, k: nat)
    requires TrueTree(body, tree) && child in tree.children && AllBefore(body, which, tree.block, k)
    ensures OutOf(body, which, Blocks(child))
  {
    hide TrueTree, Dominates, Reachable;
    TreeRoot(body, tree);
    forall i | i in which ensures OutOfAt(body, i, Blocks(child)) {
      assert Before(body, i, tree.block, k);
      var home := body.insts[i].parent.value;
      DominatesSelf(body, tree.block);
      DominatorReachable(body, home, tree.block);
      forall x | x in Blocks(child) ensures !Dominates(body, x, home) {
        ChildNotAbove(body, tree, child, x, home);
      }
    }
  }

  lemma UpToBlocks(tree: DomTree, c: nat, x: BlockId) returns (i: nat)
    requires c <= |tree.children| && x in BlocksOf(tree.children[..c])
    ensures i < c && x in Blocks(tree.children[i])
  {
    var n :| n in tree.children[..c] && x in Blocks(n);
    i :| i < c && tree.children[i] == n;
  }

  /** What earlier siblings hold is out of a child's way, and comes before nothing in it. */
  lemma SiblingsOutOf(body: Body, tree: DomTree, c: nat)
    requires SSA(body) && TrueTree(body, tree) && Apart(body, tree) && c < |tree.children|
    ensures OutOf(body, InLists(body.blocks, BlocksOf(tree.children[..c])), Blocks(tree.children[c]))
    ensures NoneEarlier(body, InLists(body.blocks, BlocksOf(tree.children[..c])),
      InLists(body.blocks, Blocks(tree.children[c])))
  {
    SsaPlaced(body);
    hide SSA, WellPlaced, Dominates, Reachable, TrueTree, InLists;
    var child := tree.children[c];
    forall i | i in InLists(body.blocks, BlocksOf(tree.children[..c])) ensures OutOfAt(body, i, Blocks(child)) {
      ListedHome(body, BlocksOf(tree.children[..c]), i);
      var j := UpToBlocks(tree, c, body.insts[i].parent.value);
      TreeChild(body, tree, tree.children[j]);
      BelowRoot(body, tree.children[j], body.insts[i].parent.value);
    }
    forall u, w | u in InLists(body.blocks, BlocksOf(tree.children[..c])) && w in InLists(body.blocks, Blocks(child))
      ensures !Earlier(body, u, w)
    {
      ListedHome(body, Blocks(child), w);
      TreeChild(body, tree, child);
      BelowRoot(body, child, body.insts[w].parent.value);
      forall x | x in BlocksOf(tree.children[..c]) ensures !Dominates(body, x, body.insts[w].parent.value) {
        var j := UpToBlocks(tree, c, x);
      }
      NotEarlierFrom(body, BlocksOf(tree.children[..c]), u, w);
    }
  }

  lemma MoreListed(blocks: map<BlockId, BlockData>, tree: DomTree, c: nat)
    requires c < |tree.children|
    ensures InLists(blocks, BlocksOf(tree.children[..c + 1]))
      == InLists(blocks, BlocksOf(tree.children[..c])) + InLists(blocks, Blocks(tree.children[c]))
  {
    OneMoreTree(tree.children, c);
    hide BlocksOf, Blocks;
  }

  lemma OutOfBoth(body: Body, one: set<InstId>, two: set<InstId>, where: set<BlockId>)
    requires OutOf(body, one, where) && OutOf(body, two, where)
    ensures OutOf(body, one + two, where)
  {
    hide OutOfAt;
  }

  lemma ApartBack(a: Body, b: Body, tree: DomTree)
    requires Rewritten(a, b)
    ensures Apart(b, tree) <==> Apart(a, tree)
  {
    hide Apart, EquationsHold, Execute, Inside, Edge, Droppable, IsPure;
    assert SameEdges(b, a);
    if Apart(a, tree) {
      ApartRewritten(a, b, tree);
    }
    if Apart(b, tree) {
      ApartRewritten(b, a, tree);
    }
  }

  /** One child's walk leaves the table exact. */
  lemma TableAfterChild(text: ValueId -> int, a: Body, b: Body, tree: DomTree, child: DomTree, table: Table,
                        above: set<InstId>, own: set<InstId>, r1: seq<(InstId, InstId)>, r2: seq<(InstId, InstId)>)
    requires SSA(a) && TrueTree(a, tree) && child in tree.children && b == ApplyAll(a, r2) && Rewritten(a, b)
    requires AllBefore(a, above + own, tree.block, |a.blocks[tree.block].insts|)
    requires TableExact(text, a, table, Leaders(above, own, r1)) && Gone(r2) <= InLists(a.blocks, Blocks(child))
    ensures TableExact(text, b, table, Leaders(above, own, r1 + r2)) && OutOf(a, above + own, Blocks(child))
    ensures AllBefore(b, above + own, tree.block, |a.blocks[tree.block].insts|)
  {
    SsaPlaced(a);
    hide SSA, WellPlaced, TrueTree, TableExact, AllBefore, Gone, InLists, Rewritten, Blocks, OutOf, KeyIn, KeysKept,
      ApplyAll;
    OwnOutOf(a, tree, child, above + own, |a.blocks[tree.block].insts|);
    OutOfDisjoint(a, above + own, Blocks(child));
    KeysStable(text, a, r2, above + own, Blocks(child));
    GoneConcat(r1, r2);
    KeysKeptFor(text, a, b, above + own, Leaders(above, own, r1));
    ExactKept(text, a, b, table, Leaders(above, own, r1));
    assert Leaders(above, own, r1 + r2) == Leaders(above, own, r1);
    AllBeforeRewritten(a, b, above + own, tree.block, |a.blocks[tree.block].insts|);
  }

  /** And it adds to what was numbered. */
  lemma NumberedAfterChild(text: ValueId -> int, a: Body, b: Body, tree: DomTree, c: nat, above: set<InstId>,
                           own: set<InstId>, seen: set<InstId>, r1: seq<(InstId, InstId)>, r2: seq<(InstId, InstId)>)
    requires SSA(a) && TrueTree(a, tree) && Apart(a, tree) && c < |tree.children| && b == ApplyAll(a, r2)
    requires Rewritten(a, b) && seen == own + InLists(a.blocks, BlocksOf(tree.children[..c])) && Gone(r1) <= seen
    requires Numbered(text, a, seen, above, r1) && OutOf(a, above + own, Blocks(tree.children[c]))
    requires Gone(r2) <= InLists(a.blocks, Blocks(tree.children[c]))
    requires Numbered(text, b, InLists(a.blocks, Blocks(tree.children[c])), Leaders(above, own, r1), r2)
    ensures Numbered(text, b, seen + InLists(a.blocks, Blocks(tree.children[c])), above, r1 + r2)
  {
    hide SSA, TrueTree, Apart, Numbered, Gone, InLists, Rewritten, Blocks, OutOf, NoneEarlier, BlocksOf, ApplyAll,
      Leaders;
    var where := Blocks(tree.children[c]);
    SiblingsOutOf(a, tree, c);
    OutOfBoth(a, above + own, InLists(a.blocks, BlocksOf(tree.children[..c])), where);
    assert above + seen == above + own + InLists(a.blocks, BlocksOf(tree.children[..c]));
    FewerEarlier(a, seen - own, InLists(a.blocks, BlocksOf(tree.children[..c])), InLists(a.blocks, where));
    ChildNumbered(text, a, b, above, own, seen, where, r1, r2);
  }

  lemma FewerEarlier(body: Body, ones: set<InstId>, more: set<InstId>, others: set<InstId>)
    requires NoneEarlier(body, more, others) && ones <= more
    ensures NoneEarlier(body, ones, others)
  {
    hide Earlier;
  }

  /** One child's walk. */
  lemma AfterChild(text: ValueId -> int, a: Body, b: Body, tree: DomTree, c: nat, table: Table, above: set<InstId>,
                   own: set<InstId>, seen: set<InstId>, r1: seq<(InstId, InstId)>, r2: seq<(InstId, InstId)>)
    requires SSA(a) && TrueTree(a, tree) && Joined(text, a, tree, c, table, above, own, seen, r1) && c < |tree.children|
    requires b == ApplyAll(a, r2) && Rewritten(a, b)
    requires Gone(r2) <= InLists(a.blocks, Blocks(tree.children[c]))
    requires Apart(a, tree) ==>
      Numbered(text, b, InLists(a.blocks, Blocks(tree.children[c])), Leaders(above, own, r1), r2)
    ensures Joined(text, b, tree, c + 1, table, above, own, seen + InLists(a.blocks, Blocks(tree.children[c])), r1 + r2)
  {
    hide SSA, TrueTree, TableExact, AllBefore, Numbered, Apart, Gone, InLists, Rewritten, Blocks, OutOf, BlocksOf,
      ApplyAll, Leaders;
    ApplyShape(a, r2);
    TableAfterChild(text, a, b, tree, tree.children[c], table, above, own, r1, r2);
    GoneConcat(r1, r2);
    MoreListed(a.blocks, tree, c);
    ApartBack(a, b, tree);
    if Apart(a, tree) {
      NumberedAfterChild(text, a, b, tree, c, above, own, seen, r1, r2);
    }
  }

  lemma KeysKeptFor(text: ValueId -> int, a: Body, b: Body, all: set<InstId>, which: set<InstId>)
    requires KeysKept(text, a, b, all) && which <= all
    ensures KeysKept(text, a, b, which)
  {
    hide KeyIn;
  }

  // ---------------------------------------------------------------- the walk itself

  /** One dominator-tree node: number the block's instructions, then walk the children with a copy
      of the table each. */
  method GvnDomWalk(m: ModuleCore, text: ValueId -> int, tree: DomTree, parentTable: Table, ghost above: set<InstId>)
    returns (toRemove: seq<InstId>, ghost replaced: seq<(InstId, InstId)>)
    requires m.Valid() && SSA(m.Now()) && TrueTree(m.Now(), tree) && TableOk(m.Now(), parentTable, tree.block, 0)
    requires TableExact(text, m.Now(), parentTable, above) && AllBefore(m.Now(), above, tree.block, 0)
    modifies m`insts, m`valueUses
    ensures m.Valid() && Walked(old(m.Now()), m.Now(), replaced, toRemove)
    ensures Gone(replaced) <= InLists(old(m.blocks), Blocks(tree))
    ensures Apart(old(m.Now()), tree) ==>
      Numbered(text, m.Now(), InLists(old(m.blocks), Blocks(tree)), above, replaced)
    ensures Apart(old(m.Now()), tree) && TextsDiffer(text) ==>
      var visited := InLists(old(m.blocks), Blocks(tree));
      NoneRepeats(m.Now(), m.Now(), Leaders(above, visited, replaced), visited - Gone(replaced))
    decreases tree
  {
    hide WellPlaced, Exact, SSA, Rewritten, Leads, Before, Reachable, Dominates, KeyOf, Walked, Registry, BlockRegistry,
      Droppable, Interchangeable, IsEquation, TableOk, TrueTree,
      Found, Joined, TableExact, AllBefore, Apart, Numbered, InLists, Blocks, Leaders, Gone, ApplyAll, NoneRepeats,
      TextsDiffer;
    ghost var before := m.Now();
    var b := tree.block;
    assert b in before.blocks && Reachable(before, b) by { TreeRoot(before, tree); }
    var table := parentTable;
    toRemove, replaced := [], [];
    WalkedNothing(before);
    FoundStart(text, before, table, b, above);
    ghost var seen: set<InstId> := {};
    var list := m.blocks[b].insts;
    for k := 0 to |list|
      invariant m.Valid() && Walked(before, m.Now(), replaced, toRemove) && TableOk(m.Now(), table, b, k)
      invariant b in m.blocks && m.blocks[b].insts == list && Reachable(m.Now(), b) && TrueTree(m.Now(), tree)
      invariant Found(text, m.Now(), table, b, k, above, seen, replaced)
    {
      ghost var now := m.Now();
      assert SSA(now) by { WalkedSSA(before, now, replaced, toRemove); }
      var w := list[k];
      ListedExists(now, b, k);
      var key := KeyOf(text, m.consts, m.insts[w]);
      if key.Some? {
        PureIfKeyed(text, m.consts, m.insts[w]);
        if key.value in table {
          var prev := table[key.value];
          FollowerInterchangeable(text, now, table, b, k, w, key.value);
          TableEntry(now, table, b, k, key.value);
          InterchangeDistinct(now, w, prev);
          WalkedOne(now, w, prev.inst, b, k);
          m.ReplaceAllUsesWith(InstValue(w), prev);
          WalkedJoin(before, now, m.Now(), replaced, [(w, prev.inst)], toRemove, [w]);
          WalkedStep(now, m.Now(), [(w, prev.inst)], [w], table, tree, b, k);
          WalkedSSA(now, m.Now(), [(w, prev.inst)], [w]);
          FoundFollower(text, now, m.Now(), table, b, k, above, seen, replaced, w, key.value);
          toRemove := toRemove + [w];
          replaced := replaced + [(w, prev.inst)];
          TableLater(m.Now(), table, b, k, k + 1);
        } else {
          NewLeader(text, now, b, k, w, key.value);
          TableLater(now, table, b, k, k + 1);
          TableGrows(now, table, b, k + 1, key.value, w);
          FoundLeader(text, now, table, b, k, above, seen, replaced, w, key.value);
          table := table[key.value := InstValue(w)];
        }
      } else {
        TableLater(now, table, b, k, k + 1);
        FoundKeyless(text, now, table, b, k, above, seen, replaced, w);
      }
      seen := seen + {w};
    }
    ghost var own := seen;
    assert SSA(m.Now()) by { WalkedSSA(before, m.Now(), replaced, toRemove); }
    JoinedStart(text, m.Now(), tree, table, above, own, replaced);
    FoundAll(text, m.Now(), table, b, above, own, replaced);
    for c := 0 to |tree.children|
      invariant m.Valid() && Walked(before, m.Now(), replaced, toRemove) && TableOk(m.Now(), table, b, |list|)
      invariant b in m.blocks && m.blocks[b].insts == list && TrueTree(m.Now(), tree)
      invariant own == InLists(m.blocks, {b}) && m.blocks == before.blocks
      invariant Joined(text, m.Now(), tree, c, table, above, own, seen, replaced)
    {
      ghost var now := m.Now();
      var child := tree.children[c];
      TreeChild(now, tree, child);
      TableForChild(now, table, b, child.block);
      assert SSA(now) by { WalkedSSA(before, now, replaced, toRemove); }
      var t2;
      ghost var r2;
      ChildTable(text, now, tree, c, table, above, own, seen, replaced);
      t2, r2 := GvnDomWalk(m, text, child, table, Leaders(above, own, replaced));
      WalkedJoin(before, now, m.Now(), replaced, r2, toRemove, t2);
      WalkedStep(now, m.Now(), r2, t2, table, tree, b, |list|);
      WalkedSSA(now, m.Now(), r2, t2);
      AfterChild(text, now, m.Now(), tree, c, table, above, own, seen, replaced, r2);
      seen := seen + InLists(m.blocks, Blocks(child));
      toRemove := toRemove + t2;
      replaced := replaced + r2;
    }
    JoinedEnd(text, m.Now(), tree, table, above, own, seen, replaced);
    WalkedSSA(before, m.Now(), replaced, toRemove);
    ApartBack(before, m.Now(), tree);
    if Apart(before, tree) && TextsDiffer(text) {
      NumberedNoneRepeats(text, m.Now(), InLists(before.blocks, Blocks(tree)), above, replaced);
    }
  }

  // ---------------------------------------------------------------- the pass

  /** Part way through the final removals. */
  ghost predicate Removing(start: Body, now: Body, erased: set<InstId>) {
    && Cleared(start, now, erased) && now.consts == start.consts && erased <= start.insts.Keys
    && (forall obs: set<InstId> :: obs !! erased ==> Lockstep(start, now, obs))
    && SSA(now)
  }

  lemma RemoveOne(start: Body, now: Body, erased: set<InstId>, i: InstId)
    requires Removing(start, now, erased) && Attached(now, i) && Droppable(now.insts[i].kind)
    requires forall u :: u in Registry(now) ==> Registry(now)[u] != InstValue(i)
    ensures Removing(start, Erase(now, i), erased + {i})
  {
    hide Droppable, Lockstep, SSA, Erase, ClearBlock, Cleared;
    var after := Erase(now, i);
    assert WellPlaced(now) by { SsaPlaced(now); }
    EraseClears(now, i);
    EraseShape(now, i);
    EraseAfterClearing(start, now, erased, i);
    ClearedIn(start, now, erased, i);
    UnreferencedUnread(now, i);
    ClearedSSA(now, after, {i});
    forall obs: set<InstId> | obs !! erased + {i} ensures Lockstep(start, after, obs) {
      ClearedLockstep(now, after, obs, {i});
      LockstepTransitive(start, now, after, obs);
    }
    hide WellPlaced, Unread;
  }

  lemma ClearedIn(start: Body, now: Body, erased: set<InstId>, i: InstId)
    requires Cleared(start, now, erased) && i in now.insts
    ensures i in start.insts && now.insts[i] == start.insts[i]
  {
    hide ClearBlock;
  }

  /** The body in which the walk left off, minus instructions it marked; of those none that nobody
      uses are left. */
  ghost predicate Erased(start: Body, now: Body, erased: set<InstId>, toRemove: seq<InstId>) {
    && Removing(start, now, erased) && (forall i :: i in erased ==> i in toRemove)
    && forall i :: i in toRemove && NoUser(start, i) ==> i !in now.insts
  }

  /** Of these instructions none left has the key of one before it. The places are those in the body
      before, the operands those after. */
  ghost predicate Thorough(text: ValueId -> int, before: Body, after: Body, which: set<InstId>) {
    forall u, w :: u in which && w in which && u in after.insts && w in after.insts && Earlier(before, u, w) ==>
      !SameKey(text, after, u, w)
  }

  /** Global value numbering with a tree whose parents truly dominate their children. The result is
      the body with the reported replacements made, in order, minus instructions that were replaced;
      every replaced instruction always equals its replacement, and everything that remains behaves
      as before on every run. When the tree also keeps siblings apart, exactly the replaced
      instructions are gone, each had the key of its replacement, and no two of the instructions left
      under the tree, one of them before the other, have the same key. */
  method FuncGlobalGvn(m: ModuleCore, text: ValueId -> int, tree: DomTree)
    returns (ghost replaced: seq<(InstId, InstId)>)
    requires m.Valid() && SSA(m.Now()) && TrueTree(m.Now(), tree)
    modifies m
    ensures m.Valid() && SSA(m.Now()) && m.insts.Keys <= old(m.insts).Keys
    ensures ReplacedOk(old(m.Now()), replaced)
    ensures Lockstep(old(m.Now()), m.Now(), m.insts.Keys)
    ensures Cleared(ApplyAll(old(m.Now()), replaced), m.Now(), old(m.insts).Keys - m.insts.Keys)
    ensures old(m.insts).Keys - m.insts.Keys <= Gone(replaced) <= InLists(old(m.blocks), Blocks(tree))
    ensures Apart(old(m.Now()), tree) ==>
      && old(m.insts).Keys - m.insts.Keys == Gone(replaced)
      && Followed(text, ApplyAll(old(m.Now()), replaced), m.insts.Keys, replaced)
      && Thorough(text, old(m.Now()), m.Now(), InLists(old(m.blocks), Blocks(tree)))
    ensures Apart(old(m.Now()), tree) && TextsDiffer(text) ==>
      var left := InLists(old(m.blocks), Blocks(tree)) * m.insts.Keys;
      NoneRepeats(old(m.Now()), m.Now(), left, left)
  {
    hide WellPlaced, Exact, SSA, Walked, Removing, ReplacedOk, Lockstep, TrueTree, Registry, BlockRegistry, Droppable,
      TableOk, Apart, Numbered, InLists, Blocks, Gone, Followed, Thorough, ApplyAll, Cleared, TableExact, NoUser,
      Erased, NoneRepeats, TextsDiffer, Leaders;
    ghost var before := m.Now();
    EmptyTable(text, before, tree.block);
    var toRemove: seq<InstId>;
    toRemove, replaced := GvnDomWalk(m, text, tree, map[], {});
    ghost var start := m.Now();
    WalkedFacts(before, start, replaced, toRemove);
    ghost var erased: set<InstId> := {};
    RemovingNothing(start);
    for k := 0 to |toRemove|
      invariant m.Valid() && Erased(start, m.Now(), erased, toRemove[..k])
    {
      var i := toRemove[k];
      assert i in toRemove;
      assert toRemove[..k + 1] == toRemove[..k] + [i];
      ghost var now := m.Now();
      if i in m.insts && m.valueUses[InstValue(i)] == [] {
        ErasedKeeps(start, now, erased, toRemove[..k], i);
        NoUsesNoReferences(now, m.valueUses, InstValue(i));
        ErasedOne(start, now, erased, toRemove[..k], i);
        erased := erased + {i};
        m.EraseInstFromParent(i);
      } else {
        if i in m.insts {
          UsedStays(start, now, m.valueUses, erased, toRemove[..k], i);
        }
        ErasedSkip(start, now, erased, toRemove[..k], i);
      }
    }
    assert toRemove[..|toRemove|] == toRemove;
    ErasedFinished(before, start, m.Now(), erased, replaced);
    if Apart(before, tree) {
      assert WellPlaced(before) by { SsaPlaced(before); }
      ListedExist(before, Blocks(tree));
      ErasedAll(text, before, start, m.Now(), erased, replaced, InLists(before.blocks, Blocks(tree)));
      if TextsDiffer(text) {
        ThoroughNoneRepeats(text, before, m.Now(), InLists(before.blocks, Blocks(tree)));
      }
    }
  }

  lemma ThoroughNoneRepeats(text: ValueId -> int, before: Body, after: Body, which: set<InstId>)
    requires TextsDiffer(text) && Thorough(text, before, after, which)
    ensures NoneRepeats(before, after, which * after.insts.Keys, which * after.insts.Keys)
  {
    hide SameKey, Earlier, SameComputation, OneTyped, TextsDiffer;
    forall u, w | u in which && w in which && u in after.insts && w in after.insts
      ensures !Repeats(before, after, u, w)
    {
      if Repeats(before, after, u, w) {
        SameComputationSameKey(text, after, u, w);
      }
    }
  }

  lemma EmptyTable(text: ValueId -> int, body: Body, b: BlockId)
    ensures TableOk(body, map[], b, 0) && TableExact(text, body, map[], {}) && AllBefore(body, {}, b, 0)
  {
  }

  lemma WalkedFacts(a: Body, b: Body, r: seq<(InstId, InstId)>, t: seq<InstId>)
    requires Walked(a, b, r, t)
    ensures SSA(b) && Rewritten(a, b) && ReplacedOk(a, r) && b == ApplyAll(a, r) && t == Firsts(r)
    ensures forall i :: i in t ==> Attached(b, i) && Droppable(b.insts[i].kind)
  {
    hide SSA, Rewritten, ReplacedOk, Droppable, ApplyAll;
  }

  lemma RemovingNothing(start: Body)
    requires SSA(start)
    ensures Erased(start, start, {}, [])
  {
    hide SSA, Execute, WithoutAll;
    forall obs: set<InstId> ensures Lockstep(start, start, obs) {
      LockstepReflexive(start, obs);
    }
    forall c | c in start.blocks ensures ClearBlock(start.blocks[c], {}) == start.blocks[c] {
      WithoutAllAbsent(start.blocks[c].phis, {});
      WithoutAllAbsent(start.blocks[c].insts, {});
    }
    assert start.blocks == map c | c in start.blocks :: ClearBlock(start.blocks[c], {});
  }

  lemma ErasedKeeps(start: Body, now: Body, erased: set<InstId>, toRemove: seq<InstId>, i: InstId)
    requires Erased(start, now, erased, toRemove) && i in now.insts
    ensures Removing(start, now, erased) && i in start.insts && now.insts[i] == start.insts[i]
  {
    hide SSA, Lockstep, ClearBlock, NoUser;
  }

  lemma ErasedOne(start: Body, now: Body, erased: set<InstId>, toRemove: seq<InstId>, i: InstId)
    requires Erased(start, now, erased, toRemove) && Attached(now, i) && Droppable(now.insts[i].kind)
    requires forall u :: u in Registry(now) ==> Registry(now)[u] != InstValue(i)
    ensures Erased(start, Erase(now, i), erased + {i}, toRemove + [i])
  {
    hide Removing, NoUser, Droppable, Registry, Erase;
    RemoveOne(start, now, erased, i);
    EraseKeys(now, i);
  }

  lemma EraseKeys(now: Body, i: InstId)
    requires i in now.insts
    ensures Erase(now, i).insts.Keys == now.insts.Keys - {i}
  {
  }

  lemma ErasedSkip(start: Body, now: Body, erased: set<InstId>, toRemove: seq<InstId>, i: InstId)
    requires Erased(start, now, erased, toRemove) && (i in now.insts ==> !NoUser(start, i))
    ensures Erased(start, now, erased, toRemove + [i])
  {
    hide Removing, NoUser;
  }

  lemma UsedStays(start: Body, now: Body, vu: ValueUses, erased: set<InstId>, toRemove: seq<InstId>, i: InstId)
    requires Erased(start, now, erased, toRemove) && Exact(vu, Registry(now)) && InstValue(i) in vu
    requires vu[InstValue(i)] != []
    ensures !NoUser(start, i)
  {
    hide SSA, Lockstep, ValueOperands, ClearBlock;
    var u := vu[InstValue(i)][0];
    assert u in vu[InstValue(i)];
    assert u in Registry(now) && Registry(now)[u] == InstValue(i);
    assert u in Registry(start) && Registry(start)[u] == InstValue(i);
  }

  lemma ErasedFinished(before: Body, start: Body, now: Body, erased: set<InstId>, replaced: seq<(InstId, InstId)>)
    requires Rewritten(before, start) && Erased(start, now, erased, Firsts(replaced))
    requires start == ApplyAll(before, replaced)
    ensures SSA(now) && now.insts.Keys <= before.insts.Keys && Lockstep(before, now, now.insts.Keys)
    ensures erased == before.insts.Keys - now.insts.Keys && erased <= Gone(replaced)
    ensures Cleared(ApplyAll(before, replaced), now, erased)
  {
    hide SSA, Execute, EquationsHold, Reachable, SameEdges, Droppable, ClearBlock, NoUser, Inside, ApplyAll, Gone;
    FirstsGone(replaced);
    assert now.insts.Keys !! erased;
    assert Lockstep(start, now, now.insts.Keys);
    assert Lockstep(before, start, now.insts.Keys);
    LockstepTransitive(before, start, now, now.insts.Keys);
  }

  lemma ListedExist(body: Body, where: set<BlockId>)
    requires WellPlaced(body)
    ensures forall i :: i in InLists(body.blocks, where) ==> i in body.insts
  {
    hide WellPlaced, InLists;
    forall i | i in InLists(body.blocks, where) ensures i in body.insts {
      ListedHome(body, where, i);
    }
  }

  /** No replacement was replaced, so whatever was replaced could be erased. */
  lemma ErasedAll(text: ValueId -> int, before: Body, start: Body, now: Body, erased: set<InstId>,
                  replaced: seq<(InstId, InstId)>, visited: set<InstId>)
    requires Rewritten(before, start) && Erased(start, now, erased, Firsts(replaced))
    requires start == ApplyAll(before, replaced)
    requires erased == before.insts.Keys - now.insts.Keys && erased <= Gone(replaced) <= visited
    requires Numbered(text, start, visited, {}, replaced) && forall i :: i in visited ==> i in before.insts
    ensures Gone(replaced) == before.insts.Keys - now.insts.Keys
    ensures Followed(text, start, now.insts.Keys, replaced) && Thorough(text, before, now, visited)
  {
    hide Rewritten, Removing, NoUser, Earlier, ApplyAll, NoTwins, Gone, SameKey;
    forall i | i in Gone(replaced) ensures i !in now.insts {
      FirstsGone(replaced);
      ReplacedUnused(before, replaced, i);
    }
    forall r | r in replaced ensures r.1 in now.insts && SameKey(text, start, r.1, r.0) {
      assert r.1 in Leaders({}, visited, replaced);
    }
    forall u, w | u in visited && w in visited && u in now.insts && w in now.insts && Earlier(before, u, w)
      ensures !SameKey(text, now, u, w)
    {
      EarlierRewritten(before, start, u, w);
      NumberedAt(text, start, visited, {}, replaced, u, w);
      SameKeyLeft(text, start, now, erased, u, w);
    }
  }

  lemma SameKeyLeft(text: ValueId -> int, start: Body, now: Body, erased: set<InstId>, u: InstId, w: InstId)
    requires Removing(start, now, erased) && u in now.insts && w in now.insts
    ensures SameKey(text, now, u, w) == SameKey(text, start, u, w)
  {
    hide KeyOf, ClearBlock, Lockstep, SSA;
  }
}
