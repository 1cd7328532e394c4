/** That value numbering's walk misses nothing: which keys the table holds, which instructions keep
    their keys, and why no two instructions that remain have the same one
    (src/ir/opt/global_gvn.rs:65-183). */
module GvnLeaders {
  import opened CoreInts
  import opened Ir
  import opened Semantics
  import opened Ssa
  import opened Rewrites
  import opened Gvn
  import opened GvnWalk

  // ---------------------------------------------------------------- keys in a body

  function KeyIn(text: ValueId -> int, body: Body, i: InstId): Option<ExprKey> {
    if i in body.insts then KeyOf(text, body.consts, body.insts[i]) else None
  }

  predicate SameKey(text: ValueId -> int, body: Body, u: InstId, w: InstId) {
    KeyIn(text, body, u).Some? && KeyIn(text, body, u) == KeyIn(text, body, w)
  }

  lemma SubstKeyless(text: ValueId -> int, consts: seq<ConstData>, d: InstData, from: ValueId, to: ValueId)
    requires KeyOf(text, consts, d).None?
    ensures KeyOf(text, consts, d.(kind := Subst(d.kind, from, to))).None?
  {
  }

  /** Exchanging an instruction changes no key of what has its value up to its own place. */
  lemma KeyKept(text: ValueId -> int, body: Body, w: InstId, v: ValueId, b: BlockId, k: nat, i: InstId)
    requires SSA(body) && b in body.blocks && Reachable(body, b) && k < |body.blocks[b].insts|
    requires body.blocks[b].insts[k] == w && Before(body, i, b, k + 1)
    ensures KeyIn(text, SubstituteAll(body, InstValue(w), v), i) == KeyIn(text, body, i)
  {
    hide SSA, Reachable, KeyOf, Dominates, Subst, Args;
    var d := body.insts[i];
    if KeyOf(text, body.consts, d).Some? {
      PureIfKeyed(text, body.consts, d);
      NotMentioned(body, w, b, k, i);
      SubstAbsent(d.kind, InstValue(w), v);
    } else {
      SubstKeyless(text, body.consts, d, InstValue(w), v);
    }
  }

  lemma {:induction false} ApplyKeyless(text: ValueId -> int, body: Body, replaced: seq<(InstId, InstId)>, i: InstId)
    requires KeyIn(text, body, i).None?
    ensures KeyIn(text, ApplyAll(body, replaced), i).None?
    decreases |replaced|
  {
    hide KeyOf, Subst;
    if replaced != [] {
      var init, last := replaced[..|replaced| - 1], replaced[|replaced| - 1];
      ApplyKeyless(text, body, init, i);
      var mid := ApplyAll(body, init);
      if i in mid.insts {
        SubstKeyless(text, mid.consts, mid.insts[i], InstValue(last.0), InstValue(last.1));
      }
    }
  }

  lemma {:induction false} ApplyShape(body: Body, replaced: seq<(InstId, InstId)>)
    ensures ApplyAll(body, replaced).consts == body.consts && ApplyAll(body, replaced).blocks == body.blocks
    ensures ApplyAll(body, replaced).insts.Keys == body.insts.Keys
    decreases |replaced|
  {
    if replaced != [] {
      ApplyShape(body, replaced[..|replaced| - 1]);
    }
  }

  // ---------------------------------------------------------------- which blocks the walk has seen

  ghost function Blocks(tree: DomTree): set<BlockId> {
    {tree.block} + set c, x | c in tree.children && x in Blocks(c) :: x
  }

  ghost function BlocksOf(trees: seq<DomTree>): set<BlockId> {
    set c, x | c in trees && x in Blocks(c) :: x
  }

  lemma OneMoreTree(trees: seq<DomTree>, k: nat)
    requires k < |trees|
    ensures BlocksOf(trees[..k + 1]) == BlocksOf(trees[..k]) + Blocks(trees[k])
  {
    assert trees[..k + 1] == trees[..k] + [trees[k]];
    forall x | x in BlocksOf(trees[..k]) + Blocks(trees[k]) ensures x in BlocksOf(trees[..k + 1]) {
      if x in Blocks(trees[k]) {
        assert trees[k] in trees[..k + 1];
      } else {
        var c :| c in trees[..k] && x in Blocks(c);
        assert c in trees[..k + 1];
      }
    }
  }

  ghost predicate NoneAbove(body: Body, above: set<BlockId>, below: set<BlockId>) {
    forall x, y :: x in above && y in below ==> !Dominates(body, x, y)
  }

  /** No block under one child dominates one under another: all of a block's dominators are on the
      way to it. */
  ghost predicate Apart(body: Body, tree: DomTree) {
    && (forall c :: c in tree.children ==> Apart(body, c))
    && (forall i, j :: 0 <= i < |tree.children| && 0 <= j < |tree.children| && i != j ==>
         NoneAbove(body, Blocks(tree.children[i]), Blocks(tree.children[j])))
  }

  lemma {:induction false} ApartRewritten(a: Body, b: Body, tree: DomTree)
    requires SameEdges(a, b) && Apart(a, tree)
    ensures Apart(b, tree)
  {
    SamePaths(a, b);
    hide Dominates, SameEdges, Reachable, PathTo;
    forall c | c in tree.children ensures Apart(b, c) {
      ApartRewritten(a, b, c);
    }
  }

  lemma {:induction false} BelowRoot(body: Body, tree: DomTree, x: BlockId)
    requires TrueTree(body, tree) && x in Blocks(tree)
    ensures Dominates(body, tree.block, x) && x in body.blocks && Reachable(body, x)
  {
    hide Dominates, Reachable;
    if x == tree.block {
      DominatesSelf(body, x);
    } else {
      var c :| c in tree.children && x in Blocks(c);
      BelowRoot(body, c, x);
      DominatesTransitive(body, tree.block, c.block, x);
    }
  }

  /** Nothing under a child dominates what is above it. */
  lemma ChildNotAbove(body: Body, tree: DomTree, child: DomTree, x: BlockId, y: BlockId)
    requires TrueTree(body, tree) && child in tree.children && x in Blocks(child) && Dominates(body, y, tree.block)
    ensures !Dominates(body, x, y)
  {
    hide Dominates;
    TreeChild(body, tree, child);
    BelowRoot(body, child, x);
    if Dominates(body, x, y) {
      DominatesTransitive(body, child.block, x, y);
      DominatesTransitive(body, child.block, y, tree.block);
      var path :| PathTo(body, path, child.block);
      NoMutualDominance(body, tree.block, child.block, path);
    }
  }

  /** The instructions in the lists of these blocks. */
  function InLists(blocks: map<BlockId, BlockData>, where: set<BlockId>): set<InstId> {
    set b, i | b in where && b in blocks && i in blocks[b].insts :: i
  }

  lemma ListedHome(body: Body, where: set<BlockId>, i: InstId)
    requires WellPlaced(body) && i in InLists(body.blocks, where)
    ensures Attached(body, i) && body.insts[i].parent.value in where && body.insts[i].parent.value in body.blocks
    ensures i in body.blocks[body.insts[i].parent.value].insts
  {
    hide OperandsExist;
    var b :| b in where && b in body.blocks && i in body.blocks[b].insts;
    assert Contains(body.blocks[b], i);
  }

  /** Blocks that do not dominate an instruction's own hold none of its operands, so replacing
      instructions there leaves its key. */
  lemma KeyStable(text: ValueId -> int, body: Body, replaced: seq<(InstId, InstId)>, where: set<BlockId>, i: InstId)
    requires SSA(body) && Attached(body, i) && Reachable(body, body.insts[i].parent.value)
    requires Gone(replaced) <= InLists(body.blocks, where) && NoneAbove(body, where, {body.insts[i].parent.value})
    ensures KeyIn(text, ApplyAll(body, replaced), i) == KeyIn(text, body, i)
  {
    hide SSA, Reachable, KeyOf, Dominates, ApplyAll;
    ApplyShape(body, replaced);
    if KeyIn(text, body, i).Some? {
      PureIfKeyed(text, body.consts, body.insts[i]);
      forall r | r in replaced ensures InstValue(r.0) !in Args(body.insts[i].kind) {
        assert r.0 in Gone(replaced);
        OperandFromAbove(body, i, r.0, where);
      }
      ApplyUnmentioned(body, replaced, i);
    } else {
      ApplyKeyless(text, body, replaced, i);
    }
  }

  lemma OperandFromAbove(body: Body, i: InstId, o: InstId, where: set<BlockId>)
    requires SSA(body) && Attached(body, i) && Reachable(body, body.insts[i].parent.value) && IsPure(body.insts[i].kind)
    requires o in InLists(body.blocks, where) && NoneAbove(body, where, {body.insts[i].parent.value})
    ensures InstValue(o) !in Args(body.insts[i].kind)
  {
    SsaPlaced(body);
    var b := body.insts[i].parent.value;
    WellHeldIn(body, i);
    ListedHome(body, where, o);
    DominatesSelf(body, b);
    hide Dominates, Reachable, OperandsExist, PhiOk;
    assert BlockOk(body, b);
    var k :| 0 <= k < |body.blocks[b].insts| && body.blocks[b].insts[k] == i;
    assert ArgsAvailable(body, i, b, k);
    assert InstValue(o) in Args(body.insts[i].kind) ==> Available(body, InstValue(o), b, k);
  }

  // ---------------------------------------------------------------- the table's leaders

  /** The instructions from above and those visited so far that still stand for themselves. */
  function Leaders(above: set<InstId>, visited: set<InstId>, replaced: seq<(InstId, InstId)>): set<InstId> {
    above + (visited - Gone(replaced))
  }

  /** The table maps the keys of these instructions to them, and holds nothing else. */
  ghost predicate TableExact(text: ValueId -> int, body: Body, table: Table, leaders: set<InstId>) {
    && (forall key :: key in table ==>
         table[key].InstValue? && table[key].inst in leaders && KeyIn(text, body, table[key].inst) == Some(key))
    && (forall i :: i in leaders && KeyIn(text, body, i).Some? ==>
         KeyIn(text, body, i).value in table && table[KeyIn(text, body, i).value] == InstValue(i))
  }

  ghost predicate AllBefore(body: Body, which: set<InstId>, b: BlockId, k: nat) {
    forall i :: i in which ==> Before(body, i, b, k)
  }

  /** Every replacement is a leader and has the key of what it replaces. */
  ghost predicate Followed(text: ValueId -> int, body: Body, leaders: set<InstId>, replaced: seq<(InstId, InstId)>) {
    forall r :: r in replaced ==> r.1 in leaders && SameKey(text, body, r.1, r.0)
  }

  /** No instruction of the second set has the key of one of the first that comes before it. */
  ghost predicate NoTwins(text: ValueId -> int, body: Body, earlier: set<InstId>, later: set<InstId>) {
    forall u, w :: u in earlier && w in later && Earlier(body, u, w) ==> !SameKey(text, body, u, w)
  }

  /** What the walk achieves on the instructions it has visited, given those above them. */
  ghost predicate Numbered(text: ValueId -> int, body: Body, visited: set<InstId>, above: set<InstId>,
                           replaced: seq<(InstId, InstId)>) {
    && Followed(text, body, Leaders(above, visited, replaced), replaced)
    && NoTwins(text, body, Leaders(above, visited, replaced), visited - Gone(replaced))
  }

  /** u comes before w and computes the same. */
  ghost predicate Repeats(places: Body, body: Body, u: InstId, w: InstId) {
    && u in body.insts && w in body.insts && Earlier(places, u, w)
    && OneTyped(body.consts, body.insts[u].kind) && OneTyped(body.consts, body.insts[w].kind)
    && SameComputation(body.consts, body.insts[u], body.insts[w])
  }

  ghost predicate NoneRepeats(places: Body, body: Body, earlier: set<InstId>, later: set<InstId>) {
    forall u, w :: u in earlier && w in later ==> !Repeats(places, body, u, w)
  }

  /** Instructions that compute the same have the same key. */
  lemma SameComputationSameKey(text: ValueId -> int, body: Body, u: InstId, w: InstId)
    requires TextsDiffer(text) && u in body.insts && w in body.insts
    requires OneTyped(body.consts, body.insts[u].kind) && OneTyped(body.consts, body.insts[w].kind)
    requires SameComputation(body.consts, body.insts[u], body.insts[w])
    ensures SameKey(text, body, u, w)
  {
    assert IsPure(body.insts[u].kind) && !body.insts[u].kind.Alloca?;
    assert IsPure(body.insts[w].kind) && !body.insts[w].kind.Alloca?;
    SameKeyExactly(text, body.consts, body.insts[u], body.insts[w]);
    hide KeyOf, SameComputation, OneTyped, IsPure;
  }

  lemma NumberedNoneRepeats(text: ValueId -> int, body: Body, visited: set<InstId>, above: set<InstId>,
                            replaced: seq<(InstId, InstId)>)
    requires TextsDiffer(text) && Numbered(text, body, visited, above, replaced)
    ensures NoneRepeats(body, body, Leaders(above, visited, replaced), visited - Gone(replaced))
  {
    hide SameKey, Earlier, SameComputation, OneTyped, TextsDiffer, Leaders, Gone, Followed;
    forall u, w | u in Leaders(above, visited, replaced) && w in visited - Gone(replaced)
      ensures !Repeats(body, body, u, w)
    {
      if Repeats(body, body, u, w) {
        SameComputationSameKey(text, body, u, w);
      }
    }
  }

  ghost predicate KeysKept(text: ValueId -> int, a: Body, b: Body, which: set<InstId>) {
    forall i :: i in which ==> KeyIn(text, b, i) == KeyIn(text, a, i)
  }

  lemma ExactKept(text: ValueId -> int, a: Body, b: Body, table: Table, leaders: set<InstId>)
    requires TableExact(text, a, table, leaders) && KeysKept(text, a, b, leaders)
    ensures TableExact(text, b, table, leaders)
  {
    hide KeyIn;
  }

  lemma ExactGrows(text: ValueId -> int, body: Body, table: Table, leaders: set<InstId>, w: InstId, key: ExprKey)
    requires TableExact(text, body, table, leaders) && KeyIn(text, body, w) == Some(key) && key !in table
    ensures TableExact(text, body, table[key := InstValue(w)], leaders + {w})
  {
    hide KeyIn;
  }

  lemma ExactKeyless(text: ValueId -> int, body: Body, table: Table, leaders: set<InstId>, w: InstId)
    requires TableExact(text, body, table, leaders) && KeyIn(text, body, w).None?
    ensures TableExact(text, body, table, leaders + {w})
  {
    hide KeyIn;
  }

  lemma FollowedKept(text: ValueId -> int, a: Body, b: Body, leaders: set<InstId>, leaders': set<InstId>,
                     replaced: seq<(InstId, InstId)>)
    requires Followed(text, a, leaders, replaced) && leaders <= leaders'
    requires KeysKept(text, a, b, leaders) && KeysKept(text, a, b, Gone(replaced))
    ensures Followed(text, b, leaders', replaced)
  {
    hide KeyIn;
    forall r | r in replaced ensures r.1 in leaders' && SameKey(text, b, r.1, r.0) {
      assert r.0 in Gone(replaced);
    }
  }

  lemma FollowedJoin(text: ValueId -> int, body: Body, leaders: set<InstId>, r1: seq<(InstId, InstId)>,
                     r2: seq<(InstId, InstId)>)
    requires Followed(text, body, leaders, r1) && Followed(text, body, leaders, r2)
    ensures Followed(text, body, leaders, r1 + r2)
  {
    hide KeyIn;
  }

  /** One turn of the loop over a block's own instructions: w is replaced. */
  lemma StepReplaces(text: ValueId -> int, body: Body, body': Body, table: Table, b: BlockId, k: nat, w: InstId,
                     above: set<InstId>, visited: set<InstId>, replaced: seq<(InstId, InstId)>)
    requires SSA(body) && b in body.blocks && Reachable(body, b) && k < |body.blocks[b].insts|
    requires body.blocks[b].insts[k] == w && KeyIn(text, body, w).Some? && KeyIn(text, body, w).value in table
    requires TableExact(text, body, table, Leaders(above, visited, replaced))
    requires AllBefore(body, above, b, k) && AllBefore(body, visited, b, k) && Gone(replaced) <= visited
    requires Followed(text, body, Leaders(above, visited, replaced), replaced)
    requires body' == SubstituteAll(body, InstValue(w), table[KeyIn(text, body, w).value])
    ensures var replaced' := replaced + [(w, table[KeyIn(text, body, w).value].inst)];
      && Leaders(above, visited + {w}, replaced') == Leaders(above, visited, replaced)
      && TableExact(text, body', table, Leaders(above, visited, replaced))
      && Followed(text, body', Leaders(above, visited, replaced), replaced')
  {
    hide SSA, Reachable, KeyIn, SubstituteAll, Before;
    var leaders, prev := Leaders(above, visited, replaced), table[KeyIn(text, body, w).value].inst;
    forall i | i in above + visited + {w} ensures KeyIn(text, body', i) == KeyIn(text, body, i) {
      BeforeNext(body, b, k, i);
      KeyKept(text, body, w, InstValue(prev), b, k, i);
    }
    ExactKept(text, body, body', table, leaders);
    FollowedKept(text, body, body', leaders, leaders, replaced);
    FollowedJoin(text, body', leaders, replaced, [(w, prev)]);
    GoneConcat(replaced, [(w, prev)]);
    assert w !in above + visited by { SelfNotBefore(body, b, k, above + visited); }
    assert Gone([(w, prev)]) == {w} by { assert (w, prev) in [(w, prev)]; }
  }

  lemma BeforeNext(body: Body, b: BlockId, k: nat, i: InstId)
    requires SSA(body) && b in body.blocks && k < |body.blocks[b].insts|
    requires i == body.blocks[b].insts[k] || Before(body, i, b, k)
    ensures Before(body, i, b, k + 1)
  {
    SsaPlaced(body);
    hide SSA, WellPlaced, Dominates;
    if i == body.blocks[b].insts[k] {
      OwnPlace(body, i, b, k);
    }
  }

  lemma SelfNotBefore(body: Body, b: BlockId, k: nat, which: set<InstId>)
    requires SSA(body) && b in body.blocks && k < |body.blocks[b].insts|
    requires forall i :: i in which ==> Before(body, i, b, k)
    ensures body.blocks[b].insts[k] !in which
  {
    SsaPlaced(body);
    hide SSA, WellPlaced, Before;
    if body.blocks[b].insts[k] in which {
      EarlierIsOther(body, body.blocks[b].insts[k], b, k);
    }
  }

  /** After a block's own instructions: all leaders have different keys. */
  lemma BlockNumbered(text: ValueId -> int, body: Body, table: Table, above: set<InstId>, visited: set<InstId>,
                      replaced: seq<(InstId, InstId)>)
    requires WellPlaced(body)
    requires TableExact(text, body, table, Leaders(above, visited, replaced))
    requires Followed(text, body, Leaders(above, visited, replaced), replaced)
    ensures Numbered(text, body, visited, above, replaced)
  {
    hide KeyIn, Earlier, WellPlaced;
    forall u, w | u in Leaders(above, visited, replaced) && w in visited - Gone(replaced) && Earlier(body, u, w)
      ensures !SameKey(text, body, u, w)
    {
      if SameKey(text, body, u, w) {
        assert u == w;
        NotEarlierItself(body, w);
      }
    }
  }

  lemma NotEarlierItself(body: Body, w: InstId)
    requires WellPlaced(body)
    ensures !Earlier(body, w, w)
  {
    hide WellPlaced, Before;
    if Earlier(body, w, w) {
      var b := body.insts[w].parent.value;
      var k: nat :| k < |body.blocks[b].insts| && body.blocks[b].insts[k] == w && Before(body, w, b, k);
      EarlierIsOther(body, w, b, k);
    }
  }

  // ---------------------------------------------------------------- joining a child's part

  /** These instructions lie in reachable blocks none of `where` dominates. */
  ghost predicate OutOf(body: Body, which: set<InstId>, where: set<BlockId>) {
    forall i :: i in which ==> OutOfAt(body, i, where)
  }

  ghost predicate OutOfAt(body: Body, i: InstId, where: set<BlockId>) {
    Attached(body, i) && Reachable(body, body.insts[i].parent.value)
      && NoneAbove(body, where, {body.insts[i].parent.value})
  }

  lemma OutOfDisjoint(body: Body, which: set<InstId>, where: set<BlockId>)
    requires WellPlaced(body) && OutOf(body, which, where)
    ensures which !! InLists(body.blocks, where)
  {
    hide WellPlaced, Dominates, InLists;
    forall i | i in which ensures i !in InLists(body.blocks, where) {
      if i in InLists(body.blocks, where) {
        ListedHome(body, where, i);
        assert OutOfAt(body, i, where);
        DominatesSelf(body, body.insts[i].parent.value);
      }
    }
  }

  lemma KeysStable(text: ValueId -> int, body: Body, replaced: seq<(InstId, InstId)>, which: set<InstId>,
                   where: set<BlockId>)
    requires SSA(body) && OutOf(body, which, where) && Gone(replaced) <= InLists(body.blocks, where)
    ensures KeysKept(text, body, ApplyAll(body, replaced), which)
  {
    hide SSA, KeyIn, NoneAbove, InLists, Gone, Reachable;
    forall i | i in which ensures KeyIn(text, ApplyAll(body, replaced), i) == KeyIn(text, body, i) {
      assert OutOfAt(body, i, where);
      KeyStable(text, body, replaced, where, i);
    }
  }

  lemma NotEarlierFrom(body: Body, where: set<BlockId>, u: InstId, w: InstId)
    requires WellPlaced(body) && u in InLists(body.blocks, where) && OutOfAt(body, w, where)
    ensures !Earlier(body, u, w)
  {
    hide WellPlaced, InLists;
    ListedHome(body, where, u);
    DominatesSelf(body, body.insts[w].parent.value);
    hide Dominates;
  }

  ghost predicate NoneEarlier(body: Body, ones: set<InstId>, others: set<InstId>) {
    forall u, w :: u in ones && w in others ==> !Earlier(body, u, w)
  }

  /** What each child's walk achieves adds up, as long as nothing seen so far outside the block's own
      list comes before anything under the child. */
  lemma ChildNumbered(text: ValueId -> int, a: Body, b: Body, above: set<InstId>, own: set<InstId>, seen: set<InstId>,
                      where: set<BlockId>, r1: seq<(InstId, InstId)>, r2: seq<(InstId, InstId)>)
    requires SSA(a) && b == ApplyAll(a, r2) && Rewritten(a, b)
    requires Numbered(text, a, seen, above, r1) && Gone(r1) <= seen && own <= seen
    requires Numbered(text, b, InLists(a.blocks, where), Leaders(above, own, r1), r2)
    requires Gone(r2) <= InLists(a.blocks, where) && OutOf(a, above + seen, where)
    requires NoneEarlier(a, seen - own, InLists(a.blocks, where))
    ensures Numbered(text, b, seen + InLists(a.blocks, where), above, r1 + r2)
  {
    hide SSA, Rewritten, KeyIn, Earlier, ApplyAll, InLists, OutOf, Gone, Numbered;
    var below := InLists(a.blocks, where);
    SsaPlaced(a);
    OutOfDisjoint(a, above + seen, where);
    KeysStable(text, a, r2, above + seen, where);
    GoneConcat(r1, r2);
    ChildFollowed(text, a, b, above, own, seen, below, r1, r2);
    forall u, w | u in Leaders(above, seen + below, r1 + r2) && w in seen + below - Gone(r1 + r2) && Earlier(b, u, w)
      ensures !SameKey(text, b, u, w)
    {
      EarlierRewritten(a, b, u, w);
      if w in below {
        assert u !in seen - own;
        NumberedAt(text, b, below, Leaders(above, own, r1), r2, u, w);
      } else {
        assert w in above + seen;
        OutOfOne(a, above + seen, where, w);
        if u in below {
          NotEarlierFrom(a, where, u, w);
        }
        NumberedAt(text, a, seen, above, r1, u, w);
      }
    }
    assert Numbered(text, b, seen + below, above, r1 + r2) by { NumberedIf(text, b, seen + below, above, r1 + r2); }
  }

  lemma NumberedIf(text: ValueId -> int, body: Body, visited: set<InstId>, above: set<InstId>,
                   replaced: seq<(InstId, InstId)>)
    requires Followed(text, body, Leaders(above, visited, replaced), replaced)
    requires NoTwins(text, body, Leaders(above, visited, replaced), visited - Gone(replaced))
    ensures Numbered(text, body, visited, above, replaced)
  {
  }

  lemma NumberedAt(text: ValueId -> int, body: Body, visited: set<InstId>, above: set<InstId>,
                   replaced: seq<(InstId, InstId)>, u: InstId, w: InstId)
    requires Numbered(text, body, visited, above, replaced)
    requires u in Leaders(above, visited, replaced) && w in visited - Gone(replaced) && Earlier(body, u, w)
    ensures !SameKey(text, body, u, w)
  {
    hide KeyIn, Earlier;
  }

  lemma OutOfOne(body: Body, which: set<InstId>, where: set<BlockId>, i: InstId)
    requires OutOf(body, which, where) && i in which
    ensures OutOfAt(body, i, where)
  {
  }

  lemma ChildFollowed(text: ValueId -> int, a: Body, b: Body, above: set<InstId>, own: set<InstId>, seen: set<InstId>,
                      below: set<InstId>, r1: seq<(InstId, InstId)>, r2: seq<(InstId, InstId)>)
    requires Numbered(text, a, seen, above, r1) && Gone(r1) <= seen && own <= seen
    requires Numbered(text, b, below, Leaders(above, own, r1), r2) && Gone(r2) <= below && below !! above + seen
    requires KeysKept(text, a, b, above + seen)
    ensures Followed(text, b, Leaders(above, seen + below, r1 + r2), r1 + r2)
  {
    hide KeyIn, Earlier, NoTwins, Gone;
    GoneConcat(r1, r2);
    var leaders := Leaders(above, seen + below, r1 + r2);
    FollowedKept(text, a, b, Leaders(above, seen, r1), leaders, r1);
    assert Leaders(Leaders(above, own, r1), below, r2) <= leaders;
    FollowedJoin(text, b, leaders, r1, r2);
  }
}
