/** Global value numbering's walk over a dominator tree and the removals after it
    (src/ir/opt/global_gvn.rs:38-183). */
module GvnWalk {
  import opened Ir
  import opened UseLists
  import opened Semantics
  import opened Ssa
  import opened Rewrites
  import opened Clearing
  import opened Gvn


  datatype DomTree = Node(block: BlockId, children: seq<DomTree>)

  /** Every parent truly dominates its children. */
  ghost predicate TrueTree(body: Body, tree: DomTree) {
    && tree.block in body.blocks && Reachable(body, tree.block)
    && forall c :: c in tree.children ==>
         TrueTree(body, c) && Dominates(body, tree.block, c.block) && c.block != tree.block
  }

  lemma {:induction false} TreeRewritten(a: Body, b: Body, tree: DomTree)
    requires Rewritten(a, b) && TrueTree(a, tree)
    ensures TrueTree(b, tree)
  {
    SamePaths(a, b);
    hide Reachable, Dominates, SameEdges, EquationsHold, Execute;
    forall c | c in tree.children ensures TrueTree(b, c) {
      TreeRewritten(a, b, c);
    }
  }

  lemma TreeRoot(body: Body, tree: DomTree)
    requires TrueTree(body, tree)
    ensures tree.block in body.blocks && Reachable(body, tree.block)
  {
    hide Reachable, Dominates;
  }

  lemma TreeChild(body: Body, tree: DomTree, child: DomTree)
    requires TrueTree(body, tree) && child in tree.children
    ensures TrueTree(body, child) && Dominates(body, tree.block, child.block) && child.block != tree.block
    ensures child.block in body.blocks && Reachable(body, child.block)
  {
    hide Reachable, Dominates;
  }

  lemma TableForChild(body: Body, table: Table, b: BlockId, c: BlockId)
    requires b in body.blocks && TableOk(body, table, b, |body.blocks[b].insts|)
    requires c in body.blocks && c != b && Dominates(body, b, c) && Reachable(body, c)
    ensures TableOk(body, table, c, 0)
  {
    hide Leads;
    forall key | key in table ensures Before(body, table[key].inst, c, 0) {
      AboveStays(body, table[key].inst, b, |body.blocks[b].insts|, c, 0);
    }
  }

  // ---------------------------------------------------------------- equal along every run

  /** On every run, at every instruction of every block the run enters, w and its leader agree
      whenever w has its value there. */
  ghost predicate AlwaysEqual(body: Body, w: InstId, leader: InstId) {
    forall W, obs, mem, n: nat, k: nat :: EqualAt(W, body, obs, mem, n, k, w, leader)
  }

  ghost predicate EqualAt(W: World, body: Body, obs: set<InstId>, mem: Memory, n: nat, k: nat, w: InstId,
                          leader: InstId) {
    HasValueAt(body, Execute(W, body, obs, mem, n).0, k, w) ==>
      Inside(W, body, obs, mem, n, k)[w] == Inside(W, body, obs, mem, n, k)[leader]
  }

  ghost predicate HasValueAt(body: Body, place: Place, k: nat, w: InstId) {
    place.At? && place.b in body.blocks && k <= |body.blocks[place.b].insts| && Before(body, w, place.b, k)
  }

  lemma InterchangeableAlwaysEqual(body: Body, w: InstId, leader: InstId)
    requires SSA(body) && Interchangeable(body, w, InstValue(leader))
    ensures AlwaysEqual(body, w, leader)
  {
    hide SSA, Interchangeable, Execute, Inside, EquationsHold, Before, Reachable;
    forall W, obs, mem, n: nat, k: nat ensures EqualAt(W, body, obs, mem, n, k, w, leader) {
      EquationsInside(W, body, obs, mem, n, k);
      var place := Execute(W, body, obs, mem, n).0;
      if HasValueAt(body, place, k, w) {
        InterchangeableHere(W, body, w, InstValue(leader), place.b, k, Inside(W, body, obs, mem, n, k));
      }
    }
  }

  lemma InterchangeableHere(W: World, body: Body, w: InstId, v: ValueId, b: BlockId, k: nat, env: Env)
    requires Interchangeable(body, w, v) && Reachable(body, b) && Before(body, w, b, k)
    requires EquationsHold(W, body, b, k, env)
    ensures env[w] == Value(W, body.consts, v, env)
  {
    hide Reachable, Before, EquationsHold;
  }

  lemma AlwaysEqualRewritten(a: Body, b: Body, w: InstId, leader: InstId)
    requires Rewritten(a, b) && AlwaysEqual(b, w, leader)
    ensures AlwaysEqual(a, w, leader)
  {
    hide Execute, Inside, EquationsHold, SameEdges, Before, Reachable;
    forall W, obs, mem, n: nat, k: nat ensures EqualAt(W, a, obs, mem, n, k, w, leader) {
      assert Execute(W, b, obs, mem, n) == Execute(W, a, obs, mem, n);
      assert Inside(W, b, obs, mem, n, k) == Inside(W, a, obs, mem, n, k);
      assert EqualAt(W, b, obs, mem, n, k, w, leader);
      var place := Execute(W, a, obs, mem, n).0;
      if HasValueAt(a, place, k, w) {
        RewrittenBefore(a, b, w, place.b, k);
      }
    }
  }

  /** What the walk has replaced: each replacement has its value at the place of the instruction it
      replaces, and always equals that instruction, in the body the walk started from. */
  ghost predicate ReplacedOk(body: Body, replaced: seq<(InstId, InstId)>) {
    forall r :: r in replaced ==> Earlier(body, r.1, r.0) && AlwaysEqual(body, r.0, r.1)
  }

  /** u has its value where w stands in its block. */
  ghost predicate Earlier(body: Body, u: InstId, w: InstId) {
    && Attached(body, w) && body.insts[w].parent.value in body.blocks
    && EarlierIn(body, body.insts[w].parent.value, u, w)
  }

  ghost predicate EarlierIn(body: Body, b: BlockId, u: InstId, w: InstId)
    requires b in body.blocks
  {
    exists k: nat :: k < |body.blocks[b].insts| && body.blocks[b].insts[k] == w && Before(body, u, b, k)
  }

  lemma EarlierRewritten(a: Body, b: Body, u: InstId, w: InstId)
    requires Rewritten(a, b)
    ensures Earlier(b, u, w) <==> Earlier(a, u, w)
  {
    forall c: BlockId, k: nat ensures Before(b, u, c, k) <==> Before(a, u, c, k) {
      RewrittenBefore(a, b, u, c, k);
    }
    hide EquationsHold, Execute, Inside, SameEdges, Reachable, Before, Droppable, IsPure;
  }

  lemma ReplacedRewritten(a: Body, b: Body, replaced: seq<(InstId, InstId)>)
    requires Rewritten(a, b) && ReplacedOk(b, replaced)
    ensures ReplacedOk(a, replaced)
  {
    hide Rewritten, AlwaysEqual, Earlier;
    forall r | r in replaced ensures Earlier(a, r.1, r.0) && AlwaysEqual(a, r.0, r.1) {
      AlwaysEqualRewritten(a, b, r.0, r.1);
      EarlierRewritten(a, b, r.1, r.0);
    }
  }

  // ---------------------------------------------------------------- the replacements, applied

  /** The body with each pair's first instruction exchanged for its second, pair after pair. */
  function ApplyAll(body: Body, replaced: seq<(InstId, InstId)>): (r: Body) {
    if replaced == [] then body
    else
      var last := replaced[|replaced| - 1];
      SubstituteAll(ApplyAll(body, replaced[..|replaced| - 1]), InstValue(last.0), InstValue(last.1))
  }

  function Firsts(replaced: seq<(InstId, InstId)>): (r: seq<InstId>) {
    seq(|replaced|, k requires 0 <= k < |replaced| => replaced[k].0)
  }

  function Gone(replaced: seq<(InstId, InstId)>): set<InstId> {
    set r | r in replaced :: r.0
  }

  lemma {:induction false} ApplyConcat(body: Body, r1: seq<(InstId, InstId)>, r2: seq<(InstId, InstId)>)
    ensures ApplyAll(body, r1 + r2) == ApplyAll(ApplyAll(body, r1), r2)
    decreases |r2|
  {
    if r2 == [] {
      assert r1 + r2 == r1;
    } else {
      ApplyConcat(body, r1, r2[..|r2| - 1]);
      assert (r1 + r2)[..|r1 + r2| - 1] == r1 + r2[..|r2| - 1];
    }
  }

  lemma GoneConcat(r1: seq<(InstId, InstId)>, r2: seq<(InstId, InstId)>)
    ensures Gone(r1 + r2) == Gone(r1) + Gone(r2) && Firsts(r1 + r2) == Firsts(r1) + Firsts(r2)
  {
    forall i | i in Gone(r1) + Gone(r2) ensures i in Gone(r1 + r2) {
      if r :| r in r1 && r.0 == i {
        assert r in r1 + r2;
      } else {
        var r :| r in r2 && r.0 == i;
        assert r in r1 + r2;
      }
    }
  }

  lemma FirstsGone(replaced: seq<(InstId, InstId)>)
    ensures forall i :: i in Firsts(replaced) <==> i in Gone(replaced)
  {
    forall i | i in Gone(replaced) ensures i in Firsts(replaced) {
      var r :| r in replaced && r.0 == i;
      var k :| 0 <= k < |replaced| && replaced[k] == r;
      assert Firsts(replaced)[k] == i;
    }
  }

  lemma SubstAbsent(kind: InstKind, from: ValueId, to: ValueId)
    requires !kind.Phi? && from !in Args(kind)
    ensures Subst(kind, from, to) == kind
  {
    match kind {
      case GetElementPtr(_, base, indices) =>
        assert forall v :: v in indices ==> v in Args(kind);
        assert base == Args(kind)[0];
        SwapAbsent(indices, from, to);
      case Call(_, args) => SwapAbsent(args, from, to);
      case Binary(_, lhs, rhs) => assert lhs == Args(kind)[0] && rhs == Args(kind)[1];
      case ICmp(_, lhs, rhs) => assert lhs == Args(kind)[0] && rhs == Args(kind)[1];
      case Store(value, ptr) => assert value == Args(kind)[0] && ptr == Args(kind)[1];
      case Select(c, t, e) => assert c == Args(kind)[0] && t == Args(kind)[1] && e == Args(kind)[2];
      case Branch(_, cond) => assert cond.Some? ==> cond.value.cond == Args(kind)[0];
      case Ret(ret) => assert ret.Some? ==> ret.value == Args(kind)[0];
      case Load(ptr) => assert ptr == Args(kind)[0];
      case PtrToInt(v) => assert v == Args(kind)[0];
      case Trunc(v) => assert v == Args(kind)[0];
      case Zext(v) => assert v == Args(kind)[0];
      case Sext(v) => assert v == Args(kind)[0];
      case _ =>
    }
  }

  /** An instruction none of whose operands is replaced stays as it is. */
  lemma {:induction false} ApplyUnmentioned(body: Body, replaced: seq<(InstId, InstId)>, i: InstId)
    requires i in body.insts && !body.insts[i].kind.Phi?
    requires forall r :: r in replaced ==> InstValue(r.0) !in Args(body.insts[i].kind)
    ensures i in ApplyAll(body, replaced).insts && ApplyAll(body, replaced).insts[i] == body.insts[i]
    decreases |replaced|
  {
    if replaced != [] {
      var init, last := replaced[..|replaced| - 1], replaced[|replaced| - 1];
      assert forall r :: r in init ==> r in replaced;
      assert last in replaced;
      ApplyUnmentioned(body, init, i);
      SubstAbsent(body.insts[i].kind, InstValue(last.0), InstValue(last.1));
    }
  }

  /** No attached instruction's operand is one of these. */
  ghost predicate NoUser(body: Body, i: InstId) {
    forall u :: u in Registry(body) ==> Registry(body)[u] != InstValue(i)
  }

  lemma SubstNoUser(body: Body, w: InstId, v: InstId, i: InstId)
    requires i != v && (i == w || NoUser(body, i))
    ensures NoUser(SubstituteAll(body, InstValue(w), InstValue(v)), i)
  {
    var body' := SubstituteAll(body, InstValue(w), InstValue(v));
    hide ValueOperands, Subst, BlockOperands, Skeleton;
    forall u | u in Registry(body') ensures Registry(body')[u] != InstValue(i) {
      SubstExact(body.insts[u.user].kind, InstValue(w), InstValue(v));
      assert u in Registry(body);
    }
  }

  /** When no replacement is itself replaced, what is replaced has no users left. */
  lemma {:induction false} ReplacedUnused(body: Body, replaced: seq<(InstId, InstId)>, i: InstId)
    requires i in Gone(replaced) && forall r :: r in replaced ==> r.1 != i
    ensures NoUser(ApplyAll(body, replaced), i)
    decreases |replaced|
  {
    hide NoUser, SubstituteAll;
    var init, last := replaced[..|replaced| - 1], replaced[|replaced| - 1];
    assert forall r :: r in init ==> r in replaced;
    assert last in replaced;
    if last.0 != i {
      var r :| r in replaced && r.0 == i;
      assert r in init;
      ReplacedUnused(body, init, i);
    }
    SubstNoUser(ApplyAll(body, init), last.0, last.1, i);
  }

  // ---------------------------------------------------------------- what the walk has done so far

  ghost predicate Removable(body: Body, toRemove: seq<InstId>) {
    forall i :: i in toRemove ==> Attached(body, i) && Droppable(body.insts[i].kind)
  }

  lemma RemovableRewritten(a: Body, b: Body, toRemove: seq<InstId>)
    requires Rewritten(a, b) && Removable(a, toRemove)
    ensures Removable(b, toRemove)
  {
    hide Droppable, EquationsHold, Execute, SameEdges;
  }

  /** The walk has got from one body to another by these replacements, and marked for removal what
      it replaced; every run is as it was. */
  ghost predicate Walked(before: Body, now: Body, replaced: seq<(InstId, InstId)>, toRemove: seq<InstId>) {
    && Rewritten(before, now) && SSA(now) && now == ApplyAll(before, replaced) && toRemove == Firsts(replaced)
    && ReplacedOk(before, replaced) && Removable(now, toRemove)
  }

  lemma WalkedJoin(a: Body, b: Body, c: Body, r1: seq<(InstId, InstId)>, r2: seq<(InstId, InstId)>, t1: seq<InstId>,
                   t2: seq<InstId>)
    requires Walked(a, b, r1, t1) && Walked(b, c, r2, t2)
    ensures Walked(a, c, r1 + r2, t1 + t2)
  {
    hide Rewritten, SSA, AlwaysEqual, Earlier, ApplyAll, Gone;
    RewrittenTransitive(a, b, c);
    ReplacedRewritten(a, b, r2);
    RemovableRewritten(b, c, t1);
    ApplyConcat(a, r1, r2);
    GoneConcat(r1, r2);
  }

  lemma WalkedNothing(a: Body)
    requires SSA(a)
    ensures Walked(a, a, [], [])
  {
    hide SSA;
    RewrittenReflexive(a);
  }

  lemma ReplacementEarlier(body: Body, w: InstId, leader: InstId, b: BlockId, k: nat)
    requires SSA(body) && Interchangeable(body, w, InstValue(leader)) && b in body.blocks && Reachable(body, b)
    requires k < |body.blocks[b].insts| && body.blocks[b].insts[k] == w
    ensures Earlier(body, leader, w)
  {
    SsaPlaced(body);
    hide SSA, BlockOk, OperandsExist, EquationsHold, Reachable, Dominates;
    assert Contains(body.blocks[b], w);
    ListedHere(body, b, w);
    OwnPlace(body, w, b, k);
    hide WellPlaced;
    assert Available(body, InstValue(leader), b, k + 1);
    hide Interchangeable;
    BeforeOneLess(body, leader, b, k);
  }

  lemma OneApplied(body: Body, w: InstId, leader: InstId)
    ensures ApplyAll(body, [(w, leader)]) == SubstituteAll(body, InstValue(w), InstValue(leader))
    ensures Firsts([(w, leader)]) == [w]
  {
    hide SubstituteAll;
    var one := [(w, leader)];
    assert one[..|one| - 1] == [];
    assert ApplyAll(body, []) == body;
  }

  lemma WalkedOne(body: Body, w: InstId, leader: InstId, bw: BlockId, kw: nat)
    requires SSA(body) && Interchangeable(body, w, InstValue(leader)) && IsEquation(body, w) && bw in body.blocks
    requires Reachable(body, bw)
    requires kw < |body.blocks[bw].insts| && body.blocks[bw].insts[kw] == w && Knows(body, InstValue(leader))
    requires Droppable(body.insts[w].kind)
    ensures Walked(body, SubstituteAll(body, InstValue(w), InstValue(leader)), [(w, leader)], [w])
  {
    hide SSA, Interchangeable, AlwaysEqual, Rewritten, Droppable, Reachable, Subst, ApplyAll, Firsts, Earlier;
    var body' := SubstituteAll(body, InstValue(w), InstValue(leader));
    SubstRewritten(body, w, InstValue(leader), bw, kw);
    SubstSSA(body, w, InstValue(leader));
    InterchangeableAlwaysEqual(body, w, leader);
    ReplacementEarlier(body, w, leader, bw, kw);
    OneApplied(body, w, leader);
    SubstRoles(body.insts[w], InstValue(w), InstValue(leader));
  }
}
