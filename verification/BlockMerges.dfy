/** Merging a block into its only predecessor (src/ir/opt/cfg_simpilfy.rs:100-163). */
module BlockMerges {
  import opened CoreInts
  import opened Ir
  import opened Semantics
  import opened Ssa
  import opened Clearing
  import opened Trim
  import opened CfgSimplify

  // ---------------------------------------------------------------- behaviour up to block boundaries

  /** Everything a run can be seen to do: a finite beginning of its trace, or its whole trace, its
      final memory and how it ended. */
  datatype Observation = Begins(trace: seq<Event>) | Ends(trace: seq<Event>, mem: Memory, exit: Exit)

  ghost predicate Shows(x: (Place, State), o: Observation) {
    match o
    case Begins(trace) => trace <= x.1.trace
    case Ends(trace, mem, exit) => x.0 == Done(exit) && x.1.trace == trace && x.1.mem == mem
  }

  ghost predicate Observable(W: World, body: Body, obs: set<InstId>, mem: Memory, o: Observation) {
    exists n: nat :: Shows(Execute(W, body, obs, mem, n), o)
  }

  /** The two bodies can be seen to do exactly the same, whatever the world and however long they run. */
  ghost predicate SameBehaviour(a: Body, b: Body, obs: set<InstId>) {
    forall W, mem, o :: Observable(W, a, obs, mem, o) <==> Observable(W, b, obs, mem, o)
  }

  lemma SameBehaviourTransitive(a: Body, b: Body, c: Body, obs: set<InstId>)
    requires SameBehaviour(a, b, obs) && SameBehaviour(b, c, obs)
    ensures SameBehaviour(a, c, obs)
  {
    hide Observable;
    forall W, mem, o ensures Observable(W, a, obs, mem, o) <==> Observable(W, c, obs, mem, o) {
      assert Observable(W, a, obs, mem, o) <==> Observable(W, b, obs, mem, o);
    }
  }

  lemma LockstepBehaves(a: Body, b: Body, obs: set<InstId>)
    requires Lockstep(a, b, obs)
    ensures SameBehaviour(a, b, obs)
  {
    hide Execute;
    forall W, mem, o ensures Observable(W, a, obs, mem, o) <==> Observable(W, b, obs, mem, o) {
      forall n: nat ensures Shows(Execute(W, a, obs, mem, n), o) <==> Shows(Execute(W, b, obs, mem, n), o) {
        assert SameSoFar(Execute(W, a, obs, mem, n), Execute(W, b, obs, mem, n));
      }
    }
  }

  // ---------------------------------------------------------------- one merge, as values

  /** a ends in a jump to s and nothing else leads to s; s has no phis. */
  ghost predicate CanMerge(body: Body, a: BlockId, s: BlockId) {
    && a in body.blocks && s in body.blocks && a != s && s != body.entry
    && body.blocks[a].terminator.Some? && body.blocks[a].terminator.value in body.insts
    && body.insts[body.blocks[a].terminator.value].kind == Branch(s, None)
    && body.blocks[s].phis == [] && body.blocks[s].terminator.Some?
    && (forall p :: Edge(body, p, s) ==> p == a)
  }

  function MergedInst(d: InstData, a: BlockId, s: BlockId): InstData {
    InstData(if d.parent == Some(s) then Some(a) else d.parent, d.ty,
             if d.parent.Some? then Retarget(d.kind, s, a) else d.kind)
  }

  /** s's instructions and terminator belong to a; s is left empty; mentions of s are mentions of a. */
  ghost function Merge(body: Body, a: BlockId, s: BlockId): Body
    requires CanMerge(body, a, s)
  {
    var ta := body.blocks[a].terminator.value;
    var ba, bs := body.blocks[a], body.blocks[s];
    var merged := BlockData(ba.phis, ba.insts + bs.insts, bs.terminator);
    body.(blocks := body.blocks[a := merged][s := BlockData([], [], None)],
          insts := map i | i in body.insts && i != ta :: MergedInst(body.insts[i], a, s))
  }

  function Redirect(b: BlockId, a: BlockId, s: BlockId): BlockId {
    if b == s then a else b
  }

  lemma JumpIsEdge(body: Body, a: BlockId, s: BlockId, q: BlockId)
    requires CanMerge(body, a, s)
    ensures Edge(body, a, q) <==> q == s
  {
  }

  /** What stands in a block of the original, and what becomes of it. */
  lemma MergedHeld(body: Body, a: BlockId, s: BlockId, i: InstId)
    requires WellPlaced(body) && CanMerge(body, a, s) && Attached(body, i) && i != body.blocks[a].terminator.value
    ensures i in Merge(body, a, s).insts && Merge(body, a, s).insts[i] == MergedInst(body.insts[i], a, s)
    ensures Merge(body, a, s).insts[i].parent == Some(Redirect(body.insts[i].parent.value, a, s))
  {
  }

  lemma SameTargets(body: Body, a: BlockId, s: BlockId, p: BlockId)
    requires WellPlaced(body) && CanMerge(body, a, s) && p in body.blocks && p != a && body.blocks[p].terminator.Some?
    ensures body.blocks[p].terminator.value in body.insts
    ensures var k := body.insts[body.blocks[p].terminator.value].kind; Retarget(k, s, a) == k
  {
    hide OperandsExist;
    var t := body.blocks[p].terminator.value;
    assert Contains(body.blocks[p], t);
    var k := body.insts[t].kind;
    if k.Branch? {
      assert Edge(body, p, k.thenBlock);
      assert k.cond.Some? ==> Edge(body, p, k.cond.value.elseBlock);
    }
  }

  lemma OtherTerminator(body: Body, a: BlockId, s: BlockId, p: BlockId)
    requires WellPlaced(body) && CanMerge(body, a, s) && p in body.blocks && p != a && body.blocks[p].terminator.Some?
    ensures body.blocks[p].terminator != body.blocks[a].terminator
  {
    hide OperandsExist;
    assert Contains(body.blocks[p], body.blocks[p].terminator.value);
    assert Contains(body.blocks[a], body.blocks[a].terminator.value);
  }

  /** The edges after a merge. */
  lemma MergedEdge(body: Body, a: BlockId, s: BlockId, p: BlockId, q: BlockId)
    requires WellPlaced(body) && CanMerge(body, a, s)
    ensures Edge(Merge(body, a, s), p, q) <==> p != s && Edge(body, if p == a then s else p, q)
  {
    var b := Merge(body, a, s);
    var src := if p == a then s else p;
    if p != s && src in body.blocks && body.blocks[src].terminator.Some? {
      SameTargets(body, a, s, src);
      OtherTerminator(body, a, s, src);
    }
    hide WellPlaced;
  }

  // ---------------------------------------------------------------- paths before and after

  lemma {:induction false} ExpandPath(body: Body, a: BlockId, s: BlockId, path: seq<BlockId>, t: BlockId)
    returns (wide: seq<BlockId>)
    requires WellPlaced(body) && CanMerge(body, a, s) && PathTo(Merge(body, a, s), path, t)
    ensures PathTo(body, wide, t) && t != s && forall x :: x in wide ==> Redirect(x, a, s) in path
    decreases |path|
  {
    var b := Merge(body, a, s);
    hide WellPlaced, Merge, CanMerge, Edge;
    assert b.entry == body.entry && body.entry != s by { MergedEntry(body, a, s); }
    if |path| == 1 {
      wide := path;
    } else {
      var n := |path|;
      SplitLast(b, path, t);
      var init := path[..n - 1];
      var w := ExpandPath(body, a, s, init, init[n - 2]);
      var q := init[n - 2];
      MergedEdge(body, a, s, q, t);
      assert t != s by { NoEdgeToMerged(body, a, s, if q == a then s else q); }
      if q == a {
        JumpIsEdge(body, a, s, s);
        PathExtends(body, w, a, s);
        PathExtends(body, w + [s], s, t);
        wide := w + [s] + [t];
      } else {
        PathExtends(body, w, q, t);
        wide := w + [t];
      }
      assert path == init + [t];
      forall x | x in wide ensures Redirect(x, a, s) in path {
        assert x in w || x == s || x == t;
        assert a in init ==> a in path;
        assert q in init;
      }
    }
  }

  lemma MergedEntry(body: Body, a: BlockId, s: BlockId)
    requires CanMerge(body, a, s)
    ensures Merge(body, a, s).entry == body.entry && body.entry != s && a != s
  {
  }

  lemma NoEdgeToMerged(body: Body, a: BlockId, s: BlockId, q: BlockId)
    requires CanMerge(body, a, s) && q != a
    ensures !Edge(body, q, s)
  {
  }

  lemma {:induction false} ContractPath(body: Body, a: BlockId, s: BlockId, path: seq<BlockId>, t: BlockId)
    requires WellPlaced(body) && CanMerge(body, a, s) && PathTo(body, path, t)
    ensures Reachable(Merge(body, a, s), Redirect(t, a, s))
    decreases |path|
  {
    var b := Merge(body, a, s);
    hide WellPlaced, Merge, CanMerge, Edge, Reachable;
    MergedEntry(body, a, s);
    if |path| == 1 {
      EntryReachable(b);
    } else {
      var n := |path|;
      SplitLast(body, path, t);
      var q := path[n - 2];
      assert path[..n - 1][n - 2] == q;
      ContractPath(body, a, s, path[..n - 1], q);
      if q == a {
        JumpIsEdge(body, a, s, t);
      } else {
        assert t != s by { NoEdgeToMerged2(body, a, s, q, t); }
        MergedEdge(body, a, s, Redirect(q, a, s), t);
        ReachStep(b, Redirect(q, a, s), t);
      }
    }
  }

  lemma NoEdgeToMerged2(body: Body, a: BlockId, s: BlockId, q: BlockId, t: BlockId)
    requires CanMerge(body, a, s) && q != a && Edge(body, q, t)
    ensures t != s
  {
  }

  /** Merging makes exactly the merged block unreachable. */
  lemma MergedReachable(body: Body, a: BlockId, s: BlockId, t: BlockId)
    requires WellPlaced(body) && CanMerge(body, a, s)
    ensures Reachable(Merge(body, a, s), t) <==> Reachable(body, t) && t != s
  {
    hide WellPlaced, Merge, CanMerge, PathTo;
    if Reachable(Merge(body, a, s), t) {
      var path :| PathTo(Merge(body, a, s), path, t);
      var wide := ExpandPath(body, a, s, path, t);
    }
    if Reachable(body, t) && t != s {
      var path :| PathTo(body, path, t);
      ContractPath(body, a, s, path, t);
    }
  }

  lemma MergedDominates(body: Body, a: BlockId, s: BlockId, h: BlockId, t: BlockId)
    requires WellPlaced(body) && CanMerge(body, a, s) && Dominates(body, h, t) && t != s
    ensures Dominates(Merge(body, a, s), Redirect(h, a, s), t)
  {
    hide WellPlaced, Merge, CanMerge, PathTo;
    forall path | PathTo(Merge(body, a, s), path, t) ensures Redirect(h, a, s) in path {
      var wide := ExpandPath(body, a, s, path, t);
    }
  }

  // ---------------------------------------------------------------- the same runs, one block longer

  /** Every entry of a phi is for a real predecessor. */
  ghost predicate PhisClean(body: Body) {
    forall i :: CleanPhi(body, i)
  }

  function RedirectPlace(place: Place, a: BlockId, s: BlockId): Place {
    match place
    case At(b, from) => At(b, if from == Some(s) then Some(a) else from)
    case Done(_) => place
  }

  lemma RetargetPlain(kind: InstKind, s: BlockId, a: BlockId)
    requires !kind.Phi?
    ensures Args(Retarget(kind, s, a)) == Args(kind) && (!kind.Branch? ==> Retarget(kind, s, a) == kind)
    ensures forall i, ty, p, q ::
      OperatorOf(i, InstData(p, ty, Retarget(kind, s, a))) == OperatorOf(i, InstData(q, ty, kind))
  {
  }

  lemma {:induction false} MergedList(W: World, body: Body, obs: set<InstId>, a: BlockId, s: BlockId, list: seq<InstId>,
                                      st: State)
    requires CanMerge(body, a, s)
    requires forall i :: i in list ==>
      Attached(body, i) && i != body.blocks[a].terminator.value && !body.insts[i].kind.Phi?
    ensures ExecInsts(W, Merge(body, a, s), obs, list, st) == ExecInsts(W, body, obs, list, st)
    decreases |list|
  {
    assert a in body.blocks && body.blocks[a].terminator.Some?;
    hide CanMerge, Perform, OperatorOf, Args, Retarget;
    if list != [] {
      var i := list[|list| - 1];
      forall j | j in list[..|list| - 1]
        ensures Attached(body, j) && j != body.blocks[a].terminator.value && !body.insts[j].kind.Phi?
      {
        assert j in list;
      }
      MergedList(W, body, obs, a, s, list[..|list| - 1], st);
      assert i in list;
      RetargetPlain(body.insts[i].kind, s, a);
    }
  }

  lemma {:induction false} ExecConcat(W: World, body: Body, obs: set<InstId>, x: seq<InstId>, y: seq<InstId>, st: State)
    ensures ExecInsts(W, body, obs, x + y, st) == ExecInsts(W, body, obs, y, ExecInsts(W, body, obs, x, st))
    decreases |y|
  {
    hide StepInst;
    if y == [] {
      assert x + y == x;
    } else {
      assert (x + y)[..|x + y| - 1] == x + y[..|y| - 1];
      ExecConcat(W, body, obs, x, y[..|y| - 1], st);
    }
  }

  lemma MergedLeave(W: World, body: Body, obs: set<InstId>, a: BlockId, s: BlockId, p: BlockId, st: State)
    requires WellPlaced(body) && CanMerge(body, a, s) && p in body.blocks && p != a
    ensures Leave(W, Merge(body, a, s), obs, body.blocks[p].terminator, st)
      == Leave(W, body, obs, body.blocks[p].terminator, st)
  {
    var t := body.blocks[p].terminator;
    if t.Some? {
      SameTargets(body, a, s, p);
      OtherTerminator(body, a, s, p);
      assert Contains(body.blocks[p], t.value);
      ListedKinds(body, p);
      hide WellPlaced, Retarget, Truthy;
      assert Merge(body, a, s).insts[t.value].kind == body.insts[t.value].kind;
    }
  }

  lemma RetargetHas(kind: InstKind, s: BlockId, a: BlockId, idx: nat, p: BlockId)
    requires kind.Phi? && p != s && (p == a ==> forall k :: !HasIncoming(kind, k, a))
    ensures HasIncoming(Retarget(kind, s, a), idx, p) <==> if p == a then HasIncoming(kind, idx, s)
      else HasIncoming(kind, idx, p)
    ensures idx in kind.incomings ==> Retarget(kind, s, a).incomings[idx].value == kind.incomings[idx].value
  {
    assert p == a ==> !HasIncoming(kind, idx, a);
  }

  /** Nothing but the merged block follows a, so no other phi has an entry for a. */
  lemma NoEntryFor(body: Body, a: BlockId, s: BlockId, phi: InstId)
    requires CanMerge(body, a, s) && CleanPhi(body, phi) && Attached(body, phi) && body.insts[phi].kind.Phi?
    requires body.insts[phi].parent.value != s
    ensures forall k :: !HasIncoming(body.insts[phi].kind, k, a)
  {
    hide CanMerge, Edge;
    var kind := body.insts[phi].kind;
    forall k ensures !HasIncoming(kind, k, a) {
      JumpIsEdge(body, a, s, body.insts[phi].parent.value);
      assert k in kind.incomings ==> k in PhiBlocks(kind) && PhiBlocks(kind)[k] == kind.incomings[k].block;
    }
  }

  lemma MergedPhi(W: World, body: Body, a: BlockId, s: BlockId, p: BlockId, b: BlockId, phi: InstId, env: Env)
    requires SSA(body) && CanMerge(body, a, s) && PhisClean(body) && b in body.blocks && b != s && Reachable(body, p)
    requires Edge(body, p, b) && phi in body.blocks[b].phis
    ensures PhiValue(W, Merge(body, a, s), phi, Redirect(p, a, s), env) == PhiValue(W, body, phi, p, env)
  {
    ReachStep(body, p, b);
    assert BlockOk(body, b) && Contains(body.blocks[b], phi);
    ListedHere(body, b, phi);
    assert PhiOk(body, phi, b);
    var kind := body.insts[phi].kind;
    var idx :| HasIncoming(kind, idx, p);
    assert CleanPhi(body, phi);
    NoEntryFor(body, a, s, phi);
    assert p != a;
    PhiNotTerminator(body, a, s, phi);
    MergedHeld(body, a, s, phi);
    hide SSA, CanMerge, Reachable, Edge, PhiValue, BlockOk, WellPlaced, CleanPhi, Merge;
    var q := Redirect(p, a, s);
    assert a != s by { MergedEntry(body, a, s); }
    var kind' := Retarget(kind, s, a);
    forall j ensures HasIncoming(kind', j, q) <==> HasIncoming(kind, j, p) {
      RetargetHas(kind, s, a, j, q);
    }
    RetargetHas(kind, s, a, idx, q);
    PhiValueIs(W, body, phi, p, idx, env);
    PhiValueIs(W, Merge(body, a, s), phi, q, idx, env);
    MergedConsts(body, a, s);
  }

  lemma PhiNotTerminator(body: Body, a: BlockId, s: BlockId, phi: InstId)
    requires CanMerge(body, a, s) && phi in body.insts && body.insts[phi].kind.Phi?
    ensures phi != body.blocks[a].terminator.value
  {
  }

  lemma MergedConsts(body: Body, a: BlockId, s: BlockId)
    requires CanMerge(body, a, s)
    ensures Merge(body, a, s).consts == body.consts
  {
  }

  lemma MergedEnter(W: World, body: Body, obs: set<InstId>, a: BlockId, s: BlockId, b: BlockId, from: Option<BlockId>,
                    st: State)
    requires SSA(body) && CanMerge(body, a, s) && PhisClean(body) && b in body.blocks && b != s
    requires from.Some? ==> Reachable(body, from.value) && Edge(body, from.value, b)
    ensures EnterBlock(W, Merge(body, a, s), obs, body.blocks[b].phis, if from == Some(s) then Some(a) else from, st)
         == EnterBlock(W, body, obs, body.blocks[b].phis, from, st)
  {
    hide SSA, CanMerge, Reachable, Edge, PhiValue, Merge, PhisClean;
    if from.Some? {
      var p := from.value;
      forall phi | phi in body.blocks[b].phis
        ensures PhiValue(W, Merge(body, a, s), phi, Redirect(p, a, s), st.env) == PhiValue(W, body, phi, p, st.env)
      {
        MergedPhi(W, body, a, s, p, b, phi, st.env);
      }
      assert PhiEnv(W, Merge(body, a, s), body.blocks[b].phis, Redirect(p, a, s), st.env)
        == PhiEnv(W, body, body.blocks[b].phis, p, st.env);
    }
  }

  /** A run is at a block it came to along an edge. */
  ghost predicate PlaceOk(body: Body, place: Place) {
    && (place.At? ==> place.b in body.blocks && Reachable(body, place.b))
    && (place.At? && place.from.Some? ==> Reachable(body, place.from.value) && Edge(body, place.from.value, place.b))
  }

  lemma StepPlaceOk(W: World, body: Body, obs: set<InstId>, place: Place, st: State)
    requires WellPlaced(body) && PlaceOk(body, place)
    ensures PlaceOk(body, StepBlock(W, body, obs, place, st).0)
  {
    if place.At? {
      var blk := body.blocks[place.b];
      var st2 := ExecInsts(W, body, obs, blk.insts, EnterBlock(W, body, obs, blk.phis, place.from, st));
      LeaveTakesEdge(W, body, obs, place.b, st2);
      hide WellPlaced, Leave, Edge, Reachable, EnterBlock, ExecInsts;
      var exit := Leave(W, body, obs, blk.terminator, st2).0;
      if exit.To? {
        ReachStep(body, place.b, exit.b);
      }
    }
  }

  lemma ListedPlain(body: Body, a: BlockId, s: BlockId, b: BlockId)
    requires WellPlaced(body) && CanMerge(body, a, s) && b in body.blocks
    ensures forall i :: i in body.blocks[b].insts ==>
      Attached(body, i) && i != body.blocks[a].terminator.value && !body.insts[i].kind.Phi?
  {
    ListedKinds(body, b);
    ListedKinds(body, a);
    hide WellPlaced;
  }

  /** Away from the merged pair a block does the same, and goes to the same place. */
  lemma StepElsewhere(W: World, body: Body, obs: set<InstId>, a: BlockId, s: BlockId, place: Place, st: State)
    requires SSA(body) && CanMerge(body, a, s) && PhisClean(body) && PlaceOk(body, place) && place.At? && place.b != a
    requires place.b != s
    ensures var (x, sx) := StepBlock(W, body, obs, place, st);
      && StepBlock(W, Merge(body, a, s), obs, RedirectPlace(place, a, s), st) == (RedirectPlace(x, a, s), sx)
      && (x.At? ==> x.b != s)
  {
    var b := place.b;
    var blk := body.blocks[b];
    assert WellPlaced(body);
    ListedPlain(body, a, s, b);
    var st1 := EnterBlock(W, body, obs, blk.phis, place.from, st);
    var st2 := ExecInsts(W, body, obs, blk.insts, st1);
    MergedEnter(W, body, obs, a, s, b, place.from, st);
    MergedList(W, body, obs, a, s, blk.insts, st1);
    MergedLeave(W, body, obs, a, s, b, st2);
    LeaveTakesEdge(W, body, obs, b, st2);
    assert Merge(body, a, s).blocks[b] == blk;
    hide SSA;
    var exit := Leave(W, body, obs, blk.terminator, st2).0;
    assert exit.To? ==> exit.b != s;
    hide CanMerge, Edge;
  }

  /** One step of the merged block is a step of each of the two. */
  lemma StepMerged(W: World, body: Body, obs: set<InstId>, a: BlockId, s: BlockId, from: Option<BlockId>, st: State)
    requires SSA(body) && CanMerge(body, a, s) && PhisClean(body) && PlaceOk(body, At(a, from))
    requires body.blocks[a].terminator.value !in obs
    ensures var (x, sx) := StepBlock(W, body, obs, At(a, from), st);
      var (y, sy) := StepBlock(W, body, obs, x, sx);
      && x == At(s, Some(a)) && sx.trace <= sy.trace
      && StepBlock(W, Merge(body, a, s), obs, RedirectPlace(At(a, from), a, s), st) == (RedirectPlace(y, a, s), sy)
      && (y.At? ==> y.b != s)
  {
    hide WellPlaced, EnterBlock, ExecInsts, Leave, PhisClean, Reachable;
    var ba, bs := body.blocks[a], body.blocks[s];
    assert WellPlaced(body);
    ListedPlain(body, a, s, a);
    ListedPlain(body, a, s, s);
    var st1 := EnterBlock(W, body, obs, ba.phis, from, st);
    var st2 := ExecInsts(W, body, obs, ba.insts, st1);
    var st3 := ExecInsts(W, body, obs, bs.insts, st2);
    MergedEnter(W, body, obs, a, s, a, from, st);
    MergedList(W, body, obs, a, s, ba.insts, st1);
    MergedList(W, body, obs, a, s, bs.insts, st2);
    ExecConcat(W, Merge(body, a, s), obs, ba.insts, bs.insts, st1);
    MergedLeave(W, body, obs, a, s, s, st3);
    LeaveTakesEdge(W, body, obs, s, st3);
    JumpLeaves(W, body, obs, a, s, st2);
    NoPhisEnter(W, body, obs, Some(a), st2);
    TraceGrows(W, body, obs, bs.insts, st2);
    LeaveGrows(W, body, obs, bs.terminator, st3);
    assert Merge(body, a, s).blocks[a] == BlockData(ba.phis, ba.insts + bs.insts, bs.terminator);
    hide SSA, WellPlaced, EnterBlock, ExecInsts, Leave, PhisClean, PlaceOk;
    var exit := Leave(W, body, obs, bs.terminator, st3).0;
    assert exit.To? ==> exit.b != s;
    hide CanMerge, Edge;
  }

  lemma JumpLeaves(W: World, body: Body, obs: set<InstId>, a: BlockId, s: BlockId, st: State)
    requires CanMerge(body, a, s) && body.blocks[a].terminator.value !in obs
    ensures Leave(W, body, obs, body.blocks[a].terminator, st) == (To(s), st)
  {
  }

  lemma NoPhisEnter(W: World, body: Body, obs: set<InstId>, from: Option<BlockId>, st: State)
    ensures EnterBlock(W, body, obs, [], from, st) == st
  {
    if from.Some? {
      assert PhiEnv(W, body, [], from.value, st.env) == st.env;
    }
  }

  lemma {:induction false} TraceGrows(W: World, body: Body, obs: set<InstId>, list: seq<InstId>, st: State)
    ensures st.trace <= ExecInsts(W, body, obs, list, st).trace
    decreases |list|
  {
    if list != [] {
      TraceGrows(W, body, obs, list[..|list| - 1], st);
      StepGrows(W, body, obs, list[|list| - 1], ExecInsts(W, body, obs, list[..|list| - 1], st));
      hide StepInst;
    }
  }

  lemma StepGrows(W: World, body: Body, obs: set<InstId>, i: InstId, st: State)
    ensures st.trace <= StepInst(W, body, obs, i, st).trace
  {
    hide Apply;
  }

  lemma LeaveGrows(W: World, body: Body, obs: set<InstId>, t: Option<InstId>, st: State)
    ensures st.trace <= Leave(W, body, obs, t, st).1.trace
  {
  }

  // ---------------------------------------------------------------- simulation in both directions

  /** The original is not inside the pair, and the merged body is where it is. */
  ghost predicate Aligned(body: Body, a: BlockId, s: BlockId, x: (Place, State), y: (Place, State)) {
    PlaceOk(body, x.0) && (x.0.At? ==> x.0.b != s) && y == (RedirectPlace(x.0, a, s), x.1)
  }

  /** The original has done a and not s yet; the merged body is about to do both. */
  ghost predicate Between(W: World, body: Body, obs: set<InstId>, a: BlockId, s: BlockId, x: (Place, State), y: (Place,
                          State), from: Option<BlockId>) {
    PlaceOk(body, At(a, from)) && y.0 == RedirectPlace(At(a, from), a, s)
      && x == StepBlock(W, body, obs, At(a, from), y.1)
  }

  lemma RunNext(W: World, body: Body, obs: set<InstId>, mem: Memory, n: nat)
    ensures var (p, st) := Execute(W, body, obs, mem, n);
      Execute(W, body, obs, mem, n + 1)
      == StepBlock(W, body, obs, p, st)
  {
  }

  lemma RunStart(W: World, body: Body, obs: set<InstId>, mem: Memory)
    ensures Execute(W, body, obs, mem, 0) == (At(body.entry, None), State(FreshEnv(), mem, []))
  {
  }

  lemma StartAligned(W: World, body: Body, obs: set<InstId>, a: BlockId, s: BlockId, mem: Memory)
    requires WellPlaced(body) && CanMerge(body, a, s)
    ensures Aligned(body, a, s, Execute(W, body, obs, mem, 0), Execute(W, Merge(body, a, s), obs, mem, 0))
  {
    EntryReachable(body);
    RunStart(W, body, obs, mem);
    RunStart(W, Merge(body, a, s), obs, mem);
    MergedEntry(body, a, s);
    assert body.entry in body.blocks;
    hide WellPlaced, CanMerge, Execute, Merge, Reachable;
  }

  ghost predicate Matched(W: World, body: Body, obs: set<InstId>, a: BlockId, s: BlockId, x: (Place, State), y: (Place,
                          State), from: Option<BlockId>) {
    Aligned(body, a, s, x, y) || Between(W, body, obs, a, s, x, y, from)
  }

  /** One step of the original is matched by one step or none of the merged body. */
  lemma ForwardStep(W: World, body: Body, obs: set<InstId>, a: BlockId, s: BlockId, x: (Place, State), y: (Place,
                    State), from: Option<BlockId>)
    returns (advance: bool, from': Option<BlockId>)
    requires SSA(body) && CanMerge(body, a, s) && PhisClean(body) && body.blocks[a].terminator.value !in obs
    requires Matched(W, body, obs, a, s, x, y, from)
    ensures Matched(W, body, obs, a, s, StepBlock(W, body, obs, x.0, x.1), if advance
      then StepBlock(W, Merge(body, a, s), obs, y.0, y.1) else y, from')
  {
    assert WellPlaced(body);
    hide SSA, CanMerge, PhisClean, StepBlock, Merge, WellPlaced, PlaceOk;
    advance, from' := true, from;
    if Aligned(body, a, s, x, y) {
      StepPlaceOk(W, body, obs, x.0, x.1);
      if x.0.Done? {
        DoneStays(W, body, obs, x.0, x.1);
        advance := false;
      } else if x.0.b == a {
        advance, from' := false, x.0.from;
      } else {
        StepElsewhere(W, body, obs, a, s, x.0, x.1);
      }
    } else {
      StepMerged(W, body, obs, a, s, from, y.1);
      StepPlaceOk(W, body, obs, At(a, from), y.1);
      StepPlaceOk(W, body, obs, x.0, x.1);
    }
  }

  /** Whatever the original has done, the merged body has reached a point that matches it. */
  lemma {:induction false} Forward(W: World, body: Body, obs: set<InstId>, a: BlockId, s: BlockId, mem: Memory, n: nat)
    returns (m: nat, from: Option<BlockId>)
    requires SSA(body) && CanMerge(body, a, s) && PhisClean(body) && body.blocks[a].terminator.value !in obs
    ensures Matched(W, body, obs, a, s, Execute(W, body, obs, mem, n), Execute(W, Merge(body, a, s), obs, mem, m), from)
    decreases n
  {
    if n == 0 {
      m, from := 0, None;
      assert WellPlaced(body);
      StartAligned(W, body, obs, a, s, mem);
      hide Aligned, Execute;
    } else {
      m, from := Forward(W, body, obs, a, s, mem, n - 1);
      RunNext(W, body, obs, mem, n - 1);
      RunNext(W, Merge(body, a, s), obs, mem, m);
      hide SSA, CanMerge, PhisClean, Matched, Execute, Merge, StepBlock;
      var advance, from' := ForwardStep(W, body, obs, a, s, Execute(W, body, obs, mem, n - 1),
        Execute(W, Merge(body, a, s), obs, mem, m), from);
      from := from';
      m := if advance then m + 1 else m;
    }
  }

  ghost function Steps(W: World, body: Body, obs: set<InstId>, x: (Place, State), k: nat): (Place, State) {
    if k == 0 then x else var y := Steps(W, body, obs, x, k - 1); StepBlock(W, body, obs, y.0, y.1)
  }

  lemma {:induction false} RunSteps(W: World, body: Body, obs: set<InstId>, mem: Memory, n: nat, k: nat)
    ensures Execute(W, body, obs, mem, n + k) == Steps(W, body, obs, Execute(W, body, obs, mem, n), k)
  {
    if k > 0 {
      RunSteps(W, body, obs, mem, n, k - 1);
      RunNext(W, body, obs, mem, n + k - 1);
      hide Execute, StepBlock;
    }
  }

  /** One step of the merged body is no step, one step or two of the original. */
  lemma BackwardStep(W: World, body: Body, obs: set<InstId>, a: BlockId, s: BlockId, x: (Place, State), y: (Place,
                     State))
    returns (k: nat)
    requires SSA(body) && CanMerge(body, a, s) && PhisClean(body) && body.blocks[a].terminator.value !in obs
    requires Aligned(body, a, s, x, y)
    ensures Aligned(body, a, s, Steps(W, body, obs, x, k), StepBlock(W, Merge(body, a, s), obs, y.0, y.1))
  {
    assert WellPlaced(body);
    hide SSA, CanMerge, PhisClean, StepBlock, Merge, WellPlaced, PlaceOk;
    StepPlaceOk(W, body, obs, x.0, x.1);
    if x.0.Done? {
      DoneStays(W, Merge(body, a, s), obs, y.0, y.1);
      k := 0;
    } else if x.0.b == a {
      StepMerged(W, body, obs, a, s, x.0.from, x.1);
      var (x1, s1) := StepBlock(W, body, obs, x.0, x.1);
      StepPlaceOk(W, body, obs, x1, s1);
      k := 2;
      assert Steps(W, body, obs, x, 1) == (x1, s1);
    } else {
      StepElsewhere(W, body, obs, a, s, x.0, x.1);
      k := 1;
      assert Steps(W, body, obs, x, 0) == x;
    }
  }

  /** Whatever the merged body has done, the original does too, in as many steps or more. */
  lemma {:induction false} Backward(W: World, body: Body, obs: set<InstId>, a: BlockId, s: BlockId, mem: Memory, m: nat)
    returns (n: nat)
    requires SSA(body) && CanMerge(body, a, s) && PhisClean(body) && body.blocks[a].terminator.value !in obs
    ensures Aligned(body, a, s, Execute(W, body, obs, mem, n), Execute(W, Merge(body, a, s), obs, mem, m))
    decreases m
  {
    if m == 0 {
      n := 0;
      assert WellPlaced(body);
      StartAligned(W, body, obs, a, s, mem);
      hide Aligned, Execute;
    } else {
      n := Backward(W, body, obs, a, s, mem, m - 1);
      RunNext(W, Merge(body, a, s), obs, mem, m - 1);
      hide SSA, CanMerge, PhisClean, Aligned, Execute, Merge, StepBlock;
      var k := BackwardStep(W, body, obs, a, s, Execute(W, body, obs, mem, n),
        Execute(W, Merge(body, a, s), obs, mem, m - 1));
      RunSteps(W, body, obs, mem, n, k);
      n := n + k;
    }
  }

  lemma DoneStays(W: World, body: Body, obs: set<InstId>, place: Place, st: State)
    requires place.Done?
    ensures StepBlock(W, body, obs, place, st) == (place, st)
  {
  }

  lemma AlignedShows(body: Body, a: BlockId, s: BlockId, x: (Place, State), y: (Place, State), o: Observation)
    requires Aligned(body, a, s, x, y)
    ensures Shows(x, o) <==> Shows(y, o)
  {
    hide PlaceOk;
  }

  /** A merge cannot be observed, save for the jump it removes. */
  lemma MergeBehaves(body: Body, a: BlockId, s: BlockId, obs: set<InstId>)
    requires SSA(body) && CanMerge(body, a, s) && PhisClean(body) && body.blocks[a].terminator.value !in obs
    ensures SameBehaviour(body, Merge(body, a, s), obs)
  {
    hide SSA, CanMerge, PhisClean, Execute, Shows, Aligned, Merge;
    forall W, mem, o ensures Observable(W, body, obs, mem, o) <==> Observable(W, Merge(body, a, s), obs, mem, o) {
      if Observable(W, body, obs, mem, o) {
        var n: nat :| Shows(Execute(W, body, obs, mem, n), o);
        ShownForward(W, body, obs, a, s, mem, n, o);
      }
      if Observable(W, Merge(body, a, s), obs, mem, o) {
        var m: nat :| Shows(Execute(W, Merge(body, a, s), obs, mem, m), o);
        var n := Backward(W, body, obs, a, s, mem, m);
        AlignedShows(body, a, s, Execute(W, body, obs, mem, n), Execute(W, Merge(body, a, s), obs, mem, m), o);
      }
    }
  }

  lemma ShownForward(W: World, body: Body, obs: set<InstId>, a: BlockId, s: BlockId, mem: Memory, n: nat,
                     o: Observation)
    requires SSA(body) && CanMerge(body, a, s) && PhisClean(body) && body.blocks[a].terminator.value !in obs
    requires Shows(Execute(W, body, obs, mem, n), o)
    ensures Observable(W, Merge(body, a, s), obs, mem, o)
  {
    hide SSA, CanMerge, PhisClean, Execute, Aligned, Merge, StepBlock, PlaceOk;
    var b := Merge(body, a, s);
    var m, from := Forward(W, body, obs, a, s, mem, n);
    var x, y := Execute(W, body, obs, mem, n), Execute(W, b, obs, mem, m);
    if Aligned(body, a, s, x, y) {
      AlignedShows(body, a, s, x, y, o);
    } else {
      StepMerged(W, body, obs, a, s, from, y.1);
      RunNext(W, b, obs, mem, m);
      assert Shows(Execute(W, b, obs, mem, m + 1), o);
    }
  }

  // ---------------------------------------------------------------- the merged body is well formed

  /** The merged pair's second half is not above the first. */
  lemma MergedNotAbove(body: Body, a: BlockId, s: BlockId)
    requires CanMerge(body, a, s) && Reachable(body, s)
    ensures !Dominates(body, s, a)
  {
    NotAboveItself(body, s);
    hide Dominates, Reachable;
  }

  /** What is available in a block of the original is available in the merged body at the same
      instruction: for s, further down in a. */
  lemma MergedBefore(body: Body, a: BlockId, s: BlockId, o: InstId, c: BlockId, k: nat)
    requires WellPlaced(body) && CanMerge(body, a, s) && Reachable(body, s) && Before(body, o, c, k)
    requires !IsTerminator(body.insts[o].kind)
    requires c in body.blocks && k <= |body.blocks[c].insts|
    ensures Before(Merge(body, a, s), o, Redirect(c, a, s), if c == s then |body.blocks[a].insts| + k else k)
  {
    var home := body.insts[o].parent.value;
    MergedNotAbove(body, a, s);
    WellHeldIn(body, o);
    assert o != body.blocks[a].terminator.value by { ListedKinds(body, a); }
    MergedHeld(body, a, s, o);
    if home == c {
      MergedBeforeHere(body, a, s, o, c, k);
    } else if c == s {
      assert Edge(body, a, s) by { JumpIsEdge(body, a, s, s); }
      DominatesPredecessor(body, home, a, s);
      if home == a {
        InMergedBlock(body, a, s, o, k);
      } else {
        MergedDominates(body, a, s, home, a);
      }
    } else {
      MergedDominates(body, a, s, home, c);
      if home == s && c != a {
        hide Dominates;
      }
    }
    hide Dominates, Reachable, WellPlaced;
  }

  lemma MergedBeforeHere(body: Body, a: BlockId, s: BlockId, o: InstId, c: BlockId, k: nat)
    requires WellPlaced(body) && CanMerge(body, a, s) && Before(body, o, c, k) && body.insts[o].parent == Some(c)
    requires o in Merge(body, a, s).insts
    requires Merge(body, a, s).insts[o].parent == Some(Redirect(c, a, s)) && k <= |body.blocks[c].insts|
    ensures Before(Merge(body, a, s), o, Redirect(c, a, s), if c == s then |body.blocks[a].insts| + k else k)
  {
    hide WellPlaced, Dominates;
    var b := Merge(body, a, s);
    var ia := body.blocks[a].insts;
    if o !in body.blocks[c].phis {
      var j :| 0 <= j < k && j < |body.blocks[c].insts| && body.blocks[c].insts[j] == o;
      if c == s {
        assert b.blocks[a].insts[|ia| + j] == o;
      } else if c == a {
        assert b.blocks[a].insts[j] == o;
      }
    }
  }

  lemma InMergedBlock(body: Body, a: BlockId, s: BlockId, o: InstId, k: nat)
    requires WellPlaced(body) && CanMerge(body, a, s) && Attached(body, o) && body.insts[o].parent == Some(a)
    requires !IsTerminator(body.insts[o].kind)
    requires o in Merge(body, a, s).insts && Merge(body, a, s).insts[o].parent == Some(a)
    ensures Before(Merge(body, a, s), o, a, |body.blocks[a].insts| + k)
  {
    WellHeldIn(body, o);
    hide WellPlaced, Dominates;
    if !body.insts[o].kind.Phi? {
      var j :| 0 <= j < |body.blocks[a].insts| && body.blocks[a].insts[j] == o;
      assert Merge(body, a, s).blocks[a].insts[j] == o;
    }
  }

  lemma MergedAvailable(body: Body, a: BlockId, s: BlockId, v: ValueId, c: BlockId, k: nat)
    requires WellPlaced(body) && CanMerge(body, a, s) && Reachable(body, s) && Available(body, v, c, k)
    requires !NamesTerminator(body, v)
    requires c in body.blocks && k <= |body.blocks[c].insts|
    ensures Available(Merge(body, a, s), v, Redirect(c, a, s), if c == s then |body.blocks[a].insts| + k else k)
  {
    if v.InstValue? {
      MergedBefore(body, a, s, v.inst, c, k);
    }
    hide Before;
  }

  lemma MergedArgs(body: Body, a: BlockId, s: BlockId, i: InstId, c: BlockId, k: nat)
    requires WellPlaced(body) && CanMerge(body, a, s) && Reachable(body, s) && TerminatorsUnused(body)
    requires Attached(body, i) && i != body.blocks[a].terminator.value
    requires !body.insts[i].kind.Phi? && c in body.blocks && k <= |body.blocks[c].insts| && ArgsAvailable(body, i, c, k)
    ensures i in Merge(body, a, s).insts
    ensures ArgsAvailable(Merge(body, a, s), i, Redirect(c, a, s), if c == s then |body.blocks[a].insts| + k else k)
  {
    MergedHeld(body, a, s, i);
    RetargetPlain(body.insts[i].kind, s, a);
    hide WellPlaced, CanMerge, Reachable, Args, Retarget, Merge, Available, ValueOperands;
    var kind := body.insts[i].kind;
    forall v | v in Args(kind)
      ensures Available(Merge(body, a, s), v, Redirect(c, a, s), if c == s then |body.blocks[a].insts| + k else k)
    {
      ArgsAreOperands(kind, v);
      var slot :| slot in ValueOperands(kind) && ValueOperands(kind)[slot] == v;
      assert !NamesTerminator(body, v);
      MergedAvailable(body, a, s, v, c, k);
    }
  }

  lemma MergedPhiOk(body: Body, a: BlockId, s: BlockId, i: InstId, c: BlockId)
    requires SSA(body) && CanMerge(body, a, s) && Reachable(body, s) && TerminatorsUnused(body) && PhisClean(body)
    requires c in body.blocks && c != s && Reachable(body, c) && i in body.blocks[c].phis
    ensures i in Merge(body, a, s).insts && PhiOk(Merge(body, a, s), i, c)
  {
    assert BlockOk(body, c) && Contains(body.blocks[c], i);
    ListedHere(body, c, i);
    assert PhiOk(body, i, c) && CleanPhi(body, i);
    NoEntryFor(body, a, s, i);
    PhiNotTerminator(body, a, s, i);
    MergedHeld(body, a, s, i);
    var b := Merge(body, a, s);
    var kind, kind' := body.insts[i].kind, b.insts[i].kind;
    hide SSA, BlockOk, PhisClean, Available, CleanPhi;
    forall p | Reachable(b, p) && Edge(b, p, c)
      ensures exists idx :: HasIncoming(kind', idx, p)
      ensures forall idx, idx' :: HasIncoming(kind', idx, p) && HasIncoming(kind', idx', p) ==> idx == idx'
      ensures forall idx :: HasIncoming(kind', idx, p) ==>
        Available(b, kind'.incomings[idx].value, p, |b.blocks[p].insts|)
    {
      MergedPhiEdge(body, a, s, i, c, p);
    }
  }

  lemma MergedPhiEdge(body: Body, a: BlockId, s: BlockId, i: InstId, c: BlockId, p: BlockId)
    requires SSA(body) && CanMerge(body, a, s) && Reachable(body, s) && TerminatorsUnused(body)
    requires Attached(body, i) && body.insts[i].kind.Phi? && PhiOk(body, i, c)
    requires (forall k :: !HasIncoming(body.insts[i].kind, k, a))
    requires Reachable(Merge(body, a, s), p) && Edge(Merge(body, a, s), p, c)
    requires i in Merge(body, a, s).insts && Merge(body, a, s).insts[i] == MergedInst(body.insts[i], a, s)
    ensures var kind' := Merge(body, a, s).insts[i].kind;
      && (exists idx :: HasIncoming(kind', idx, p))
      && (forall idx, idx' :: HasIncoming(kind', idx, p) && HasIncoming(kind', idx', p) ==> idx == idx')
      && (forall idx :: HasIncoming(kind', idx, p) ==>
           Available(Merge(body, a, s), kind'.incomings[idx].value, p, |Merge(body, a, s).blocks[p].insts|))
  {
    var b := Merge(body, a, s);
    var q := if p == a then s else p;
    assert WellPlaced(body);
    MergedEdge(body, a, s, p, c);
    MergedReachable(body, a, s, p);
    assert Reachable(body, q) && Edge(body, q, c) && p != s;
    MergedSize(body, a, s, p);
    hide SSA, Reachable, Edge, Merge, CanMerge, Available, WellPlaced, TerminatorsUnused;
    var kind, kind' := body.insts[i].kind, b.insts[i].kind;
    forall idx ensures HasIncoming(kind', idx, p) <==> HasIncoming(kind, idx, q) {
      RetargetHas(kind, s, a, idx, p);
    }
    var idx0 :| HasIncoming(kind, idx0, q);
    assert HasIncoming(kind', idx0, p);
    forall idx | HasIncoming(kind', idx, p) ensures Available(b, kind'.incomings[idx].value, p, |b.blocks[p].insts|) {
      assert HasIncoming(kind, idx, q);
      RetargetHas(kind, s, a, idx, p);
      EntryUnused(body, i, idx);
      MergedAvailable(body, a, s, kind.incomings[idx].value, q, |body.blocks[q].insts|);
    }
  }

  lemma MergedSize(body: Body, a: BlockId, s: BlockId, p: BlockId)
    requires CanMerge(body, a, s) && p != s && p in Merge(body, a, s).blocks
    ensures p in body.blocks
    ensures |Merge(body, a, s).blocks[p].insts| == if p == a then |body.blocks[a].insts| + |body.blocks[s].insts|
      else |body.blocks[p].insts|
  {
  }

  lemma EntryUnused(body: Body, i: InstId, idx: nat)
    requires TerminatorsUnused(body) && Attached(body, i) && body.insts[i].kind.Phi?
    requires idx in body.insts[i].kind.incomings
    ensures !NamesTerminator(body, body.insts[i].kind.incomings[idx].value)
  {
    EntrySlots(body.insts[i].kind, idx);
    hide ValueOperands;
  }

  lemma MergedBlockOk(body: Body, a: BlockId, s: BlockId, c: BlockId)
    requires SSA(body) && CanMerge(body, a, s) && Reachable(body, s) && Reachable(body, a) && TerminatorsUnused(body)
    requires PhisClean(body)
    requires c in body.blocks && c != s && Reachable(body, c)
    ensures BlockOk(Merge(body, a, s), c)
  {
    assert BlockOk(body, c) && BlockOk(body, s) && WellPlaced(body);
    ListedKinds(body, c);
    ListedKinds(body, s);
    ListedKinds(body, a);
    hide SSA, WellPlaced, Reachable, ArgsAvailable, PhiOk, PhisClean, TerminatorsUnused, IsTerminator;
    var b := Merge(body, a, s);
    var ia, tail := body.blocks[a].insts, body.blocks[s].insts;
    forall i | i in b.blocks[c].phis ensures i in b.insts && PhiOk(b, i, c) {
      MergedPhiOk(body, a, s, i, c);
    }
    forall k | 0 <= k < |b.blocks[c].insts|
      ensures b.blocks[c].insts[k] in b.insts && ArgsAvailable(b, b.blocks[c].insts[k], c, k)
    {
      if c == a && k >= |ia| {
        assert b.blocks[c].insts[k] == tail[k - |ia|] && tail[k - |ia|] in tail;
        MergedArgs(body, a, s, tail[k - |ia|], s, k - |ia|);
      } else {
        assert b.blocks[c].insts[k] == body.blocks[c].insts[k] && body.blocks[c].insts[k] in body.blocks[c].insts;
        MergedArgs(body, a, s, body.blocks[c].insts[k], c, k);
      }
    }
    if b.blocks[c].terminator.Some? {
      var src := if c == a then s else c;
      OtherTerminatorOf(body, a, s, src);
      MergedArgs(body, a, s, body.blocks[src].terminator.value, src, |body.blocks[src].insts|);
    }
  }

  lemma OtherTerminatorOf(body: Body, a: BlockId, s: BlockId, p: BlockId)
    requires WellPlaced(body) && CanMerge(body, a, s) && p in body.blocks && p != a && body.blocks[p].terminator.Some?
    ensures body.blocks[p].terminator.value in body.insts
    ensures body.blocks[p].terminator.value != body.blocks[a].terminator.value
    ensures !body.insts[body.blocks[p].terminator.value].kind.Phi?
  {
    OtherTerminator(body, a, s, p);
    ListedKinds(body, p);
    hide WellPlaced;
  }

  /** The merged body is still in SSA form. */
  lemma MergedSSA(body: Body, a: BlockId, s: BlockId)
    requires SSA(body) && CanMerge(body, a, s) && Reachable(body, s) && Reachable(body, a) && TerminatorsUnused(body)
    requires PhisClean(body)
    requires WellPlaced(Merge(body, a, s))
    ensures SSA(Merge(body, a, s))
  {
    var b := Merge(body, a, s);
    assert b.blocks[b.entry].phis == [];
    forall c | c in b.blocks && Reachable(b, c) ensures BlockOk(b, c) {
      MergedReachable(body, a, s, c);
      MergedBlockOk(body, a, s, c);
    }
    hide BlockOk, WellPlaced, Reachable;
  }

  lemma MergedUnused(body: Body, a: BlockId, s: BlockId)
    requires CanMerge(body, a, s) && TerminatorsUnused(body)
    ensures TerminatorsUnused(Merge(body, a, s))
  {
    var b := Merge(body, a, s);
    hide ValueOperands, Retarget, CanMerge, IsTerminator;
    forall i, slot | Attached(b, i) && slot in ValueOperands(b.insts[i].kind)
      ensures !NamesTerminator(b, ValueOperands(b.insts[i].kind)[slot])
    {
      RetargetExact(body.insts[i].kind, s, a);
      assert !NamesTerminator(body, ValueOperands(body.insts[i].kind)[slot]);
      forall j | j in b.insts ensures IsTerminator(b.insts[j].kind) == IsTerminator(body.insts[j].kind) {
        RetargetRole(body.insts[j].kind, s, a);
      }
    }
  }

  lemma RetargetRole(kind: InstKind, s: BlockId, a: BlockId)
    ensures IsTerminator(Retarget(kind, s, a)) == IsTerminator(kind) && Retarget(kind, s, a).Phi? == kind.Phi?
  {
  }

  /** Phis stay clean: an entry for s becomes an entry for a, which now has the edge. */
  lemma MergedClean(body: Body, a: BlockId, s: BlockId)
    requires WellPlaced(body) && CanMerge(body, a, s) && PhisClean(body)
    ensures PhisClean(Merge(body, a, s))
  {
    hide WellPlaced, CleanPhi, CanMerge, Merge;
    forall i ensures CleanPhi(Merge(body, a, s), i) {
      MergedCleanOne(body, a, s, i);
    }
  }

  lemma MergedCleanOne(body: Body, a: BlockId, s: BlockId, i: InstId)
    requires WellPlaced(body) && CanMerge(body, a, s) && CleanPhi(body, i)
    ensures CleanPhi(Merge(body, a, s), i)
  {
    var b := Merge(body, a, s);
    if Attached(b, i) && b.insts[i].kind.Phi? {
      RetargetRole(body.insts[i].kind, s, a);
      assert Attached(body, i) && body.insts[i].kind.Phi?;
      WellHeldIn(body, i);
      var c := body.insts[i].parent.value;
      assert c != s && b.insts[i].parent == Some(c);
      NoEntryFor(body, a, s, i);
      var kind, kind' := body.insts[i].kind, b.insts[i].kind;
      assert PhiBlocks(kind').Keys == PhiBlocks(kind).Keys;
      assert |PhiBlocks(kind')| == |PhiBlocks(kind').Keys| && |PhiBlocks(kind)| == |PhiBlocks(kind).Keys|;
      forall k | k in PhiBlocks(kind') ensures Edge(b, PhiBlocks(kind')[k], c) {
        var q := PhiBlocks(kind)[k];
        assert Edge(body, q, c);
        assert !HasIncoming(kind, k, a) && q != a;
        MergedEdge(body, a, s, Redirect(q, a, s), c);
      }
      hide Edge, WellPlaced, CanMerge, Merge;
    }
  }
}
