/** Static single assignment: definitions dominate uses, and therefore the equations that
    instructions state keep holding wherever those instructions dominate. */
module Ssa {
  import opened CoreInts
  import opened Ir
  import opened Semantics

  /** Instruction o has its value by the time control is before instruction k of block b
      (k is the length of the block's list at its terminator). */
  ghost predicate Before(body: Body, o: InstId, b: BlockId, k: int) {
    && Attached(body, o) && b in body.blocks
    && var home := body.insts[o].parent.value;
    if home == b then k >= 0 && (o in body.blocks[b].phis || InPrefix(body.blocks[b].insts, o, k))
    else Dominates(body, home, b)
  }

  predicate InPrefix(list: seq<InstId>, o: InstId, k: int) {
    exists j :: 0 <= j < k && j < |list| && list[j] == o
  }

  ghost predicate Available(body: Body, v: ValueId, b: BlockId, k: int) {
    v.InstValue? ==> Before(body, v.inst, b, k)
  }

  ghost predicate ArgsAvailable(body: Body, i: InstId, b: BlockId, k: int)
    requires i in body.insts
  {
    forall v :: v in Args(body.insts[i].kind) ==> Available(body, v, b, k)
  }

  predicate HasIncoming(kind: InstKind, idx: nat, p: BlockId) {
    kind.Phi? && idx in kind.incomings && kind.incomings[idx].block == p
  }

  /** A phi has exactly one entry for each predecessor control can come from, with a value that is
      available at that predecessor's end. */
  ghost predicate PhiOk(body: Body, i: InstId, b: BlockId)
    requires i in body.insts
  {
    forall p :: Reachable(body, p) && Edge(body, p, b) ==>
      && (exists idx :: HasIncoming(body.insts[i].kind, idx, p))
      && (forall idx, idx' :: HasIncoming(body.insts[i].kind, idx, p) && HasIncoming(body.insts[i].kind, idx', p) ==>
           idx == idx')
      && (forall idx :: HasIncoming(body.insts[i].kind, idx, p) ==>
            Available(body, body.insts[i].kind.incomings[idx].value, p, |body.blocks[p].insts|))
  }

  ghost predicate BlockOk(body: Body, b: BlockId)
    requires b in body.blocks
  {
    var blk := body.blocks[b];
    && (forall i :: i in blk.phis ==> i in body.insts && PhiOk(body, i, b))
    && (forall k :: 0 <= k < |blk.insts| ==> blk.insts[k] in body.insts && ArgsAvailable(body, blk.insts[k], b, k))
    && (blk.terminator.Some? ==>
         blk.terminator.value in body.insts && ArgsAvailable(body, blk.terminator.value, b, |blk.insts|))
  }

  ghost predicate SSA(body: Body) {
    && WellPlaced(body) && body.blocks[body.entry].phis == []
    && forall b :: b in body.blocks && Reachable(body, b) ==> BlockOk(body, b)
  }

  // ---------------------------------------------------------------- equations

  predicate Uniform(kind: InstKind) {
    kind.Phi? && kind.incomings != map[] && forall i, j :: i in kind.incomings && j in kind.incomings ==>
      kind.incomings[i].value == kind.incomings[j].value
  }

  /** Instructions that state an equation: pure ones, and phis all of whose entries agree. */
  predicate IsEquation(body: Body, d: InstId) {
    Attached(body, d) && (IsPure(body.insts[d].kind) || Uniform(body.insts[d].kind))
  }

  ghost predicate Holds(W: World, body: Body, d: InstId, env: Env)
    requires d in body.insts
  {
    var kind := body.insts[d].kind;
    if kind.Phi? then forall idx :: idx in kind.incomings ==>
      env[d] == Value(W, body.consts, kind.incomings[idx].value, env)
    else env[d] == Apply(W, OperatorOf(d, body.insts[d]), ArgVals(W, body, d, env))
  }

  /** The equations of everything that has its value at this point hold. */
  ghost predicate EquationsHold(W: World, body: Body, b: BlockId, k: int, env: Env) {
    forall d :: IsEquation(body, d) && Before(body, d, b, k) ==> Holds(W, body, d, env)
  }

  /** The values an equation speaks about. */
  ghost predicate Mentions(kind: InstKind, v: ValueId) {
    if kind.Phi? then exists idx :: idx in kind.incomings && kind.incomings[idx].value == v else v in Args(kind)
  }

  lemma ValuesFrame(W: World, consts: seq<ConstData>, vs: seq<ValueId>, env: Env, env': Env)
    requires forall o :: InstValue(o) in vs ==> env'[o] == env[o]
    ensures Values(W, consts, vs, env') == Values(W, consts, vs, env)
  {
    forall k | 0 <= k < |vs| ensures Value(W, consts, vs[k], env') == Value(W, consts, vs[k], env) {
      assert vs[k] in vs;
    }
  }

  /** An equation is about its own value and its operands' only. */
  lemma HoldsFrame(W: World, body: Body, d: InstId, env: Env, env': Env)
    requires d in body.insts && env'[d] == env[d]
    requires forall o :: Mentions(body.insts[d].kind, InstValue(o)) ==> env'[o] == env[o]
    ensures Holds(W, body, d, env) ==> Holds(W, body, d, env')
  {
    hide Apply;
    var kind := body.insts[d].kind;
    if kind.Phi? {
      forall idx | idx in kind.incomings
        ensures Value(W, body.consts, kind.incomings[idx].value, env')
          == Value(W, body.consts, kind.incomings[idx].value, env)
      {
        assert Mentions(kind, kind.incomings[idx].value);
      }
    } else {
      ValuesFrame(W, body.consts, Args(kind), env, env');
    }
  }

  lemma WellHeldIn(body: Body, i: InstId)
    requires WellPlaced(body) && Attached(body, i)
    ensures body.insts[i].parent.value in body.blocks
    ensures Lists(body.blocks[body.insts[i].parent.value], body.insts[i].kind, i)
  {
    assert WellHeld(body, i);
  }

  lemma ListedHere(body: Body, b: BlockId, i: InstId)
    requires WellPlaced(body) && b in body.blocks && Contains(body.blocks[b], i)
    ensures Attached(body, i) && body.insts[i].parent == Some(b) && Lists(body.blocks[b], body.insts[i].kind, i)
  {
    hide OperandsExist;
  }

  /** The agreeing value of a phi comes from above the phi's block, not from within it. */
  lemma UniformFromAbove(body: Body, phi: InstId, o: InstId)
    requires SSA(body) && Attached(body, phi) && Uniform(body.insts[phi].kind)
    requires Mentions(body.insts[phi].kind, InstValue(o))
    requires Reachable(body, body.insts[phi].parent.value)
    ensures Attached(body, o) && body.insts[o].parent.value != body.insts[phi].parent.value
    ensures Dominates(body, body.insts[o].parent.value, body.insts[phi].parent.value)
  {
    hide WellPlaced, Reachable, Dominates, Path, Edge;
    var b := body.insts[phi].parent.value;
    WellHeldIn(body, phi);
    assert BlockOk(body, b);
    NotAboveItself(body, b);
    var q :| Reachable(body, q) && Edge(body, q, b) && q != b && !Dominates(body, b, q);
    UniformAvailable(body, phi, b, o, q);
    forall path | PathTo(body, path, b) ensures body.insts[o].parent.value in path {
      UniformOnPath(body, phi, b, o, path);
    }
    AllPaths(body, body.insts[o].parent.value, b);
  }

  lemma AllPaths(body: Body, a: BlockId, b: BlockId)
    requires forall path :: PathTo(body, path, b) ==> a in path
    ensures Dominates(body, a, b)
  {
  }

  lemma UniformAvailable(body: Body, phi: InstId, b: BlockId, o: InstId, q: BlockId)
    requires b in body.blocks && phi in body.blocks[b].phis && BlockOk(body, b) && phi in body.insts
    requires Uniform(body.insts[phi].kind)
    requires Mentions(body.insts[phi].kind, InstValue(o)) && Reachable(body, q) && Edge(body, q, b)
    ensures q in body.blocks && Before(body, o, q, |body.blocks[q].insts|)
  {
    hide Reachable, Dominates;
    assert PhiOk(body, phi, b);
    var kind := body.insts[phi].kind;
    var idx :| HasIncoming(kind, idx, q);
    assert kind.incomings[idx].value == InstValue(o);
  }

  lemma UniformOnPath(body: Body, phi: InstId, b: BlockId, o: InstId, path: seq<BlockId>)
    requires SSA(body) && b in body.blocks && phi in body.blocks[b].phis && BlockOk(body, b) && phi in body.insts
    requires Uniform(body.insts[phi].kind)
    requires Mentions(body.insts[phi].kind, InstValue(o)) && PathTo(body, path, b)
    ensures Attached(body, o) && body.insts[o].parent.value in path
  {
    hide WellPlaced;
    var n := |path|;
    assert b != body.entry;
    PathPrefix(body, path, n - 2);
    var q := path[n - 2];
    assert Edge(body, path[n - 2], path[n - 2 + 1]);
    assert Reachable(body, q);
    UniformAvailable(body, phi, b, o, q);
    if body.insts[o].parent.value != q {
      assert body.insts[o].parent.value in path[..n - 2 + 1];
    }
  }

  /** What an equation mentions already has its value where the equation's own instruction is:
      earlier in the same block, or in a block above. */
  lemma OperandsEarlier(body: Body, d: InstId, o: InstId, k: int)
    requires SSA(body) && IsEquation(body, d) && Reachable(body, body.insts[d].parent.value)
    requires Mentions(body.insts[d].kind, InstValue(o))
    requires body.insts[d].parent.value in body.blocks
    requires (k == -1 && body.insts[d].kind.Phi?) ||
             (0 <= k < |body.blocks[body.insts[d].parent.value].insts|
               && body.blocks[body.insts[d].parent.value].insts[k] == d)
    ensures Before(body, o, body.insts[d].parent.value, k)
  {
    hide Reachable, Dominates;
    var b := body.insts[d].parent.value;
    assert BlockOk(body, b);
    WellHeldIn(body, d);
    if body.insts[d].kind.Phi? {
      hide WellPlaced;
      UniformFromAbove(body, d, o);
    } else {
      assert ArgsAvailable(body, body.blocks[b].insts[k], b, k);
      assert Available(body, InstValue(o), b, k);
    }
  }

  /** Where an equation is in force, nothing it mentions is written by the block's next instruction. */
  lemma NotOverwritten(body: Body, b: BlockId, k: nat, d: InstId, o: InstId)
    requires SSA(body) && b in body.blocks && Reachable(body, b) && k < |body.blocks[b].insts|
    requires IsEquation(body, d) && Before(body, d, b, k) && (o == d || Mentions(body.insts[d].kind, InstValue(o)))
    ensures o != body.blocks[b].insts[k]
  {
    hide Dominates, Reachable, ArgsAvailable, PhiOk, OperandsExist;
    var i := body.blocks[b].insts[k];
    var home := body.insts[d].parent.value;
    assert Contains(body.blocks[b], i);
    WellHeldIn(body, d);
    if o == d {
    } else if home == b {
      var kd: int := -1;
      if !body.insts[d].kind.Phi? {
        kd :| 0 <= kd < k && body.blocks[b].insts[kd] == d;
      }
      OperandsEarlier(body, d, o, kd);
    } else {
      MentionedElsewhere(body, b, d, o);
    }
  }

  /** Operands of an equation from a strictly dominating block are not in this block. */
  lemma MentionedElsewhere(body: Body, b: BlockId, d: InstId, o: InstId)
    requires SSA(body) && b in body.blocks && Reachable(body, b) && IsEquation(body, d)
    requires body.insts[d].parent.value != b && Dominates(body, body.insts[d].parent.value, b)
    requires Mentions(body.insts[d].kind, InstValue(o))
    ensures Attached(body, o) && body.insts[o].parent.value != b
  {
    hide ArgsAvailable, PhiOk, OperandsExist;
    var home := body.insts[d].parent.value;
    WellHeldIn(body, d);
    DominatorReachable(body, home, b);
    var kd := PositionOf(body, d);
    OperandsEarlier(body, d, o, kd);
    var path :| PathTo(body, path, b);
    NoMutualDominance(body, home, b, path);
    hide Dominates, Reachable;
  }

  lemma DominatorReachable(body: Body, a: BlockId, b: BlockId)
    requires Dominates(body, a, b) && Reachable(body, b)
    ensures Reachable(body, a)
  {
    var path :| PathTo(body, path, b);
    var k :| 0 <= k < |path| && path[k] == a;
    PathPrefix(body, path, k);
  }

  lemma PositionOf(body: Body, d: InstId) returns (k: int)
    requires WellPlaced(body) && IsEquation(body, d)
    ensures body.insts[d].parent.value in body.blocks
    ensures (k == -1 && body.insts[d].kind.Phi?) ||
            (0 <= k < |body.blocks[body.insts[d].parent.value].insts|
              && body.blocks[body.insts[d].parent.value].insts[k] == d)
  {
    WellHeldIn(body, d);
    if body.insts[d].kind.Phi? {
      k := -1;
    } else {
      k :| 0 <= k < |body.blocks[body.insts[d].parent.value].insts|
        && body.blocks[body.insts[d].parent.value].insts[k] == d;
    }
  }

  // ---------------------------------------------------------------- executing keeps them

  lemma PerformWrites(W: World, obs: set<InstId>, i: InstId, op: Operator, args: seq<Val>, st: State)
    ensures forall o: InstId :: o != i ==> Perform(W, obs, i, op, args, st).env[o] == st.env[o]
    ensures (op.BinOp? || op.CmpOp? || op.GepOp? || op.SelectOp? || op.PtrToIntOp? || op.TruncOp? || op.ZextOp?
      || op.SextOp? || op.AllocaOp?) ==>
              Perform(W, obs, i, op, args, st).env[i] == Apply(W, op, args)
  {
    hide Apply;
  }

  lemma PureOperator(i: InstId, d: InstData)
    requires IsPure(d.kind)
    ensures var op := OperatorOf(i, d);
      op.BinOp? || op.CmpOp? || op.GepOp? || op.SelectOp? || op.PtrToIntOp? || op.TruncOp? || op.ZextOp? || op.SextOp?
        || op.AllocaOp?
  {
  }

  /** One instruction: the equations in force stay, and its own joins them. */
  lemma StepKeepsEquations(W: World, body: Body, obs: set<InstId>, b: BlockId, k: nat, st: State)
    requires SSA(body) && b in body.blocks && Reachable(body, b) && k < |body.blocks[b].insts|
    requires EquationsHold(W, body, b, k, st.env)
    ensures EquationsHold(W, body, b, k + 1, StepInst(W, body, obs, body.blocks[b].insts[k], st).env)
  {
    hide Perform, Dominates, Reachable, Holds, OperatorOf, Args, WellPlaced;
    var i := body.blocks[b].insts[k];
    assert BlockOk(body, b);
    var st' := StepInst(W, body, obs, i, st);
    PerformWrites(W, obs, i, OperatorOf(i, body.insts[i]), ArgVals(W, body, i, st.env), st);
    forall d | IsEquation(body, d) && Before(body, d, b, k + 1) ensures Holds(W, body, d, st'.env) {
      if d == i {
        NewEquation(W, body, obs, b, k, st);
      } else {
        BeforeOneLess(body, d, b, k);
        forall o | Mentions(body.insts[d].kind, InstValue(o)) ensures st'.env[o] == st.env[o] {
          NotOverwritten(body, b, k, d, o);
        }
        HoldsFrame(W, body, d, st.env, st'.env);
      }
    }
  }

  lemma BeforeOneLess(body: Body, d: InstId, b: BlockId, k: nat)
    requires b in body.blocks && k < |body.blocks[b].insts| && Before(body, d, b, k + 1) && d != body.blocks[b].insts[k]
    ensures Before(body, d, b, k)
  {
    hide Dominates;
  }

  lemma NewEquation(W: World, body: Body, obs: set<InstId>, b: BlockId, k: nat, st: State)
    requires SSA(body) && b in body.blocks && Reachable(body, b) && k < |body.blocks[b].insts|
    requires IsEquation(body, body.blocks[b].insts[k])
    ensures Holds(W, body, body.blocks[b].insts[k], StepInst(W, body, obs, body.blocks[b].insts[k], st).env)
  {
    hide Perform, Dominates, Reachable, Apply, OperandsExist, PhiOk;
    var i := body.blocks[b].insts[k];
    var st' := StepInst(W, body, obs, i, st);
    assert Contains(body.blocks[b], i);
    ListedHere(body, b, i);
    assert BlockOk(body, b);
    PureOperator(i, body.insts[i]);
    PerformWrites(W, obs, i, OperatorOf(i, body.insts[i]), ArgVals(W, body, i, st.env), st);
    forall o | InstValue(o) in Args(body.insts[i].kind) ensures st'.env[o] == st.env[o] {
      assert Available(body, InstValue(o), b, k);
    }
    ValuesFrame(W, body.consts, Args(body.insts[i].kind), st.env, st'.env);
  }

  ghost function StateAt(W: World, body: Body, obs: set<InstId>, b: BlockId, k: nat, st: State): State
    requires b in body.blocks && k <= |body.blocks[b].insts|
  {
    ExecInsts(W, body, obs, body.blocks[b].insts[..k], st)
  }

  lemma {:induction false} BlockKeepsEquations(W: World, body: Body, obs: set<InstId>, b: BlockId, k: nat, st: State)
    requires SSA(body) && b in body.blocks && Reachable(body, b) && k <= |body.blocks[b].insts|
    requires EquationsHold(W, body, b, 0, st.env)
    ensures EquationsHold(W, body, b, k, StateAt(W, body, obs, b, k, st).env)
    decreases k
  {
    hide EquationsHold, SSA, Reachable, StepInst;
    var list := body.blocks[b].insts;
    if k > 0 {
      BlockKeepsEquations(W, body, obs, b, k - 1, st);
      StepKeepsEquations(W, body, obs, b, k - 1, StateAt(W, body, obs, b, k - 1, st));
      assert list[..k][..k - 1] == list[..k - 1];
    } else {
      assert list[..0] == [];
    }
  }

  /** Taking an edge: equations from above stay in force, and phis whose entries agree join them. */
  lemma EdgeKeepsEquations(W: World, body: Body, p: BlockId, b: BlockId, env: Env)
    requires SSA(body) && b in body.blocks && Reachable(body, p) && Edge(body, p, b)
    requires EquationsHold(W, body, p, |body.blocks[p].insts|, env)
    ensures EquationsHold(W, body, b, 0, PhiEnv(W, body, body.blocks[b].phis, p, env))
  {
    hide PhiValue, Dominates, Reachable, Holds, BlockOk, OperandsExist;
    var env' := PhiEnv(W, body, body.blocks[b].phis, p, env);
    ReachStep(body, p, b);
    forall d | IsEquation(body, d) && Before(body, d, b, 0) ensures Holds(W, body, d, env') {
      WellHeldIn(body, d);
      if body.insts[d].parent.value == b {
        NewPhiEquation(W, body, p, b, d, env);
      } else {
        FromAbove(body, p, b, d);
        assert Holds(W, body, d, env);
        forall o | Mentions(body.insts[d].kind, InstValue(o)) ensures env'[o] == env[o] {
          MentionedElsewhere(body, b, d, o);
          NotPhiHere(body, b, o);
        }
        NotPhiHere(body, b, d);
        HoldsFrame(W, body, d, env, env');
      }
    }
  }

  lemma NotPhiHere(body: Body, b: BlockId, o: InstId)
    requires WellPlaced(body) && b in body.blocks && Attached(body, o) && body.insts[o].parent.value != b
    ensures o !in body.blocks[b].phis
  {
    hide OperandsExist;
    assert !Contains(body.blocks[b], o);
  }

  /** What dominates a block from outside has its value at the end of each predecessor. */
  lemma FromAbove(body: Body, p: BlockId, b: BlockId, d: InstId)
    requires WellPlaced(body) && Edge(body, p, b) && Attached(body, d) && !IsTerminator(body.insts[d].kind)
    requires body.insts[d].parent.value != b && Dominates(body, body.insts[d].parent.value, b)
    ensures p in body.blocks && Before(body, d, p, |body.blocks[p].insts|)
  {
    DominatesPredecessor(body, body.insts[d].parent.value, p, b);
    hide Dominates, OperandsExist;
    WellHeldIn(body, d);
    if body.insts[d].parent.value == p && !body.insts[d].kind.Phi? {
      var j :| 0 <= j < |body.blocks[p].insts| && body.blocks[p].insts[j] == d;
    }
  }

  lemma NewPhiEquation(W: World, body: Body, p: BlockId, b: BlockId, d: InstId, env: Env)
    requires SSA(body) && b in body.blocks && Reachable(body, b) && Reachable(body, p) && Edge(body, p, b)
    requires IsEquation(body, d) && body.insts[d].parent == Some(b) && Before(body, d, b, 0)
    ensures Holds(W, body, d, PhiEnv(W, body, body.blocks[b].phis, p, env))
  {
    hide Dominates, Reachable, OperandsExist, Edge;
    var env' := PhiEnv(W, body, body.blocks[b].phis, p, env);
    var kind := body.insts[d].kind;
    WellHeldIn(body, d);
    assert d in body.blocks[b].phis;
    assert BlockOk(body, b);
    assert PhiOk(body, d, b);
    var idx :| HasIncoming(kind, idx, p);
    assert env'[d] == Value(W, body.consts, kind.incomings[idx].value, env);
    forall j | j in kind.incomings ensures env'[d] == Value(W, body.consts, kind.incomings[j].value, env') {
      assert kind.incomings[j].value == kind.incomings[idx].value;
      if kind.incomings[j].value.InstValue? {
        assert Mentions(kind, kind.incomings[j].value);
        UniformFromAbove(body, d, kind.incomings[j].value.inst);
        NotPhiHere(body, b, kind.incomings[j].value.inst);
      }
    }
  }

  // ---------------------------------------------------------------- over whole runs

  /** Where a run is consistent with having come along a path: every equation available at the
      end of the block it came from holds. */
  ghost predicate OnCourse(W: World, body: Body, place: Place, env: Env) {
    place.At? ==>
      && place.b in body.blocks
      && (place.from.None? ==> place.b == body.entry)
      && (place.from.Some? ==>
            && Reachable(body, place.from.value) && Edge(body, place.from.value, place.b)
            && EquationsHold(W, body, place.from.value, |body.blocks[place.from.value].insts|, env))
  }

  lemma NothingAboveEntry(W: World, body: Body, env: Env)
    requires SSA(body)
    ensures EquationsHold(W, body, body.entry, 0, env)
  {
    hide Holds, OperandsExist;
    forall d ensures !Before(body, d, body.entry, 0) {
      NotBeforeEntry(body, d);
    }
  }

  lemma NotBeforeEntry(body: Body, d: InstId)
    requires WellPlaced(body) && body.blocks[body.entry].phis == []
    ensures !Before(body, d, body.entry, 0)
  {
    hide OperandsExist;
    assert PathTo(body, [body.entry], body.entry);
    assert Attached(body, d) && Dominates(body, body.insts[d].parent.value, body.entry) ==>
      body.insts[d].parent.value in [body.entry];
  }

  lemma EntersWithEquations(W: World, body: Body, obs: set<InstId>, place: Place, st: State)
    requires SSA(body) && place.At? && OnCourse(W, body, place, st.env)
    ensures Reachable(body, place.b)
    ensures EquationsHold(W, body, place.b, 0, EnterBlock(W, body, obs, body.blocks[place.b].phis, place.from, st).env)
  {
    hide SSA, EquationsHold, Reachable, Edge, PhiEnv, PhiTrace;
    if place.from.None? {
      EntryReachable(body);
      NothingAboveEntry(W, body, st.env);
    } else {
      ReachStep(body, place.from.value, place.b);
      EdgeKeepsEquations(W, body, place.from.value, place.b, st.env);
    }
  }

  lemma LeaveTakesEdge(W: World, body: Body, obs: set<InstId>, b: BlockId, st: State)
    requires WellPlaced(body) && b in body.blocks
    ensures var (exit, st') := Leave(W, body, obs, body.blocks[b].terminator, st);
      st'.env == st.env && (exit.To? ==> Edge(body, b, exit.b) && exit.b in body.blocks)
  {
    var t := body.blocks[b].terminator;
    if t.Some? && t.value in body.insts {
      assert Contains(body.blocks[b], t.value);
      assert WellHeld(body, t.value);
      var kind := body.insts[t.value].kind;
      if kind.Branch? {
        assert BlockOperands(kind)[BranchThen] == kind.thenBlock;
        assert kind.cond.Some? ==> BlockOperands(kind)[BranchElse] == kind.cond.value.elseBlock;
      }
    }
  }

  lemma StepStaysOnCourse(W: World, body: Body, obs: set<InstId>, place: Place, st: State)
    requires SSA(body) && OnCourse(W, body, place, st.env)
    ensures var (place', st') := StepBlock(W, body, obs, place, st); OnCourse(W, body, place', st'.env)
  {
    hide EquationsHold, Reachable, Edge, Leave, EnterBlock, StepInst, WellPlaced, BlockOk;
    if place.At? {
      var blk := body.blocks[place.b];
      var st1 := EnterBlock(W, body, obs, blk.phis, place.from, st);
      EntersWithEquations(W, body, obs, place, st);
      BlockKeepsEquations(W, body, obs, place.b, |blk.insts|, st1);
      assert blk.insts[..|blk.insts|] == blk.insts;
      LeaveTakesEdge(W, body, obs, place.b, ExecInsts(W, body, obs, blk.insts, st1));
    }
  }

  /** In every run of an SSA body, at the end of every block, each pure instruction that dominates
      the point still equals its operator applied to its operands' current values. */
  lemma {:induction false} SsaEquationsHold(W: World, body: Body, obs: set<InstId>, mem: Memory, n: nat)
    requires SSA(body)
    ensures var (place, st) := Execute(W, body, obs, mem, n); OnCourse(W, body, place, st.env)
  {
    if n > 0 {
      SsaEquationsHold(W, body, obs, mem, n - 1);
      var (place, st) := Execute(W, body, obs, mem, n - 1);
      StepStaysOnCourse(W, body, obs, place, st);
      hide OnCourse, StepBlock;
    }
  }

  /** The values after n blocks and k instructions of the next one (all of its instructions: its
      terminator is next). */
  ghost function Inside(W: World, body: Body, obs: set<InstId>, mem: Memory, n: nat, k: nat): Env {
    var (place, st) := Execute(W, body, obs, mem, n);
    InsideBlock(W, body, obs, place, st, k)
  }

  ghost function InsideBlock(W: World, body: Body, obs: set<InstId>, place: Place, st: State, k: nat): Env {
    if place.At? && place.b in body.blocks && k <= |body.blocks[place.b].insts| then
      StateAt(W, body, obs, place.b, k, EnterBlock(W, body, obs, body.blocks[place.b].phis, place.from, st)).env
    else st.env
  }

  /** In every run of an SSA body, before every instruction of every block the run enters and at the
      block's end, each instruction that states an equation and has its value there still equals its
      operator applied to its operands' current values. */
  lemma EquationsInside(W: World, body: Body, obs: set<InstId>, mem: Memory, n: nat, k: nat)
    requires SSA(body)
    ensures var place := Execute(W, body, obs, mem, n).0; place.At? ==>
      place.b in body.blocks && Reachable(body, place.b)
    ensures var place := Execute(W, body, obs, mem, n).0; place.At? && k <= |body.blocks[place.b].insts| ==>
      EquationsHold(W, body, place.b, k, Inside(W, body, obs, mem, n, k))
  {
    hide SSA, Reachable, EquationsHold, EnterBlock, StateAt, Execute;
    SsaEquationsHold(W, body, obs, mem, n);
    var (place, st) := Execute(W, body, obs, mem, n);
    if place.At? {
      EntersWithEquations(W, body, obs, place, st);
      if k <= |body.blocks[place.b].insts| {
        BlockKeepsEquations(W, body, obs, place.b, k,
          EnterBlock(W, body, obs, body.blocks[place.b].phis, place.from, st));
      }
    }
  }

  // ---------------------------------------------------------------- operands are available wherever their users are

  lemma InstNotPhi(body: Body, b: BlockId, k: nat)
    requires WellPlaced(body) && b in body.blocks && k < |body.blocks[b].insts|
    ensures body.blocks[b].insts[k] !in body.blocks[b].phis
  {
    hide OperandsExist;
    var i := body.blocks[b].insts[k];
    assert Contains(body.blocks[b], i);
    ListedHere(body, b, i);
    assert i in body.blocks[b].insts;
  }

  lemma MentionedBefore(body: Body, d: InstId, o: InstId, b: BlockId, k: nat)
    requires SSA(body) && IsEquation(body, d) && Before(body, d, b, k) && Reachable(body, b)
    requires Mentions(body.insts[d].kind, InstValue(o))
    ensures Before(body, o, b, k)
  {
    var home := body.insts[d].parent.value;
    var kd := PositionOf(body, d);
    if home != b {
      DominatorReachable(body, home, b);
    }
    OperandsEarlier(body, d, o, kd);
    hide BlockOk, OperandsExist;
    if home == b {
      if kd >= 0 {
        InstNotPhi(body, b, kd);
        var j :| 0 <= j < k && j < |body.blocks[b].insts| && body.blocks[b].insts[j] == d;
        assert j == kd;
      }
    } else {
      AboveStays(body, o, home, kd, b, k);
    }
  }

  lemma AboveStays(body: Body, o: InstId, home: BlockId, kd: int, b: BlockId, k: nat)
    requires Before(body, o, home, kd) && home != b && Dominates(body, home, b) && Reachable(body, b)
    requires b in body.blocks
    ensures Before(body, o, b, k)
  {
    var ho := body.insts[o].parent.value;
    if ho != home {
      DominatesTransitive(body, ho, home, b);
      if ho == b {
        var path :| PathTo(body, path, b);
        NoMutualDominance(body, home, b, path);
      }
    }
  }

  /** With one entry per predecessor, a phi's value on an edge is that entry's. */
  lemma PhiValueIs(W: World, body: Body, phi: InstId, p: BlockId, idx: nat, env: Env)
    requires phi in body.insts && HasIncoming(body.insts[phi].kind, idx, p)
    requires forall j :: HasIncoming(body.insts[phi].kind, j, p) ==> j == idx
    ensures PhiValue(W, body, phi, p, env) == Value(W, body.consts, body.insts[phi].kind.incomings[idx].value, env)
  {
    var incomings := body.insts[phi].kind.incomings;
    assert forall k :: k in incomings && incomings[k].block == p ==> HasIncoming(body.insts[phi].kind, k, p);
  }

  /** No instruction is its own operand. */
  lemma SelfMention(body: Body, b: BlockId, k: nat, w: InstId)
    requires SSA(body) && b in body.blocks && Reachable(body, b) && k < |body.blocks[b].insts|
    requires body.blocks[b].insts[k] == w
    ensures w in body.insts && !Mentions(body.insts[w].kind, InstValue(w))
  {
    hide Dominates, Reachable, PhiOk, OperandsExist;
    assert BlockOk(body, b) && Contains(body.blocks[b], w);
    ListedHere(body, b, w);
    assert InstValue(w) in Args(body.insts[w].kind) ==> Available(body, InstValue(w), b, k);
  }

  lemma SsaPlaced(body: Body)
    requires SSA(body)
    ensures WellPlaced(body)
  {
  }
}
