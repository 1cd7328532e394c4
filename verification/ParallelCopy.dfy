/** Sequentialising a parallel copy by depth-first search (src/mir/lower.rs:170-257). */
module ParallelCopy {
  import opened Sequences
  import opened Machine

  datatype CopyMove = CopyMove(dst: Register, src: Register)

  type Edges = map<Register, seq<Register>>

  predicate Edge(edges: Edges, s: Register, d: Register) {
    s in edges && d in edges[s]
  }

  /** No register is the destination of two moves, and no move is trivial. */
  ghost predicate Functional(edges: Edges) {
    && (forall s, i, t, j ::
          (s in edges && 0 <= i < |edges[s]| && t in edges && 0 <= j < |edges[t]| && edges[s][i] == edges[t][j])
          ==> s == t && i == j)
    && (forall s :: s in edges ==> s !in edges[s])
  }

  /** Edges name allocated registers and never write the zero register. */
  ghost predicate UsableEdges(edges: Edges, base: nat) {
    forall s, d :: Edge(edges, s, d) ==> Allocated(s, base) && Allocated(d, base) && d != ZERO
  }

  /** A cycle of moves: c[0] -> c[1] -> ... -> c[n-1] -> c[0]. */
  ghost predicate IsCycle(edges: Edges, c: seq<Register>) {
    && |c| > 0
    && (forall i :: 0 <= i < |c| - 1 ==> Edge(edges, c[i], c[i + 1]))
    && Edge(edges, c[|c| - 1], c[0])
  }

  lemma SameSource(edges: Edges, s: Register, t: Register, d: Register)
    requires Functional(edges) && Edge(edges, s, d) && Edge(edges, t, d)
    ensures s == t
  {
    var i :| 0 <= i < |edges[s]| && edges[s][i] == d;
    var j :| 0 <= j < |edges[t]| && edges[t][j] == d;
  }

  // ---------------------------------------------------------------- what a good schedule is

  /** The emitted moves: temporaries saved first, direct moves in the middle, temporaries
      restored last. Temporary k is the virtual register base + k. */
  datatype Schedule = Schedule(first: seq<CopyMove>, middle: seq<CopyMove>, last: seq<CopyMove>)

  ghost predicate Writes(ms: seq<CopyMove>, d: Register) {
    exists i :: 0 <= i < |ms| && ms[i].dst == d
  }

  ghost predicate Emitted(sch: Schedule, d: Register) {
    Writes(sch.middle, d) || Writes(sch.last, d)
  }

  ghost predicate WritesOnce(ms: seq<CopyMove>) {
    forall i, j :: 0 <= i < j < |ms| ==> ms[i].dst != ms[j].dst
  }

  /** No move reads a register that an earlier one has written. */
  ghost predicate ReadsBeforeWrites(ms: seq<CopyMove>) {
    forall i, j :: 0 <= i < j < |ms| ==> ms[j].src != ms[i].dst
  }

  ghost predicate ThroughTemporaries(edges: Edges, base: nat, first: seq<CopyMove>, last: seq<CopyMove>) {
    && |first| == |last|
    && (forall i :: 0 <= i < |last| ==> first[i].dst == last[i].src == Virtual(base + i))
    && (forall i :: 0 <= i < |last| ==> Edge(edges, first[i].src, last[i].dst))
  }

  ghost predicate AlongEdges(edges: Edges, ms: seq<CopyMove>) {
    forall i :: 0 <= i < |ms| ==> Edge(edges, ms[i].src, ms[i].dst)
  }

  ghost predicate WellOrdered(edges: Edges, base: nat, sch: Schedule) {
    && ThroughTemporaries(edges, base, sch.first, sch.last)
    && AlongEdges(edges, sch.middle)
    && WritesOnce(sch.middle) && WritesOnce(sch.last)
    && (forall d :: Writes(sch.middle, d) ==> !Writes(sch.last, d))
    && ReadsBeforeWrites(sch.middle)
  }

  // ---------------------------------------------------------------- running moves

  ghost function RunMoves(ms: seq<CopyMove>, regs: Regs): Regs {
    if ms == [] then regs
    else
      var before := RunMoves(ms[..|ms| - 1], regs);
      var m := ms[|ms| - 1];
      if m.dst == ZERO then before else before[m.dst := Read(before, m.src)]
  }

  function MoveInsts(ms: seq<CopyMove>): (insts: seq<Inst>)
    ensures |insts| == |ms|
    ensures forall i :: 0 <= i < |ms| ==> insts[i] == Mv(ms[i].dst, ms[i].src)
  {
    if ms == [] then []
    else
      var m := ms[|ms| - 1];
      MoveInsts(ms[..|ms| - 1]) + [Mv(m.dst, m.src)]
  }

  lemma {:induction false} ExecMoves(arch: Arch, X: Externals, ms: seq<CopyMove>, st: State)
    requires InRange(arch, st.regs)
    ensures Exec(arch, X, MoveInsts(ms), st) == State(RunMoves(ms, st.regs), st.mem)
  {
    if ms == [] {
    } else {
      hide Step, InRange;
      var n := |ms| - 1;
      var insts := MoveInsts(ms);
      ExecMoves(arch, X, ms[..n], st);
      ExecInRange(arch, X, MoveInsts(ms[..n]), st);
      assert insts[n] == Mv(ms[n].dst, ms[n].src);
      assert insts[..n] == MoveInsts(ms[..n]);
      StepMove(arch, X, ms[n], Exec(arch, X, insts[..n], st));
    }
  }

  lemma StepMove(arch: Arch, X: Externals, m: CopyMove, st: State)
    requires InRange(arch, st.regs)
    ensures Step(arch, X, Mv(m.dst, m.src), st)
            == State(if m.dst == ZERO then st.regs else st.regs[m.dst := Read(st.regs, m.src)], st.mem)
  {
    Bits.LowSmall(Xlen(arch), Read(st.regs, m.src));
  }

  /** Moves that read nothing written before them perform a simultaneous assignment. */
  lemma {:induction false} RunOrdered(ms: seq<CopyMove>, regs: Regs)
    requires WritesOnce(ms) && ReadsBeforeWrites(ms)
    requires forall i :: 0 <= i < |ms| ==> ms[i].dst != ZERO
    ensures Assigned(ms, regs, RunMoves(ms, regs))
  {
    if ms != [] {
      hide Assigned, RunMoves;
      var n := |ms| - 1;
      RunOrdered(ms[..n], regs);
      RunLast(ms, regs);
      AssignedMore(ms, regs, RunMoves(ms[..n], regs));
    }
  }

  lemma RunLast(ms: seq<CopyMove>, regs: Regs)
    requires ms != [] && ms[|ms| - 1].dst != ZERO
    ensures var before := RunMoves(ms[..|ms| - 1], regs);
      RunMoves(ms, regs) == before[ms[|ms| - 1].dst := Read(before, ms[|ms| - 1].src)]
  {
  }

  lemma InitWritesLess(ms: seq<CopyMove>, r: Register)
    requires ms != [] && !Writes(ms, r)
    ensures !Writes(ms[..|ms| - 1], r) && ms[|ms| - 1].dst != r
  {
    var init := ms[..|ms| - 1];
    assert forall i :: 0 <= i < |init| ==> init[i] == ms[i];
  }

  lemma MoreAt(ms: seq<CopyMove>, regs: Regs, before: Regs, i: nat)
    requires WritesOnce(ms) && ReadsBeforeWrites(ms) && i < |ms| && Assigned(ms[..|ms| - 1], regs, before)
    ensures before[ms[|ms| - 1].dst := Read(before, ms[|ms| - 1].src)][ms[i].dst] == Read(regs, ms[i].src)
  {
    var n := |ms| - 1;
    hide ReadsBeforeWrites, WritesOnce, Assigned, Writes;
    if i < n {
      assert ms[..n][i] == ms[i];
      AssignedAt(ms[..n], regs, before, i);
      OtherDestination(ms, i);
    } else {
      LastReadsOld(ms);
      AssignedElsewhere(ms[..n], regs, before, ms[n].src);
    }
  }

  lemma AssignedMore(ms: seq<CopyMove>, regs: Regs, before: Regs)
    requires ms != [] && WritesOnce(ms) && ReadsBeforeWrites(ms) && Assigned(ms[..|ms| - 1], regs, before)
    ensures Assigned(ms, regs, before[ms[|ms| - 1].dst := Read(before, ms[|ms| - 1].src)])
  {
    var n := |ms| - 1;
    var after := before[ms[n].dst := Read(before, ms[n].src)];
    hide ReadsBeforeWrites, WritesOnce, Assigned, Writes;
    forall i: nat | i < |ms| ensures after[ms[i].dst] == Read(regs, ms[i].src) {
      MoreAt(ms, regs, before, i);
    }
    forall r: Register | !Writes(ms, r) ensures after[r] == regs[r] {
      InitWritesLess(ms, r);
      AssignedElsewhere(ms[..n], regs, before, r);
    }
    AssignedIs(ms, regs, after);
  }

  lemma LastReadsOld(ms: seq<CopyMove>)
    requires ms != [] && ReadsBeforeWrites(ms)
    ensures !Writes(ms[..|ms| - 1], ms[|ms| - 1].src)
  {
  }

  lemma OtherDestination(ms: seq<CopyMove>, i: nat)
    requires WritesOnce(ms) && i < |ms| - 1
    ensures ms[i].dst != ms[|ms| - 1].dst
  {
  }

  lemma AssignedIs(ms: seq<CopyMove>, before: Regs, after: Regs)
    requires forall i: nat :: i < |ms| ==> after[ms[i].dst] == Read(before, ms[i].src)
    requires forall r: Register :: !Writes(ms, r) ==> after[r] == before[r]
    ensures Assigned(ms, before, after)
  {
    hide Writes;
  }

  lemma {:induction false} RunMovesAppend(a: seq<CopyMove>, b: seq<CopyMove>, regs: Regs)
    ensures RunMoves(a + b, regs) == RunMoves(b, RunMoves(a, regs))
  {
    if b == [] {
      assert a + b == a;
    } else {
      assert (a + b)[..|a + b| - 1] == a + b[..|b| - 1];
      RunMovesAppend(a, b[..|b| - 1], regs);
    }
  }

  function Flatten(sch: Schedule): seq<CopyMove> {
    sch.first + sch.middle + sch.last
  }

  /** The three groups, each a simultaneous assignment on its own. */
  lemma GroupsOrdered(edges: Edges, base: nat, sch: Schedule)
    requires UsableEdges(edges, base) && WellOrdered(edges, base, sch)
    ensures WritesOnce(sch.first) && ReadsBeforeWrites(sch.first)
    ensures ReadsBeforeWrites(sch.last)
    ensures forall i :: 0 <= i < |sch.first| ==> sch.first[i].dst != ZERO
    ensures forall i :: 0 <= i < |sch.middle| ==> sch.middle[i].dst != ZERO
    ensures forall i :: 0 <= i < |sch.last| ==> sch.last[i].dst != ZERO
    ensures forall d :: Writes(sch.middle, d) || Writes(sch.last, d) ==> Allocated(d, base)
    ensures forall i :: 0 <= i < |sch.first| ==> Allocated(sch.first[i].src, base)
  {
    forall i | 0 <= i < |sch.last|
      ensures sch.last[i].dst != ZERO && Allocated(sch.first[i].src, base) && Allocated(sch.last[i].dst, base)
    {
      assert Edge(edges, sch.first[i].src, sch.last[i].dst);
    }
    forall i | 0 <= i < |sch.middle| ensures sch.middle[i].dst != ZERO && Allocated(sch.middle[i].dst, base) {
      assert Edge(edges, sch.middle[i].src, sch.middle[i].dst);
    }
  }

  /** What a group of moves that read before they write does to the registers. */
  ghost predicate Assigned(ms: seq<CopyMove>, before: Regs, after: Regs) {
    && (forall i :: 0 <= i < |ms| ==> after[ms[i].dst] == Read(before, ms[i].src))
    && (forall r: Register :: !Writes(ms, r) ==> after[r] == before[r])
  }

  lemma GroupsCompose(edges: Edges, base: nat, sch: Schedule, regs: Regs, regs1: Regs, regs2: Regs, regs3: Regs)
    requires UsableEdges(edges, base) && WellOrdered(edges, base, sch)
    requires Assigned(sch.first, regs, regs1) && Assigned(sch.middle, regs1, regs2) && Assigned(sch.last, regs2, regs3)
    ensures forall i :: 0 <= i < |sch.last| ==> regs3[sch.last[i].dst] == Read(regs, sch.first[i].src)
    ensures forall i :: 0 <= i < |sch.middle| ==> regs3[sch.middle[i].dst] == Read(regs, sch.middle[i].src)
    ensures forall r: Register :: Allocated(r, base) && !Emitted(sch, r) ==> regs3[r] == regs[r]
  {
    hide WellOrdered, Assigned, UsableEdges;
    FirstKeeps(edges, base, sch, regs, regs1);
    forall i | 0 <= i < |sch.last| ensures regs3[sch.last[i].dst] == Read(regs, sch.first[i].src) {
      LastReadsTemporary(edges, base, sch, regs, regs1, regs2, regs3, i);
    }
    forall i | 0 <= i < |sch.middle| ensures regs3[sch.middle[i].dst] == Read(regs, sch.middle[i].src) {
      MiddleReadsSource(edges, base, sch, regs, regs1, regs2, regs3, i);
    }
    forall r: Register | Allocated(r, base) && !Emitted(sch, r) ensures regs3[r] == regs[r] {
      AssignedElsewhere(sch.middle, regs1, regs2, r);
      AssignedElsewhere(sch.last, regs2, regs3, r);
    }
  }

  lemma AssignedElsewhere(ms: seq<CopyMove>, before: Regs, after: Regs, r: Register)
    requires Assigned(ms, before, after) && !Writes(ms, r)
    ensures after[r] == before[r]
  {
  }

  lemma AssignedAt(ms: seq<CopyMove>, before: Regs, after: Regs, i: nat)
    requires Assigned(ms, before, after) && i < |ms|
    ensures after[ms[i].dst] == Read(before, ms[i].src)
  {
  }

  /** The first group writes temporaries only. */
  lemma FirstKeeps(edges: Edges, base: nat, sch: Schedule, regs: Regs, regs1: Regs)
    requires UsableEdges(edges, base) && WellOrdered(edges, base, sch) && Assigned(sch.first, regs, regs1)
    ensures |sch.first| == |sch.last| && forall r: Register :: Allocated(r, base) ==> regs1[r] == regs[r]
  {
    hide UsableEdges, Assigned;
    forall r: Register | Allocated(r, base) ensures regs1[r] == regs[r] {
      assert !Writes(sch.first, r);
      AssignedElsewhere(sch.first, regs, regs1, r);
    }
  }

  lemma LastReadsTemporary(edges: Edges, base: nat, sch: Schedule, regs: Regs, regs1: Regs, regs2: Regs, regs3: Regs,
                           i: nat)
    requires UsableEdges(edges, base) && WellOrdered(edges, base, sch) && i < |sch.last| && i < |sch.first|
    requires Assigned(sch.first, regs, regs1) && Assigned(sch.middle, regs1, regs2) && Assigned(sch.last, regs2, regs3)
    ensures regs3[sch.last[i].dst] == Read(regs, sch.first[i].src)
  {
    GroupsOrdered(edges, base, sch);
    hide UsableEdges, Assigned;
    var t := sch.last[i].src;
    assert t == sch.first[i].dst && !Allocated(t, base) && t != ZERO;
    assert !Writes(sch.middle, t);
    AssignedAt(sch.first, regs, regs1, i);
    AssignedElsewhere(sch.middle, regs1, regs2, t);
    AssignedAt(sch.last, regs2, regs3, i);
  }

  lemma MiddleReadsSource(edges: Edges, base: nat, sch: Schedule, regs: Regs, regs1: Regs, regs2: Regs, regs3: Regs,
                          i: nat)
    requires UsableEdges(edges, base) && WellOrdered(edges, base, sch) && i < |sch.middle|
    requires Assigned(sch.first, regs, regs1) && Assigned(sch.middle, regs1, regs2) && Assigned(sch.last, regs2, regs3)
    ensures regs3[sch.middle[i].dst] == Read(regs, sch.middle[i].src)
  {
    FirstKeeps(edges, base, sch, regs, regs1);
    hide Assigned;
    var m := sch.middle[i];
    assert Writes(sch.middle, m.dst) && !Writes(sch.last, m.dst);
    assert Edge(edges, m.src, m.dst);
    AssignedAt(sch.middle, regs1, regs2, i);
    AssignedElsewhere(sch.last, regs2, regs3, m.dst);
  }

  lemma MiddleOrdered(edges: Edges, base: nat, sch: Schedule)
    requires WellOrdered(edges, base, sch)
    ensures WritesOnce(sch.middle) && ReadsBeforeWrites(sch.middle) && WritesOnce(sch.last)
    ensures |sch.first| == |sch.last|
  {
    hide WritesOnce, ReadsBeforeWrites;
  }

  lemma RunGroups(edges: Edges, base: nat, sch: Schedule, regs: Regs)
    requires UsableEdges(edges, base) && WellOrdered(edges, base, sch)
    ensures forall i :: 0 <= i < |sch.last| ==>
      RunMoves(Flatten(sch), regs)[sch.last[i].dst] == Read(regs, sch.first[i].src)
    ensures forall i :: 0 <= i < |sch.middle| ==>
      RunMoves(Flatten(sch), regs)[sch.middle[i].dst] == Read(regs, sch.middle[i].src)
    ensures forall r: Register :: Allocated(r, base) && !Emitted(sch, r) ==> RunMoves(Flatten(sch), regs)[r] == regs[r]
  {
    hide RunMoves, Assigned, UsableEdges, WellOrdered;
    var regs1 := RunMoves(sch.first, regs);
    var regs2 := RunMoves(sch.middle, regs1);
    RunMovesAppend(sch.first + sch.middle, sch.last, regs);
    RunMovesAppend(sch.first, sch.middle, regs);
    GroupsOrdered(edges, base, sch);
    MiddleOrdered(edges, base, sch);
    RunOrdered(sch.first, regs);
    RunOrdered(sch.middle, regs1);
    RunOrdered(sch.last, regs2);
    GroupsCompose(edges, base, sch, regs, regs1, regs2, RunMoves(sch.last, regs2));
  }

  /** A well-ordered schedule that emits every destination performs all its moves at once. */
  lemma ScheduleIsSimultaneous(edges: Edges, base: nat, sch: Schedule, regs: Regs)
    requires Functional(edges) && UsableEdges(edges, base) && WellOrdered(edges, base, sch)
    requires forall s, d :: Edge(edges, s, d) ==> Emitted(sch, d)
    ensures forall s, d :: Edge(edges, s, d) ==> RunMoves(Flatten(sch), regs)[d] == Read(regs, s)
    ensures forall r: Register :: Allocated(r, base) && (forall s :: !Edge(edges, s, r)) ==>
      RunMoves(Flatten(sch), regs)[r] == regs[r]
  {
    RunGroups(edges, base, sch, regs);
    hide RunMoves;
    forall s, d | Edge(edges, s, d) ensures RunMoves(Flatten(sch), regs)[d] == Read(regs, s) {
      assert Emitted(sch, d);
      if i :| 0 <= i < |sch.last| && sch.last[i].dst == d {
        SameSource(edges, s, sch.first[i].src, d);
      } else {
        var i :| 0 <= i < |sch.middle| && sch.middle[i].dst == d;
        SameSource(edges, s, sch.middle[i].src, d);
      }
    }
    forall r: Register | Allocated(r, base) && (forall s :: !Edge(edges, s, r)) ensures !Emitted(sch, r) {
      assert !Writes(sch.middle, r);
      assert !Writes(sch.last, r);
    }
  }

  // ---------------------------------------------------------------- cycles and temporaries

  /** Walking backwards along moves never leaves a cycle. */
  lemma {:induction false} CycleClosedBackwards(edges: Edges, c: seq<Register>, c': seq<Register>, i: nat)
    requires Functional(edges) && IsCycle(edges, c) && IsCycle(edges, c')
    requires i < |c| && c[i] in c'
    ensures forall j :: 0 <= j <= i ==> c[j] in c'
    decreases i
  {
    if i > 0 {
      PredecessorInCycle(edges, c', c[i - 1], c[i]);
      CycleClosedBackwards(edges, c, c', i - 1);
    }
  }

  lemma PredecessorInCycle(edges: Edges, c: seq<Register>, s: Register, d: Register)
    requires Functional(edges) && IsCycle(edges, c) && Edge(edges, s, d) && d in c
    ensures s in c
  {
    var k :| 0 <= k < |c| && c[k] == d;
    if k == 0 {
      SameSource(edges, s, c[|c| - 1], d);
    } else {
      SameSource(edges, s, c[k - 1], d);
    }
  }

  /** Two cycles that share a register consist of the same registers. */
  lemma CyclesCoincide(edges: Edges, c: seq<Register>, c': seq<Register>, r: Register)
    requires Functional(edges) && IsCycle(edges, c) && IsCycle(edges, c')
    requires r in c && r in c'
    ensures forall x :: x in c ==> x in c'
  {
    var i :| 0 <= i < |c| && c[i] == r;
    CycleClosedBackwards(edges, c, c', i);
    PredecessorInCycle(edges, c', c[|c| - 1], c[0]);
    CycleClosedBackwards(edges, c, c', |c| - 1);
  }

  function Next(c: seq<Register>, i: nat): Register
    requires i < |c|
  {
    c[if i == |c| - 1 then 0 else i + 1]
  }

  /** `at[i]` is where the schedule performs the i-th move of cycle c directly. */
  ghost predicate DirectAt(sch: Schedule, c: seq<Register>, at: seq<nat>) {
    |at| <= |c| && forall i :: 0 <= i < |at| ==>
      at[i] < |sch.middle| && sch.middle[at[i]].src == c[i] && sch.middle[at[i]].dst == Next(c, i)
  }

  lemma {:induction false} DirectMovesDescend(edges: Edges, sch: Schedule, c: seq<Register>, at: seq<nat>, k: nat)
    requires Functional(edges) && AlongEdges(edges, sch.middle) && ReadsBeforeWrites(sch.middle)
    requires DirectAt(sch, c, at) && k < |at|
    ensures at[k] + k <= at[0]
  {
    if k > 0 {
      DirectMovesDescend(edges, sch, c, at, k - 1);
      assert sch.middle[at[k - 1]].dst == sch.middle[at[k]].src;
      assert Edge(edges, sch.middle[at[k]].src, sch.middle[at[k]].dst);
    }
  }

  lemma DirectPosition(edges: Edges, base: nat, sch: Schedule, c: seq<Register>, i: nat) returns (p: nat)
    requires Functional(edges) && WellOrdered(edges, base, sch) && IsCycle(edges, c) && i < |c|
    requires Emitted(sch, Next(c, i)) && !Writes(sch.last, Next(c, i))
    ensures p < |sch.middle| && sch.middle[p].src == c[i] && sch.middle[p].dst == Next(c, i)
  {
    p :| 0 <= p < |sch.middle| && sch.middle[p].dst == Next(c, i);
    assert Edge(edges, c[i], Next(c, i));
    SameSource(edges, sch.middle[p].src, c[i], Next(c, i));
  }

  lemma DirectCycleIncomplete(edges: Edges, base: nat, sch: Schedule, c: seq<Register>, at: seq<nat>)
    requires Functional(edges) && WellOrdered(edges, base, sch) && IsCycle(edges, c)
    requires DirectAt(sch, c, at)
    ensures |at| < |c|
  {
    if |at| == |c| {
      var n := |c| - 1;
      var last, start := sch.middle[at[n]], sch.middle[at[0]];
      assert last.dst == start.src && Edge(edges, start.src, start.dst) && Edge(edges, last.src, last.dst);
      DirectMovesDescend(edges, sch, c, at, n);
    }
  }

  /** Direct moves cannot complete a cycle: some move of it goes through a temporary. */
  lemma CycleNeedsTemporary(edges: Edges, base: nat, sch: Schedule, c: seq<Register>)
    requires Functional(edges) && WellOrdered(edges, base, sch) && IsCycle(edges, c)
    requires forall s, d :: Edge(edges, s, d) ==> Emitted(sch, d)
    ensures exists i :: 0 <= i < |sch.last| && sch.last[i].dst in c
  {
    hide WellOrdered, Functional, Emitted;
    if forall i :: 0 <= i < |sch.last| ==> sch.last[i].dst !in c {
      var at: seq<nat> := [];
      while |at| < |c|
        invariant |at| <= |c| && DirectAt(sch, c, at)
      {
        var i := |at|;
        assert Edge(edges, c[i], Next(c, i));
        assert Next(c, i) in c;
        var p := DirectPosition(edges, base, sch, c, i);
        at := at + [p];
      }
      DirectCycleIncomplete(edges, base, sch, c, at);
    }
  }

  /** The temporaries are the cycles: temporary k belongs to cycle k, distinct temporaries to
      disjoint cycles, and every cycle of moves is one of them. */
  ghost predicate OneTemporaryPerCycle(edges: Edges, temps: nat, cycles: seq<seq<Register>>) {
    && |cycles| == temps
    && (forall k :: 0 <= k < temps ==> IsCycle(edges, cycles[k]) && Distinct(cycles[k]))
    && (forall k, l, r :: 0 <= k < l < temps && r in cycles[k] ==> r !in cycles[l])
    && (forall c :: IsCycle(edges, c) ==>
          exists k :: 0 <= k < temps && SameRegisters(c, cycles[k]))
  }

  ghost predicate SameRegisters(c: seq<Register>, c': seq<Register>) {
    forall r :: r in c <==> r in c'
  }

  // ---------------------------------------------------------------- the state of the search

  /** What the search has done so far; `handled` are the destinations already emitted, and
      cycles[k] is the cycle that temporary k cut. */
  datatype Search = Search(visited: set<Register>, visiting: set<Register>, sch: Schedule,
                           handled: set<Register>, cycles: seq<seq<Register>>)

  ghost predicate StackOk(edges: Edges, s: Search, stack: seq<Register>) {
    && s.visiting <= s.visited
    && (forall r :: r in s.visiting <==> r in stack) && Distinct(stack)
    && (forall i :: 0 <= i < |stack| - 1 ==> Edge(edges, stack[i], stack[i + 1]))
  }

  ghost predicate HandledOk(edges: Edges, s: Search) {
    && (forall d :: d in s.handled <==> Emitted(s.sch, d))
    && (forall d :: Writes(s.sch.middle, d) ==> d in s.visited && d !in s.visiting)
    && (forall a, d :: Edge(edges, a, d) && d in s.handled ==> a in s.visited)
    && (forall a, d :: Edge(edges, a, d) && a in s.visited && a !in s.visiting ==> d in s.handled)
  }

  ghost predicate CycleOk(edges: Edges, s: Search, stack: seq<Register>, k: nat) {
    && k < |s.cycles| && k < |s.sch.last|
    && IsCycle(edges, s.cycles[k]) && Distinct(s.cycles[k])
    && s.cycles[k][0] == s.sch.last[k].dst
    && (forall r :: r in s.cycles[k] ==> r in s.visited)
    && (forall r :: r in s.cycles[k] && r in s.visiting ==> stack != [] && stack[0] == s.cycles[k][0])
  }

  ghost predicate CyclesOk(edges: Edges, s: Search, stack: seq<Register>) {
    && |s.cycles| == |s.sch.last|
    && (forall k :: 0 <= k < |s.cycles| ==> CycleOk(edges, s, stack, k))
    && (forall k, l, r :: 0 <= k < l < |s.cycles| && r in s.cycles[k] ==> r !in s.cycles[l])
  }

  /** The invariant of the search; `stack` is the path from the current root. */
  ghost predicate Inv(edges: Edges, base: nat, s: Search, stack: seq<Register>) {
    && StackOk(edges, s, stack)
    && WellOrdered(edges, base, s.sch)
    && HandledOk(edges, s)
    && CyclesOk(edges, s, stack)
  }

  /** Of the edges leaving `node`, exactly the first i have been emitted. */
  ghost predicate Progress(edges: Edges, s: Search, node: Register, i: int) {
    node in edges ==> forall j :: 0 <= j < |edges[node]| ==> (edges[node][j] in s.handled <==> j < i)
  }

  lemma OpenIsVisited(edges: Edges, base: nat, s: Search, stack: seq<Register>)
    requires Inv(edges, base, s, stack)
    ensures s.visiting <= s.visited
  {
  }

  lemma EnterKeepsInv(edges: Edges, base: nat, s: Search, stack: seq<Register>, node: Register)
    requires Inv(edges, base, s, stack) && node !in s.visited
    requires stack != [] ==> Edge(edges, stack[|stack| - 1], node)
    ensures var s' := s.(visited := s.visited + {node}, visiting := s.visiting + {node});
      Inv(edges, base, s', stack + [node]) && Progress(edges, s', node, 0)
  {
    var s' := s.(visited := s.visited + {node}, visiting := s.visiting + {node});
    var path := stack + [node];
    assert forall r :: r in path <==> r in stack || r == node;
    assert StackOk(edges, s', path);
    forall k | 0 <= k < |s.cycles| ensures CycleOk(edges, s', path, k) {
      assert CycleOk(edges, s, stack, k);
    }
  }

  lemma LeaveKeepsInv(edges: Edges, base: nat, s: Search, stack: seq<Register>, node: Register)
    requires Inv(edges, base, s, stack + [node]) && Functional(edges)
    requires node in edges ==> Progress(edges, s, node, |edges[node]|)
    ensures Inv(edges, base, s.(visiting := s.visiting - {node}), stack)
  {
    var s' := s.(visiting := s.visiting - {node});
    var path := stack + [node];
    assert forall i :: 0 <= i < |stack| ==> path[i] == stack[i];
    assert path[|path| - 1] == node;
    assert forall r :: r in path <==> r in stack || r == node;
    assert StackOk(edges, s', stack);
    forall k | 0 <= k < |s.cycles| ensures CycleOk(edges, s', stack, k) {
      assert CycleOk(edges, s, path, k);
    }
    forall a, d | Edge(edges, a, d) && a in s'.visited && a !in s'.visiting ensures d in s'.handled {
      if a == node {
        var j :| 0 <= j < |edges[node]| && edges[node][j] == d;
      }
    }
  }

  /** A move into a register still being visited closes a cycle: the search path itself. */
  lemma ClosesWholePath(edges: Edges, s: Search, path: seq<Register>, neighbor: Register)
    requires Functional(edges) && path != [] && StackOk(edges, s, path)
    requires neighbor in s.visiting && Edge(edges, path[|path| - 1], neighbor)
    ensures neighbor == path[0] && IsCycle(edges, path)
  {
    var j :| 0 <= j < |path| && path[j] == neighbor;
    if j > 0 {
      SameSource(edges, path[j - 1], path[|path| - 1], neighbor);
    }
  }

  lemma WritesAppend(ms: seq<CopyMove>, m: CopyMove)
    ensures forall d :: Writes(ms + [m], d) <==> Writes(ms, d) || d == m.dst
  {
    forall d ensures Writes(ms + [m], d) <==> Writes(ms, d) || d == m.dst {
      assert (ms + [m])[|ms|] == m;
      if i :| 0 <= i < |ms| && ms[i].dst == d {
        assert (ms + [m])[i].dst == d;
      }
    }
  }

  function ThroughTemporary(base: nat, s: Search, node: Register, neighbor: Register, path: seq<Register>): Search {
    var temp := Virtual(base + |s.sch.last|);
    s.(sch := Schedule(s.sch.first + [CopyMove(temp, node)], s.sch.middle, s.sch.last + [CopyMove(neighbor, temp)]),
       handled := s.handled + {neighbor},
       cycles := s.cycles + [path])
  }

  lemma ThroughTemporaryKeepsInv(edges: Edges, base: nat, s: Search, path: seq<Register>, node: Register,
                                 neighbor: Register)
    requires Functional(edges) && Inv(edges, base, s, path) && path != [] && path[|path| - 1] == node
    requires Edge(edges, node, neighbor) && neighbor in s.visiting && neighbor !in s.handled
    ensures Inv(edges, base, ThroughTemporary(base, s, node, neighbor, path), path)
  {
    var s' := ThroughTemporary(base, s, node, neighbor, path);
    ClosesWholePath(edges, s, path, neighbor);
    WritesAppend(s.sch.last, CopyMove(neighbor, Virtual(base + |s.sch.last|)));
    assert Emitted(s.sch, neighbor) <==> neighbor in s.handled;
    forall i | 0 <= i < |s.sch.last| ensures s.sch.last[i].dst != neighbor {
      assert s.sch.last[i].dst == neighbor ==> Writes(s.sch.last, neighbor);
    }
    assert WellOrdered(edges, base, s'.sch);
    assert HandledOk(edges, s') by {
      forall a, d | Edge(edges, a, d) && d in s'.handled ensures a in s'.visited {
        if d == neighbor {
          SameSource(edges, a, node, d);
        }
      }
    }
    NewCycleOk(edges, base, s, path, node, neighbor);
  }

  lemma NewCycleOk(edges: Edges, base: nat, s: Search, path: seq<Register>, node: Register, neighbor: Register)
    requires HandledOk(edges, s) && CyclesOk(edges, s, path) && StackOk(edges, s, path)
    requires path != [] && IsCycle(edges, path) && path[0] == neighbor && neighbor !in s.handled
    ensures CyclesOk(edges, ThroughTemporary(base, s, node, neighbor, path), path)
  {
    var s' := ThroughTemporary(base, s, node, neighbor, path);
    forall k | 0 <= k < |s'.cycles| ensures CycleOk(edges, s', path, k) {
      if k < |s.cycles| {
        assert CycleOk(edges, s, path, k);
      }
    }
    forall k, r | 0 <= k < |s.cycles| && r in s.cycles[k] ensures r !in path {
      assert CycleOk(edges, s, path, k);
      assert Writes(s.sch.last, s.sch.last[k].dst);
    }
  }

  function Directly(s: Search, node: Register, neighbor: Register): Search {
    s.(sch := s.sch.(middle := s.sch.middle + [CopyMove(neighbor, node)]), handled := s.handled + {neighbor})
  }

  lemma DirectlyKeepsInv(edges: Edges, base: nat, s: Search, path: seq<Register>, node: Register, neighbor: Register)
    requires Functional(edges) && Inv(edges, base, s, path) && path != [] && path[|path| - 1] == node
    requires Edge(edges, node, neighbor) && neighbor in s.visited && neighbor !in s.visiting && neighbor !in s.handled
    ensures Inv(edges, base, Directly(s, node, neighbor), path)
  {
    var s' := Directly(s, node, neighbor);
    assert node in s.visiting;
    WritesAppend(s.sch.middle, CopyMove(neighbor, node));
    forall i | 0 <= i < |s.sch.middle| ensures s.sch.middle[i].dst != neighbor && s.sch.middle[i].dst != node {
      assert Writes(s.sch.middle, s.sch.middle[i].dst);
    }
    assert WellOrdered(edges, base, s'.sch);
    assert HandledOk(edges, s') by {
      forall a, d | Edge(edges, a, d) && d in s'.handled ensures a in s'.visited {
        if d == neighbor {
          SameSource(edges, a, node, d);
        }
      }
    }
    forall k | 0 <= k < |s'.cycles| ensures CycleOk(edges, s', path, k) {
      assert CycleOk(edges, s, path, k);
    }
  }

  /** Emitting the i-th edge of a node advances its progress. */
  lemma ProgressAdvances(edges: Edges, s: Search, s': Search, node: Register, i: nat)
    requires Functional(edges) && node in edges && i < |edges[node]| && Progress(edges, s, node, i)
    requires s'.handled == s.handled + {edges[node][i]}
    ensures Progress(edges, s', node, i + 1)
    ensures forall a, d :: Edge(edges, a, d) && a != node ==> (d in s'.handled <==> d in s.handled)
  {
    forall a, d | Edge(edges, a, d) && a != node ensures d in s'.handled <==> d in s.handled {
      if d == edges[node][i] {
        SameSource(edges, a, node, d);
      }
    }
  }

  /** Once every source has been visited, the schedule is complete and cuts each cycle once. */
  lemma SearchComplete(edges: Edges, base: nat, s: Search)
    requires Functional(edges) && Inv(edges, base, s, []) && edges.Keys <= s.visited
    ensures forall a, d :: Edge(edges, a, d) ==> Emitted(s.sch, d)
    ensures OneTemporaryPerCycle(edges, |s.sch.first|, s.cycles)
  {
    assert forall a, d :: Edge(edges, a, d) ==> d in s.handled;
    forall k | 0 <= k < |s.cycles| ensures IsCycle(edges, s.cycles[k]) && Distinct(s.cycles[k]) {
      assert CycleOk(edges, s, [], k);
    }
    forall c | IsCycle(edges, c)
      ensures exists k :: 0 <= k < |s.sch.first| && SameRegisters(c, s.cycles[k])
    {
      CycleNeedsTemporary(edges, base, s.sch, c);
      var k :| 0 <= k < |s.sch.last| && s.sch.last[k].dst in c;
      assert CycleOk(edges, s, [], k);
      CyclesCoincide(edges, c, s.cycles[k], s.sch.last[k].dst);
      CyclesCoincide(edges, s.cycles[k], c, s.sch.last[k].dst);
      assert SameRegisters(c, s.cycles[k]);
    }
  }

  // ---------------------------------------------------------------- the depth-first search

  class Resolver {
    const edges: Edges
    ghost const base: nat

    var visited: set<Register>
    var visiting: set<Register>
    var first: seq<CopyMove>
    var middle: seq<CopyMove>
    var last: seq<CopyMove>
    ghost var handled: set<Register>
    ghost var cycles: seq<seq<Register>>

    constructor (edges: Edges, ghost base: nat)
      ensures this.edges == edges && this.base == base
      ensures Now() == Search({}, {}, Schedule([], [], []), {}, [])
    {
      this.edges, this.base := edges, base;
      visited, visiting := {}, {};
      first, middle, last := [], [], [];
      handled, cycles := {}, [];
    }

    ghost function Now(): Search
      reads this
    {
      Search(visited, visiting, Schedule(first, middle, last), handled, cycles)
    }

    ghost function Nodes(): set<Register> {
      edges.Keys + set s, i | s in edges && 0 <= i < |edges[s]| :: edges[s][i]
    }

    ghost predicate Valid(stack: seq<Register>, next: nat)
      reads this
    {
      Functional(edges) && Inv(edges, base, Now(), stack) && next == base + |last|
    }

    /** Emission for nodes visited before a call is untouched by the call. */
    ghost predicate SameBelow(was: Search)
      reads this
    {
      forall s, d :: Edge(edges, s, d) && s in was.visited ==> (d in handled <==> d in was.handled)
    }

    method Emit(neighbor: Register, node: Register, fn: MachineFunction, ghost path: seq<Register>)
      requires Valid(path, fn.nextVreg) && path != [] && path[|path| - 1] == node
      requires Edge(edges, node, neighbor) && neighbor in visited && neighbor !in handled
      modifies this`first, this`middle, this`last, this`handled, this`cycles, fn`nextVreg
      ensures Valid(path, fn.nextVreg) && handled == old(handled) + {neighbor}
    {
      if neighbor in visiting {
        ThroughTemporaryKeepsInv(edges, base, Now(), path, node, neighbor);
        ghost var after := ThroughTemporary(base, Now(), node, neighbor, path);
        var temp := fn.NewVreg();
        first := first + [CopyMove(temp, node)];
        last := last + [CopyMove(neighbor, temp)];
        handled, cycles := handled + {neighbor}, cycles + [path];
        assert Now() == after;
      } else {
        DirectlyKeepsInv(edges, base, Now(), path, node, neighbor);
        ghost var after := Directly(Now(), node, neighbor);
        middle := middle + [CopyMove(neighbor, node)];
        handled := handled + {neighbor};
        assert Now() == after;
      }
    }

    method Visit(node: Register, fn: MachineFunction, ghost stack: seq<Register>)
      requires node in Nodes()
      requires Valid(stack, fn.nextVreg)
      requires stack != [] ==> Edge(edges, stack[|stack| - 1], node)
      modifies this, fn`nextVreg
      ensures Valid(stack, fn.nextVreg)
      ensures old(visited) <= visited && node in visited && visiting == old(visiting)
      ensures SameBelow(old(Now()))
      decreases Nodes() - visited
    {
      hide Inv, Functional;
      if node in visited {
        return;
      }
      OpenIsVisited(edges, base, Now(), stack);
      EnterKeepsInv(edges, base, Now(), stack, node);
      ghost var was := Now();
      visiting := visiting + {node};
      visited := visited + {node};
      ghost var path := stack + [node];
      assert Now() == was.(visited := was.visited + {node}, visiting := was.visiting + {node});
      if node in edges {
        var i := 0;
        while i < |edges[node]|
          invariant 0 <= i <= |edges[node]|
          invariant Valid(path, fn.nextVreg) && Progress(edges, Now(), node, i)
          invariant was.visited + {node} <= visited && visiting == was.visiting + {node}
          invariant SameBelow(was)
        {
          var neighbor := edges[node][i];
          assert Edge(edges, node, neighbor);
          Visit(neighbor, fn, path);
          ghost var mid := Now();
          assert Progress(edges, mid, node, i);
          Emit(neighbor, node, fn, path);
          ProgressAdvances(edges, mid, Now(), node, i);
          i := i + 1;
        }
      }
      LeaveKeepsInv(edges, base, Now(), stack, node);
      visiting := visiting - {node};
    }
  }

  // ---------------------------------------------------------------- the whole resolution

  /** The registers after all moves have been made at once; fresh temporaries are unconstrained. */
  ghost predicate MovedAtOnce(moves: seq<CopyMove>, base: nat, before: Regs, after: Regs) {
    && (forall i :: 0 <= i < |moves| ==> Read(after, moves[i].dst) == Read(before, moves[i].src))
    && (forall r: Register :: Allocated(r, base) && (forall i :: 0 <= i < |moves| ==> moves[i].dst != r) ==>
         after[r] == before[r])
  }

  ghost predicate UsableMoves(moves: seq<CopyMove>, base: nat) {
    && WritesOnce(moves)
    && (forall i :: 0 <= i < |moves| ==>
         Allocated(moves[i].src, base) && Allocated(moves[i].dst, base) && moves[i].dst != ZERO)
  }

  /** The edges are the first n moves, grouped by source, without the trivial ones. */
  ghost predicate EdgesOf(edges: Edges, moves: seq<CopyMove>, n: int) {
    && n <= |moves|
    && (forall s, j :: s in edges && 0 <= j < |edges[s]| ==>
          exists i :: 0 <= i < n && moves[i] == CopyMove(edges[s][j], s) && s != edges[s][j])
    && (forall i :: 0 <= i < n && moves[i].dst != moves[i].src ==> Edge(edges, moves[i].src, moves[i].dst))
  }

  lemma EdgesSame(edges: Edges, moves: seq<CopyMove>, n: nat)
    requires n < |moves| && EdgesOf(edges, moves, n) && moves[n].dst == moves[n].src
    ensures EdgesOf(edges, moves, n + 1)
  {
  }

  /** One more move, filed under its source. */
  lemma EdgesMore(was: Edges, moves: seq<CopyMove>, n: nat)
    requires WritesOnce(moves) && n < |moves| && EdgesOf(was, moves, n) && Functional(was)
    requires moves[n].dst != moves[n].src
    ensures var m := moves[n];
      var edges := was[m.src := (if m.src in was then was[m.src] else []) + [m.dst]];
      EdgesOf(edges, moves, n + 1) && Functional(edges)
  {
    var m := moves[n];
    var known := if m.src in was then was[m.src] else [];
    var edges := was[m.src := known + [m.dst]];
    EdgesMoreFunctional(was, moves, n);
    hide Functional;
    forall s, j | s in edges && 0 <= j < |edges[s]|
      ensures exists i :: 0 <= i < n + 1 && moves[i] == CopyMove(edges[s][j], s) && s != edges[s][j]
    {
      if s == m.src && j == |known| {
        assert moves[n] == CopyMove(edges[s][j], s);
      } else {
        assert s in was && edges[s][j] == was[s][j];
      }
    }
    forall i | 0 <= i < n + 1 && moves[i].dst != moves[i].src ensures Edge(edges, moves[i].src, moves[i].dst) {
      if i == n {
        assert edges[m.src][|known|] == m.dst;
      } else {
        assert Edge(was, moves[i].src, moves[i].dst);
      }
    }
  }

  lemma EdgesMoreFunctional(was: Edges, moves: seq<CopyMove>, n: nat)
    requires WritesOnce(moves) && n < |moves| && EdgesOf(was, moves, n) && Functional(was)
    requires moves[n].dst != moves[n].src
    ensures Functional(was[moves[n].src := (if moves[n].src in was then was[moves[n].src] else []) + [moves[n].dst]])
  {
    var m := moves[n];
    forall s, j | s in was && 0 <= j < |was[s]| ensures was[s][j] != m.dst {
      var i :| 0 <= i < n && moves[i] == CopyMove(was[s][j], s) && s != was[s][j];
    }
    hide EdgesOf, WritesOnce;
  }

  method BuildEdges(moves: seq<CopyMove>) returns (edges: Edges)
    requires WritesOnce(moves)
    ensures EdgesOf(edges, moves, |moves|) && Functional(edges)
  {
    edges := map[];
    var n := 0;
    while n < |moves|
      invariant 0 <= n <= |moves|
      invariant EdgesOf(edges, moves, n) && Functional(edges)
    {
      hide EdgesOf, Functional, WritesOnce;
      var m := moves[n];
      if m.dst != m.src {
        EdgesMore(edges, moves, n);
        edges := edges[m.src := (if m.src in edges then edges[m.src] else []) + [m.dst]];
      } else {
        EdgesSame(edges, moves, n);
      }
      n := n + 1;
    }
  }

  lemma EdgesAreMoves(edges: Edges, moves: seq<CopyMove>, base: nat)
    requires EdgesOf(edges, moves, |moves|) && UsableMoves(moves, base)
    ensures UsableEdges(edges, base)
    ensures forall s, d :: Edge(edges, s, d) ==> exists i :: 0 <= i < |moves| && moves[i] == CopyMove(d, s)
  {
    forall s, d | Edge(edges, s, d) ensures exists i :: 0 <= i < |moves| && moves[i] == CopyMove(d, s) {
      var j :| 0 <= j < |edges[s]| && edges[s][j] == d;
    }
  }

  lemma MovesAreSimultaneous(edges: Edges, moves: seq<CopyMove>, base: nat, sch: Schedule, regs: Regs)
    requires Functional(edges) && EdgesOf(edges, moves, |moves|) && UsableMoves(moves, base)
    requires WellOrdered(edges, base, sch)
    requires forall s, d :: Edge(edges, s, d) ==> Emitted(sch, d)
    ensures MovedAtOnce(moves, base, regs, RunMoves(Flatten(sch), regs))
  {
    EdgesAreMoves(edges, moves, base);
    ScheduleIsSimultaneous(edges, base, sch, regs);
    hide RunMoves;
    forall i | 0 <= i < |moves| ensures Read(RunMoves(Flatten(sch), regs), moves[i].dst) == Read(regs, moves[i].src) {
      if moves[i].dst == moves[i].src {
        assert forall j :: 0 <= j < |moves| && moves[j].dst == moves[i].dst ==> j == i;
        assert forall s :: !Edge(edges, s, moves[i].dst);
      }
    }
  }

  /** For every order in which the search takes the sources, the emitted moves perform all the
      requested ones at once, and use exactly one temporary for each cycle among them. */
  method ResolveParallelCopy(moves: seq<CopyMove>, fn: MachineFunction)
    returns (out: seq<Inst>, ghost edges: Edges, ghost cycles: seq<seq<Register>>)
    requires UsableMoves(moves, fn.nextVreg)
    modifies fn`nextVreg
    ensures fn.nextVreg >= old(fn.nextVreg)
    ensures forall arch, X, st: State :: InRange(arch, st.regs) ==>
              && Exec(arch, X, out, st).mem == st.mem
              && MovedAtOnce(moves, old(fn.nextVreg), st.regs, Exec(arch, X, out, st).regs)
    ensures EdgesOf(edges, moves, |moves|)
    ensures OneTemporaryPerCycle(edges, fn.nextVreg - old(fn.nextVreg), cycles)
    ensures forall i :: 0 <= i < |out| ==> out[i].Mv?
  {
    var graph := BuildEdges(moves);
    edges := graph;
    EdgesAreMoves(graph, moves, fn.nextVreg);
    var r := new Resolver(graph, fn.nextVreg);
    var nodes := graph.Keys;
    while nodes != {}
      invariant fresh(r) && r.edges == graph && r.base == old(fn.nextVreg)
      invariant r.Valid([], fn.nextVreg)
      invariant nodes <= graph.Keys && graph.Keys <= nodes + r.visited
      decreases nodes
    {
      var node :| node in nodes;
      r.Visit(node, fn, []);
      nodes := nodes - {node};
    }
    SearchComplete(graph, r.base, r.Now());
    cycles := r.cycles;
    ghost var sch := Schedule(r.first, r.middle, r.last);
    out := MoveInsts(r.first + r.middle + r.last);
    forall arch, X, st: State | InRange(arch, st.regs)
      ensures Exec(arch, X, out, st).mem == st.mem
      ensures MovedAtOnce(moves, old(fn.nextVreg), st.regs, Exec(arch, X, out, st).regs)
    {
      ExecMoves(arch, X, Flatten(sch), st);
      MovesAreSimultaneous(graph, moves, old(fn.nextVreg), sch, st.regs);
    }
  }
}
