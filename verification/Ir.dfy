/** The intermediate representation as values: instructions, operand slots, and function bodies
    (src/ir/core_inst.rs, src/ir/core.rs). */
module Ir {
  import opened Sequences
  import opened CoreInts

  datatype StructBody = Opaque | Fields(fields: seq<Type>, packed: bool)

  datatype Type =
    | IntType(bits: nat)
    | PtrType
    | VoidType
    | LabelType
    | FunctionType(id: nat)
    | ArrayType(elem: Type, length: nat)
    | StructType(body: StructBody)

  type InstId = nat
  type BlockId = nat

  datatype ValueId = InstValue(inst: InstId) | ArgValue(arg: nat) | GlobalValue(global: nat) | ConstValue(id: nat)

  datatype OperandSlot =
    | BinaryLhs | BinaryRhs | CallArg(i: nat) | BranchCond | GepBase | GepIndex(i: nat) | LoadPtr | RetVal
    | StorePtr | StoreVal | ICmpLhs | ICmpRhs | PhiIncomingVal(i: nat) | SelectCond | SelectThenVal | SelectElseVal
    | PtrToIntPtr | TruncVal | ZextVal | SextVal

  datatype BlockOperandSlot = BranchThen | BranchElse | PhiIncomingBlock(i: nat)

  datatype CondBranch = CondBranch(cond: ValueId, elseBlock: BlockId)

  datatype PhiIncoming = PhiIncoming(block: BlockId, value: ValueId)

  datatype InstKind =
    | Binary(op: BinaryOpcode, lhs: ValueId, rhs: ValueId)
    | Call(func: nat, args: seq<ValueId>)
    | Branch(thenBlock: BlockId, cond: Option<CondBranch>)
    | GetElementPtr(baseTy: Type, base: ValueId, indices: seq<ValueId>)
    | Alloca(ty: Type)
    | Load(ptr: ValueId)
    | Ret(ret: Option<ValueId>)
    | Store(value: ValueId, ptr: ValueId)
    | ICmp(code: ICmpCode, lhs: ValueId, rhs: ValueId)
    | Phi(incomings: map<nat, PhiIncoming>, idx: nat)
    | Select(condVal: ValueId, thenVal: ValueId, elseVal: ValueId)
    | PtrToInt(ptr: ValueId)
    | Trunc(value: ValueId)
    | Zext(value: ValueId)
    | Sext(value: ValueId)
    | Unreachable

  predicate IsTerminator(kind: InstKind) {
    kind.Branch? || kind.Ret? || kind.Unreachable?
  }

  function ArgOperands(args: seq<ValueId>): (r: map<OperandSlot, ValueId>)
    ensures forall s :: s in r <==> s.CallArg? && s.i < |args|
    ensures forall s :: s in r ==> r[s] == args[s.i]
  {
    map s | s in set i | 0 <= i < |args| :: CallArg(i) :: args[s.i]
  }

  function IndexOperands(indices: seq<ValueId>): (r: map<OperandSlot, ValueId>)
    ensures forall s :: s in r <==> s.GepIndex? && s.i < |indices|
    ensures forall s :: s in r ==> r[s] == indices[s.i]
  {
    map s | s in set i | 0 <= i < |indices| :: GepIndex(i) :: indices[s.i]
  }

  function IncomingValues(incomings: map<nat, PhiIncoming>): (r: map<OperandSlot, ValueId>)
    ensures forall s :: s in r <==> s.PhiIncomingVal? && s.i in incomings
    ensures forall s :: s in r ==> r[s] == incomings[s.i].value
  {
    map s | s in set i | i in incomings :: PhiIncomingVal(i) :: incomings[s.i].value
  }

  function IncomingBlocks(incomings: map<nat, PhiIncoming>): (r: map<BlockOperandSlot, BlockId>)
    ensures forall s :: s in r <==> s.PhiIncomingBlock? && s.i in incomings
    ensures forall s :: s in r ==> r[s] == incomings[s.i].block
  {
    map s | s in set i | i in incomings :: PhiIncomingBlock(i) :: incomings[s.i].block
  }

  function ValueOperands(kind: InstKind): map<OperandSlot, ValueId> {
    match kind
    case Binary(_, lhs, rhs) => map[BinaryLhs := lhs, BinaryRhs := rhs]
    case Call(_, args) => ArgOperands(args)
    case Branch(_, cond) => if cond.Some? then map[BranchCond := cond.value.cond] else map[]
    case GetElementPtr(_, base, indices) => map[GepBase := base] + IndexOperands(indices)
    case Alloca(_) => map[]
    case Load(ptr) => map[LoadPtr := ptr]
    case Ret(ret) => if ret.Some? then map[RetVal := ret.value] else map[]
    case Store(value, ptr) => map[StoreVal := value, StorePtr := ptr]
    case ICmp(_, lhs, rhs) => map[ICmpLhs := lhs, ICmpRhs := rhs]
    case Phi(incomings, _) => IncomingValues(incomings)
    case Select(c, t, e) => map[SelectCond := c, SelectThenVal := t, SelectElseVal := e]
    case PtrToInt(ptr) => map[PtrToIntPtr := ptr]
    case Trunc(value) => map[TruncVal := value]
    case Zext(value) => map[ZextVal := value]
    case Sext(value) => map[SextVal := value]
    case Unreachable => map[]
  }

  function BlockOperands(kind: InstKind): map<BlockOperandSlot, BlockId> {
    match kind
    case Branch(target, cond) =>
      if cond.Some? then map[BranchThen := target, BranchElse := cond.value.elseBlock] else map[BranchThen := target]
    case Phi(incomings, _) => IncomingBlocks(incomings)
    case _ => map[]
  }

  function ReplaceOperand(kind: InstKind, slot: OperandSlot, v: ValueId): (r: InstKind)
    requires slot in ValueOperands(kind)
  {
    match kind
    case Binary(op, lhs, rhs) => if slot == BinaryLhs then Binary(op, v, rhs) else Binary(op, lhs, v)
    case Call(_, args) => kind.(args := args[slot.i := v])
    case Branch(_, cond) => kind.(cond := Some(cond.value.(cond := v)))
    case GetElementPtr(_, _, indices) => if slot == GepBase then kind.(base := v)
      else kind.(indices := indices[slot.i := v])
    case Load(_) => kind.(ptr := v)
    case Ret(_) => kind.(ret := Some(v))
    case Store(_, _) => if slot == StorePtr then kind.(ptr := v) else kind.(value := v)
    case ICmp(code, lhs, rhs) => if slot == ICmpLhs then ICmp(code, v, rhs) else ICmp(code, lhs, v)
    case Phi(incomings, _) => kind.(incomings := incomings[slot.i := incomings[slot.i].(value := v)])
    case Select(_, _, _) =>
      if slot == SelectCond then kind.(condVal := v) else if slot == SelectThenVal then kind.(thenVal := v)
        else kind.(elseVal := v)
    case PtrToInt(_) => kind.(ptr := v)
    case Trunc(_) => kind.(value := v)
    case Zext(_) => kind.(value := v)
    case Sext(_) => kind.(value := v)
  }

  function ReplaceBlockOperand(kind: InstKind, slot: BlockOperandSlot, b: BlockId): (r: InstKind)
    requires slot in BlockOperands(kind)
  {
    match kind
    case Branch(_, cond) => if slot == BranchThen then kind.(thenBlock := b)
      else kind.(cond := Some(cond.value.(elseBlock := b)))
    case Phi(incomings, _) => kind.(incomings := incomings[slot.i := incomings[slot.i].(block := b)])
  }

  const NO_VALUE := ConstValue(0)

  function Blanks(n: nat): seq<ValueId> {
    seq(n, _ => NO_VALUE)
  }

  /** What remains of an instruction when every operand is blanked out. */
  function Skeleton(kind: InstKind): InstKind {
    match kind
    case Binary(op, _, _) => Binary(op, NO_VALUE, NO_VALUE)
    case Call(func, args) => Call(func, Blanks(|args|))
    case Branch(_, cond) => Branch(0, if cond.Some? then Some(CondBranch(NO_VALUE, 0)) else None)
    case GetElementPtr(ty, _, indices) => GetElementPtr(ty, NO_VALUE, Blanks(|indices|))
    case Alloca(_) => kind
    case Load(_) => Load(NO_VALUE)
    case Ret(ret) => Ret(if ret.Some? then Some(NO_VALUE) else None)
    case Store(_, _) => Store(NO_VALUE, NO_VALUE)
    case ICmp(code, _, _) => ICmp(code, NO_VALUE, NO_VALUE)
    case Phi(incomings, idx) => Phi(map i | i in incomings :: PhiIncoming(0, NO_VALUE), idx)
    case Select(_, _, _) => Select(NO_VALUE, NO_VALUE, NO_VALUE)
    case PtrToInt(_) => PtrToInt(NO_VALUE)
    case Trunc(_) => Trunc(NO_VALUE)
    case Zext(_) => Zext(NO_VALUE)
    case Sext(_) => Sext(NO_VALUE)
    case Unreachable => Unreachable
  }

  /** Replacing an operand changes that operand and nothing else. */
  lemma ReplaceOperandExact(kind: InstKind, slot: OperandSlot, v: ValueId)
    requires slot in ValueOperands(kind)
    ensures var r := ReplaceOperand(kind, slot, v);
      && ValueOperands(r) == ValueOperands(kind)[slot := v]
      && BlockOperands(r) == BlockOperands(kind)
      && Skeleton(r) == Skeleton(kind)
  {
    hide ValueOperands, BlockOperands, ReplaceOperand, Skeleton;
    ReplacedValues(kind, slot, v);
    ReplacedRest(kind, slot, v);
  }

  lemma ReplacedRest(kind: InstKind, slot: OperandSlot, v: ValueId)
    requires slot in ValueOperands(kind)
    ensures var r := ReplaceOperand(kind, slot, v);
      BlockOperands(r) == BlockOperands(kind) && Skeleton(r) == Skeleton(kind)
  {
    hide ReplaceOperand, Skeleton, BlockOperands;
    if kind.Phi? {
      ReplacedRestPhi(kind, slot, v);
    } else if kind.Call? || kind.GetElementPtr? {
      ReplacedRestArgs(kind, slot, v);
    } else {
      ReplacedRestSmall(kind, slot, v);
    }
  }

  lemma ReplacedRestPhi(kind: InstKind, slot: OperandSlot, v: ValueId)
    requires slot in ValueOperands(kind)
    requires kind.Phi?
    ensures var r := ReplaceOperand(kind, slot, v);
      BlockOperands(r) == BlockOperands(kind) && Skeleton(r) == Skeleton(kind)
  {
    var r := ReplaceOperand(kind, slot, v);
    assert r.incomings.Keys == kind.incomings.Keys;
    assert Skeleton(r).incomings == Skeleton(kind).incomings;
  }

  lemma ReplacedRestArgs(kind: InstKind, slot: OperandSlot, v: ValueId)
    requires slot in ValueOperands(kind)
    requires kind.Call? || kind.GetElementPtr?
    ensures var r := ReplaceOperand(kind, slot, v);
      BlockOperands(r) == BlockOperands(kind) && Skeleton(r) == Skeleton(kind)
  {
  }

  lemma ReplacedRestSmall(kind: InstKind, slot: OperandSlot, v: ValueId)
    requires slot in ValueOperands(kind)
    requires !kind.Phi? && !kind.Call? && !kind.GetElementPtr?
    ensures var r := ReplaceOperand(kind, slot, v);
      BlockOperands(r) == BlockOperands(kind) && Skeleton(r) == Skeleton(kind)
  {
  }

  lemma ReplacedValues(kind: InstKind, slot: OperandSlot, v: ValueId)
    requires slot in ValueOperands(kind)
    ensures ValueOperands(ReplaceOperand(kind, slot, v)) == ValueOperands(kind)[slot := v]
  {
    hide ReplaceOperand;
    if kind.Phi? {
      ReplacedPhi(kind, slot, v);
    } else if kind.Call? || kind.GetElementPtr? {
      ReplacedArgs(kind, slot, v);
    } else if kind.Branch? || kind.Ret? || kind.Select? {
      ReplacedOpt(kind, slot, v);
    } else {
      ReplacedSmall(kind, slot, v);
    }
  }

  lemma ReplacedPhi(kind: InstKind, slot: OperandSlot, v: ValueId)
    requires slot in ValueOperands(kind)
    requires kind.Phi?
    ensures ValueOperands(ReplaceOperand(kind, slot, v)) == ValueOperands(kind)[slot := v]
  {
    assert ReplaceOperand(kind, slot, v).incomings.Keys == kind.incomings.Keys;
  }

  lemma ReplacedArgs(kind: InstKind, slot: OperandSlot, v: ValueId)
    requires slot in ValueOperands(kind)
    requires kind.Call? || kind.GetElementPtr?
    ensures ValueOperands(ReplaceOperand(kind, slot, v)) == ValueOperands(kind)[slot := v]
  {
    hide ArgOperands, IndexOperands, IncomingValues;
  }

  lemma ReplacedOpt(kind: InstKind, slot: OperandSlot, v: ValueId)
    requires slot in ValueOperands(kind)
    requires kind.Branch? || kind.Ret? || kind.Select?
    ensures ValueOperands(ReplaceOperand(kind, slot, v)) == ValueOperands(kind)[slot := v]
  {
  }

  lemma ReplacedSmall(kind: InstKind, slot: OperandSlot, v: ValueId)
    requires slot in ValueOperands(kind)
    requires !kind.Phi? && !kind.Call? && !kind.GetElementPtr? && !kind.Branch? && !kind.Ret? && !kind.Select?
    ensures ValueOperands(ReplaceOperand(kind, slot, v)) == ValueOperands(kind)[slot := v]
  {
  }

  lemma ReplaceBlockOperandExact(kind: InstKind, slot: BlockOperandSlot, b: BlockId)
    requires slot in BlockOperands(kind)
    ensures var r := ReplaceBlockOperand(kind, slot, b);
      && BlockOperands(r) == BlockOperands(kind)[slot := b]
      && ValueOperands(r) == ValueOperands(kind)
      && Skeleton(r) == Skeleton(kind)
  {
  }

  /** An instruction is its skeleton together with its operands. */
  lemma KindDetermined(a: InstKind, b: InstKind)
    requires Skeleton(a) == Skeleton(b) && ValueOperands(a) == ValueOperands(b) && BlockOperands(a) == BlockOperands(b)
    ensures a == b
  {
    match a {
      case Call(_, args) => SameArgs(a, b);
      case GetElementPtr(_, _, _) => SameIndices(a, b);
      case Phi(_, _) => SameIncomings(a, b);
      case Binary(_, _, _) => assert ValueOperands(b)[BinaryLhs] == b.lhs && ValueOperands(b)[BinaryRhs] == b.rhs;
      case ICmp(_, _, _) => assert ValueOperands(b)[ICmpLhs] == b.lhs && ValueOperands(b)[ICmpRhs] == b.rhs;
      case Store(_, _) => assert ValueOperands(b)[StoreVal] == b.value && ValueOperands(b)[StorePtr] == b.ptr;
      case Select(_, _, _) =>
        assert ValueOperands(b)[SelectCond] == b.condVal && ValueOperands(b)[SelectThenVal] == b.thenVal
          && ValueOperands(b)[SelectElseVal] == b.elseVal;
      case Branch(_, cond) =>
        assert BlockOperands(b)[BranchThen] == b.thenBlock;
        if cond.Some? {
          assert ValueOperands(b)[BranchCond] == b.cond.value.cond
            && BlockOperands(b)[BranchElse] == b.cond.value.elseBlock;
        }
      case Load(_) => assert ValueOperands(b)[LoadPtr] == b.ptr;
      case Ret(r) => assert r.Some? ==> ValueOperands(b)[RetVal] == b.ret.value;
      case PtrToInt(_) => assert ValueOperands(b)[PtrToIntPtr] == b.ptr;
      case Trunc(_) => assert ValueOperands(b)[TruncVal] == b.value;
      case Zext(_) => assert ValueOperands(b)[ZextVal] == b.value;
      case Sext(_) => assert ValueOperands(b)[SextVal] == b.value;
      case _ =>
    }
  }

  lemma SameArgs(a: InstKind, b: InstKind)
    requires a.Call? && Skeleton(a) == Skeleton(b) && ValueOperands(a) == ValueOperands(b)
    ensures a == b
  {
    assert |Blanks(|a.args|)| == |Blanks(|b.args|)|;
    forall i | 0 <= i < |a.args| ensures a.args[i] == b.args[i] {
      assert ValueOperands(a)[CallArg(i)] == a.args[i] && ValueOperands(b)[CallArg(i)] == b.args[i];
    }
  }

  lemma SameIndices(a: InstKind, b: InstKind)
    requires a.GetElementPtr? && Skeleton(a) == Skeleton(b) && ValueOperands(a) == ValueOperands(b)
    ensures a == b
  {
    assert |Blanks(|a.indices|)| == |Blanks(|b.indices|)|;
    assert ValueOperands(a)[GepBase] == a.base && ValueOperands(b)[GepBase] == b.base;
    forall i | 0 <= i < |a.indices| ensures a.indices[i] == b.indices[i] {
      assert ValueOperands(a)[GepIndex(i)] == a.indices[i] && ValueOperands(b)[GepIndex(i)] == b.indices[i];
    }
  }

  lemma SameIncomings(a: InstKind, b: InstKind)
    requires a.Phi? && Skeleton(a) == Skeleton(b) && ValueOperands(a) == ValueOperands(b)
    requires BlockOperands(a) == BlockOperands(b)
    ensures a == b
  {
    var sa, sb := Skeleton(a), Skeleton(b);
    assert sa.incomings.Keys == a.incomings.Keys && sb.incomings.Keys == b.incomings.Keys;
    forall i | i in a.incomings ensures i in b.incomings && a.incomings[i] == b.incomings[i] {
      assert i in sa.incomings && i in sb.incomings;
      assert ValueOperands(a)[PhiIncomingVal(i)] == a.incomings[i].value
        && ValueOperands(b)[PhiIncomingVal(i)] == b.incomings[i].value;
      assert BlockOperands(a)[PhiIncomingBlock(i)] == a.incomings[i].block
        && BlockOperands(b)[PhiIncomingBlock(i)] == b.incomings[i].block;
    }
  }

  // ---------------------------------------------------------------- function bodies

  datatype ConstData = IntConst(c: CoreInt,
    ty: Type) | NullConst(ty: Type) | UndefConst(ty: Type) | OtherConst(ty: Type)

  datatype InstData = InstData(parent: Option<BlockId>, ty: Type, kind: InstKind)

  datatype BlockData = BlockData(phis: seq<InstId>, insts: seq<InstId>, terminator: Option<InstId>)

  datatype Body = Body(insts: map<InstId, InstData>, blocks: map<BlockId, BlockData>, order: seq<BlockId>,
    entry: BlockId,
                       consts: seq<ConstData>, numArgs: nat, numGlobals: nat)

  predicate Attached(body: Body, i: InstId) {
    i in body.insts && body.insts[i].parent.Some?
  }

  predicate Knows(body: Body, v: ValueId) {
    match v
    case InstValue(i) => i in body.insts
    case ArgValue(a) => a < body.numArgs
    case GlobalValue(g) => g < body.numGlobals
    case ConstValue(c) => c < |body.consts|
  }

  /** Every operand of the instruction names something that exists. */
  predicate OperandsExist(body: Body, i: InstId)
    requires i in body.insts
  {
    var k := body.insts[i].kind;
    && (forall s :: s in ValueOperands(k) ==> Knows(body, ValueOperands(k)[s]))
    && (forall s :: s in BlockOperands(k) ==> BlockOperands(k)[s] in body.blocks)
  }

  /** The block lists the instruction where its kind belongs, and nowhere else. */
  predicate Lists(blk: BlockData, kind: InstKind, i: InstId) {
    && (i in blk.phis <==> kind.Phi?)
    && (blk.terminator == Some(i) <==> IsTerminator(kind))
    && (i in blk.insts <==> !kind.Phi? && !IsTerminator(kind))
  }

  predicate Contains(blk: BlockData, i: InstId) {
    i in blk.phis || i in blk.insts || blk.terminator == Some(i)
  }

  /** Blocks and instructions agree on who holds whom, and no operand dangles. */
  ghost predicate WellPlaced(body: Body) {
    && (forall b, i :: b in body.blocks && Contains(body.blocks[b], i) ==>
          i in body.insts && body.insts[i].parent == Some(b) && Lists(body.blocks[b], body.insts[i].kind, i))
    && (forall i :: Attached(body, i) ==> WellHeld(body, i))
    && (forall b :: b in body.blocks ==> Distinct(body.blocks[b].phis) && Distinct(body.blocks[b].insts))
    && Distinct(body.order) && (forall b :: b in body.order <==> b in body.blocks)
    && body.entry in body.blocks
  }

  ghost predicate WellHeld(body: Body, i: InstId)
    requires Attached(body, i)
  {
    var b := body.insts[i].parent.value;
    b in body.blocks && Lists(body.blocks[b], body.insts[i].kind, i) && OperandsExist(body, i)
  }

  /** The sequence without any occurrence of x. */
  function Without<T(==, !new)>(s: seq<T>, x: T): (r: seq<T>)
    ensures forall y :: y in r <==> y in s && y != x
    ensures Distinct(s) ==> Distinct(r)
    ensures |r| <= |s|
  {
    if s == [] then []
    else
      var r := Without(s[1..], x);
      assert s == [s[0]] + s[1..];
      assert Distinct(s) ==> Distinct(s[1..]) && s[0] !in s[1..] && s[0] !in r;
      if s[0] == x then r else [s[0]] + r
  }

  lemma {:induction false} RemoveAt<T(!new)>(s: seq<T>, k: nat)
    requires k < |s| && Distinct(s)
    ensures s[..k] + s[k + 1..] == Without(s, s[k])
    decreases |s|
  {
    if k == 0 {
      WithoutAbsent(s[1..], s[0]);
      assert s[..0] + s[1..] == s[1..];
    } else {
      assert s[1..][k - 1] == s[k];
      RemoveAt(s[1..], k - 1);
      assert s[..k] + s[k + 1..] == [s[0]] + (s[1..][..k - 1] + s[1..][k..]);
      assert s[0] != s[k];
    }
  }

  lemma {:induction false} WithoutAbsent<T(!new)>(s: seq<T>, x: T)
    requires x !in s
    ensures Without(s, x) == s
  {
    if s != [] {
      assert s[0] in s && forall y :: y in s[1..] ==> y in s;
      WithoutAbsent(s[1..], x);
    }
  }

  function InsertAt<T>(s: seq<T>, k: nat, x: T): (r: seq<T>)
    requires k <= |s|
    ensures |r| == |s| + 1
  {
    s[..k] + [x] + s[k..]
  }

  lemma InsertAtExact<T(!new)>(s: seq<T>, k: nat, x: T)
    requires k <= |s|
    ensures forall y :: y in InsertAt(s, k, x) <==> y in s || y == x
    ensures Distinct(s) && x !in s ==> Distinct(InsertAt(s, k, x))
  {
    assert s == s[..k] + s[k..];
  }

  function InsertPhi(blk: BlockData, k: nat, i: InstId): BlockData
    requires k <= |blk.phis|
  {
    blk.(phis := InsertAt(blk.phis, k, i))
  }

  function InsertInst(blk: BlockData, k: nat, i: InstId): BlockData
    requires k <= |blk.insts|
  {
    blk.(insts := InsertAt(blk.insts, k, i))
  }

  function RemoveFrom(blk: BlockData, i: InstId): BlockData {
    BlockData(Without(blk.phis, i), Without(blk.insts, i), if blk.terminator == Some(i) then None else blk.terminator)
  }

  /** The body after instruction i joins block b, whose lists become blk. */
  function Attach(body: Body, b: BlockId, blk: BlockData, i: InstId): Body
    requires i in body.insts
  {
    body.(blocks := body.blocks[b := blk], insts := body.insts[i := body.insts[i].(parent := Some(b))])
  }

  function Detach(body: Body, i: InstId): Body
    requires i in body.insts
  {
    var p := body.insts[i].parent;
    if p.None? || p.value !in body.blocks then body
    else body.(blocks := body.blocks[p.value := RemoveFrom(body.blocks[p.value], i)],
      insts := body.insts[i := body.insts[i].(parent := None)])
  }

  function Erase(body: Body, i: InstId): Body
    requires i in body.insts
  {
    var d := Detach(body, i);
    d.(insts := d.insts - {i})
  }

  function WithKind(body: Body, i: InstId, kind: InstKind): Body
    requires i in body.insts
  {
    body.(insts := body.insts[i := body.insts[i].(kind := kind)])
  }

  /** An instruction with one value exchanged for another in every operand. */
  function Subst(kind: InstKind, from: ValueId, to: ValueId): InstKind {
    match kind
    case Binary(op, lhs, rhs) => Binary(op, Swap(lhs, from, to), Swap(rhs, from, to))
    case Call(func, args) => Call(func, SwapAll(args, from, to))
    case Branch(target, cond) => Branch(target, if cond.Some?
      then Some(CondBranch(Swap(cond.value.cond, from, to), cond.value.elseBlock)) else None)
    case GetElementPtr(ty, base, indices) => GetElementPtr(ty, Swap(base, from, to), SwapAll(indices, from, to))
    case Alloca(_) => kind
    case Load(ptr) => Load(Swap(ptr, from, to))
    case Ret(ret) => Ret(if ret.Some? then Some(Swap(ret.value, from, to)) else None)
    case Store(value, ptr) => Store(Swap(value, from, to), Swap(ptr, from, to))
    case ICmp(code, lhs, rhs) => ICmp(code, Swap(lhs, from, to), Swap(rhs, from, to))
    case Phi(incomings, idx) => Phi(map i | i in incomings ::
      PhiIncoming(incomings[i].block, Swap(incomings[i].value, from, to)), idx)
    case Select(c, t, e) => Select(Swap(c, from, to), Swap(t, from, to), Swap(e, from, to))
    case PtrToInt(ptr) => PtrToInt(Swap(ptr, from, to))
    case Trunc(value) => Trunc(Swap(value, from, to))
    case Zext(value) => Zext(Swap(value, from, to))
    case Sext(value) => Sext(Swap(value, from, to))
    case Unreachable => Unreachable
  }

  function Swap(v: ValueId, from: ValueId, to: ValueId): ValueId {
    if v == from then to else v
  }

  function SwapAll(vs: seq<ValueId>, from: ValueId, to: ValueId): (r: seq<ValueId>)
    ensures |r| == |vs|
  {
    seq(|vs|, i requires 0 <= i < |vs| => Swap(vs[i], from, to))
  }

  lemma SubstExact(kind: InstKind, from: ValueId, to: ValueId)
    ensures var r := Subst(kind, from, to);
      && Skeleton(r) == Skeleton(kind) && BlockOperands(r) == BlockOperands(kind)
      && ValueOperands(r) == map s | s in ValueOperands(kind) :: Swap(ValueOperands(kind)[s], from, to)
  {
    hide ValueOperands, BlockOperands, Subst, Skeleton, Swap;
    SubstSkeleton(kind, from, to);
    SubstValues(kind, from, to);
  }

  lemma SubstSkeleton(kind: InstKind, from: ValueId, to: ValueId)
    ensures Skeleton(Subst(kind, from, to)) == Skeleton(kind)
    ensures BlockOperands(Subst(kind, from, to)) == BlockOperands(kind)
  {
    hide Swap;
    match kind {
      case Phi(incomings, _) => assert Skeleton(Subst(kind, from, to)).incomings == Skeleton(kind).incomings;
      case _ =>
    }
  }

  lemma SubstValues(kind: InstKind, from: ValueId, to: ValueId)
    ensures ValueOperands(Subst(kind, from, to)) == map s | s in ValueOperands(kind) ::
      Swap(ValueOperands(kind)[s], from, to)
  {
    hide ValueOperands, Subst, Swap;
    if kind.Phi? {
      SubstPhi(kind, from, to);
    } else if kind.Call? || kind.GetElementPtr? {
      SubstArgs(kind, from, to);
    } else if kind.Branch? || kind.Ret? || kind.Select? {
      SubstOpt(kind, from, to);
    } else {
      SubstSmall(kind, from, to);
    }
  }

  lemma SubstPhi(kind: InstKind, from: ValueId, to: ValueId)
    requires kind.Phi?
    ensures ValueOperands(Subst(kind, from, to)) == map s | s in ValueOperands(kind) ::
      Swap(ValueOperands(kind)[s], from, to)
  {
    hide Swap;
  }

  lemma SubstArgs(kind: InstKind, from: ValueId, to: ValueId)
    requires kind.Call? || kind.GetElementPtr?
    ensures ValueOperands(Subst(kind, from, to)) == map s | s in ValueOperands(kind) ::
      Swap(ValueOperands(kind)[s], from, to)
  {
    hide Swap;
  }

  lemma SubstOpt(kind: InstKind, from: ValueId, to: ValueId)
    requires kind.Branch? || kind.Ret? || kind.Select?
    ensures ValueOperands(Subst(kind, from, to)) == map s | s in ValueOperands(kind) ::
      Swap(ValueOperands(kind)[s], from, to)
  {
    hide Swap;
  }

  lemma SubstSmall(kind: InstKind, from: ValueId, to: ValueId)
    requires !kind.Phi? && !kind.Call? && !kind.GetElementPtr? && !kind.Branch? && !kind.Ret? && !kind.Select?
    ensures ValueOperands(Subst(kind, from, to)) == map s | s in ValueOperands(kind) ::
      Swap(ValueOperands(kind)[s], from, to)
  {
    hide Swap;
  }

  /** The body with every use of one value by an attached instruction turned into another. */
  function SubstituteAll(body: Body, from: ValueId, to: ValueId): Body {
    body.(insts := map i | i in body.insts ::
      if body.insts[i].parent.Some? then body.insts[i].(kind := Subst(body.insts[i].kind, from, to)) else body.insts[i])
  }

  function Retarget(kind: InstKind, from: BlockId, to: BlockId): InstKind {
    match kind
    case Branch(target, cond) =>
      Branch(SwapBlock(target, from, to), if cond.Some?
        then Some(CondBranch(cond.value.cond, SwapBlock(cond.value.elseBlock, from, to))) else None)
    case Phi(incomings, idx) => Phi(map i | i in incomings ::
      PhiIncoming(SwapBlock(incomings[i].block, from, to), incomings[i].value), idx)
    case _ => kind
  }

  function SwapBlock(b: BlockId, from: BlockId, to: BlockId): BlockId {
    if b == from then to else b
  }

  lemma RetargetExact(kind: InstKind, from: BlockId, to: BlockId)
    ensures var r := Retarget(kind, from, to);
      && Skeleton(r) == Skeleton(kind) && ValueOperands(r) == ValueOperands(kind)
      && BlockOperands(r) == map s | s in BlockOperands(kind) :: SwapBlock(BlockOperands(kind)[s], from, to)
  {
    match kind {
      case Phi(incomings, _) => assert Skeleton(Retarget(kind, from, to)).incomings == Skeleton(kind).incomings;
      case _ =>
    }
  }

  /** The body with every reference to one block by an attached instruction turned to another. */
  function RetargetAll(body: Body, from: BlockId, to: BlockId): Body {
    body.(insts := map i | i in body.insts ::
      if body.insts[i].parent.Some? then body.insts[i].(kind := Retarget(body.insts[i].kind, from, to))
        else body.insts[i])
  }

  function AddIncoming(kind: InstKind, b: BlockId, v: ValueId): InstKind
    requires kind.Phi?
  {
    Phi(kind.incomings[kind.idx := PhiIncoming(b, v)], kind.idx + 1)
  }

  function DropIncoming(kind: InstKind, k: nat): InstKind
    requires kind.Phi?
  {
    Phi(kind.incomings - {k}, kind.idx)
  }

  /** Incoming entries are numbered below the phi's counter. */
  predicate Indexed(kind: InstKind) {
    kind.Phi? ==> forall k :: k in kind.incomings ==> k < kind.idx
  }

  lemma IncomingExact(kind: InstKind, b: BlockId, v: ValueId)
    requires kind.Phi? && Indexed(kind)
    ensures var r := AddIncoming(kind, b, v);
      && PhiIncomingVal(kind.idx) !in ValueOperands(kind) && PhiIncomingBlock(kind.idx) !in BlockOperands(kind)
      && ValueOperands(r) == ValueOperands(kind)[PhiIncomingVal(kind.idx) := v]
      && BlockOperands(r) == BlockOperands(kind)[PhiIncomingBlock(kind.idx) := b]
      && Indexed(r)
  {
    hide IncomingValues, IncomingBlocks, Indexed;
    IncomingsGrow(kind.incomings, kind.idx, PhiIncoming(b, v));
    StaysIndexed(kind, b, v);
  }

  lemma StaysIndexed(kind: InstKind, b: BlockId, v: ValueId)
    requires kind.Phi? && Indexed(kind)
    ensures kind.idx !in kind.incomings && Indexed(AddIncoming(kind, b, v))
  {
  }

  lemma IncomingsGrow(incomings: map<nat, PhiIncoming>, k: nat, inc: PhiIncoming)
    ensures IncomingValues(incomings[k := inc]) == IncomingValues(incomings)[PhiIncomingVal(k) := inc.value]
    ensures IncomingBlocks(incomings[k := inc]) == IncomingBlocks(incomings)[PhiIncomingBlock(k) := inc.block]
  {
    hide IncomingValues, IncomingBlocks;
  }

  lemma DropExact(kind: InstKind, k: nat)
    requires kind.Phi? && k in kind.incomings
    ensures var r := DropIncoming(kind, k);
      && ValueOperands(r) == ValueOperands(kind) - {PhiIncomingVal(k)}
      && BlockOperands(r) == BlockOperands(kind) - {PhiIncomingBlock(k)}
      && (Indexed(kind) ==> Indexed(r))
  {
    IncomingsShrink(kind.incomings, k);
    hide IncomingValues, IncomingBlocks;
  }

  lemma IncomingsShrink(incomings: map<nat, PhiIncoming>, k: nat)
    ensures IncomingValues(incomings - {k}) == IncomingValues(incomings) - {PhiIncomingVal(k)}
    ensures IncomingBlocks(incomings - {k}) == IncomingBlocks(incomings) - {PhiIncomingBlock(k)}
  {
    hide IncomingValues, IncomingBlocks;
  }

  lemma TerminatorIsNoPhi(kind: InstKind)
    requires IsTerminator(kind)
    ensures !kind.Phi?
  {
  }
}
