/** What algebraic simplification may not miss (src/ir/opt/algebraic.rs:79-327), as equations on the
    values of the operands. */
module Identities {
  import opened Bits
  import opened CoreInts
  import opened Ir
  import opened Simplify

  /** The operand is this integer, as a constant of this width. */
  predicate NamesInt(consts: seq<ConstData>, v: ValueId, w: nat, n: int) {
    v.ConstValue? && v.id < |consts| && consts[v.id].IntConst? && consts[v.id].c.width == w && consts[v.id].c.value == n
  }

  /** The operand is no constant whose value is known. */
  predicate Unknown(consts: seq<ConstData>, v: ValueId) {
    AsIntConst(consts, v).None?
  }

  ghost predicate Becomes(r: Option<Outcome>, w: nat, n: nat) {
    r == Some(Fresh(IntConst(CoreInt(n, w), IntType(w))))
  }

  /** Two constants fold whenever their operation is defined. */
  lemma ConstantsFold(consts: seq<ConstData>, op: BinaryOpcode, lhs: ValueId, rhs: ValueId, w: nat, a: CoreInt,
                      b: CoreInt)
    requires Matching(consts, lhs, rhs) && SameWidth(a, b) && a.width == w
    requires NamesInt(consts, lhs, w, a.value) && NamesInt(consts, rhs, w, b.value) && Fold(op, a, b).Some?
    ensures Becomes(SimplifyBinary(consts, op, lhs, rhs, IntType(w)), w, Fold(op, a, b).value.value)
  {
    hide Fold;
  }

  /** The identities on the right: x + 0, x - 0, x | 0, x ^ 0, x << 0, x >> 0, x * 1, x / 1 and x & ones are
      x; x * 0, x & 0 and x % 1 are 0; x | ones is ones. */
  lemma RightIdentities(consts: seq<ConstData>, op: BinaryOpcode, x: ValueId, c: ValueId, w: nat, n: nat)
    requires 1 <= w <= 64 && n < Pow2(w) && Unknown(consts, x) && NamesInt(consts, c, w, n)
    ensures var r := SimplifyBinary(consts, op, x, c, IntType(w));
      && (n == 0 && (op.Add? || op.Sub? || op.Or? || op.Xor? || op.Shl? || op.LShr? || op.AShr?) ==>
            r == Some(Existing(x)))
      && (n == 1 && (op.Mul? || op.UDiv? || op.SDiv?) ==> r == Some(Existing(x)))
      && (n == Pow2(w) - 1 && op.And? ==> r == Some(Existing(x)))
      && (n == 0 && (op.Mul? || op.And?) ==> Becomes(r, w, 0))
      && (n == 1 && (op.URem? || op.SRem?) ==> Becomes(r, w, 0))
      && (n == Pow2(w) - 1 && op.Or? ==> Becomes(r, w, Pow2(w) - 1))
  {
    hide Low, Pow2, Bitwise;
    OnesAreOnes(w);
    IsUnknown(consts, x);
    LowSmall(w, 0);
    LowSmall(w, Pow2(w) - 1);
  }

  lemma OnesAreOnes(w: nat)
    requires 1 <= w <= 64
    ensures Bitwise(AndOp, Pow2(w) - 1, OnesMask(w)) == OnesMask(w) == Pow2(w) - 1 && Pow2(w) - 1 != 0
  {
    BitwiseOnes(w, Pow2(w) - 1);
    assert Pow2(w) == 2 * Pow2(w - 1);
  }

  /** The identities on the left: 0 + x, 0 | x, 0 ^ x, 1 * x and ones & x are x; 0 * x and 0 & x are 0;
      ones | x is ones; and zero divided or shifted is taken to be zero. */
  lemma LeftIdentities(consts: seq<ConstData>, op: BinaryOpcode, c: ValueId, x: ValueId, w: nat, n: nat)
    requires 1 <= w <= 64 && n < Pow2(w) && Unknown(consts, x) && NamesInt(consts, c, w, n)
    ensures var r := SimplifyBinary(consts, op, c, x, IntType(w));
      && (n == 0 && (op.Add? || op.Or? || op.Xor?) ==> r == Some(Existing(x)))
      && (n == 1 && op.Mul? ==> r == Some(Existing(x)))
      && (n == Pow2(w) - 1 && op.And? ==> r == Some(Existing(x)))
      && (n == 0 && !op.Add? && !op.Sub? && !op.Or? && !op.Xor? ==> Becomes(r, w, 0))
      && (n == Pow2(w) - 1 && op.Or? ==> Becomes(r, w, Pow2(w) - 1))
  {
    hide Low, Pow2, Bitwise;
    OnesAreOnes(w);
    IsUnknown(consts, x);
    LowSmall(w, 0);
    LowSmall(w, Pow2(w) - 1);
  }

  /** x & x and x | x are x; x - x and x ^ x are 0; a comparison of x with itself is what it must be. */
  lemma SelfIdentities(consts: seq<ConstData>, op: BinaryOpcode, code: ICmpCode, x: ValueId, w: nat)
    requires 1 <= w <= 64 && Unknown(consts, x)
    ensures op.And? || op.Or? ==> SimplifyBinary(consts, op, x, x, IntType(w)) == Some(Existing(x))
    ensures op.Sub? || op.Xor? ==> Becomes(SimplifyBinary(consts, op, x, x, IntType(w)), w, 0)
    ensures Becomes(SimplifyICmp(consts, code, x, x, IntType(1)), 1,
              if code.Eq? || code.Uge? || code.Ule? || code.Sge? || code.Sle? then 1 else 0)
  {
    LowSmall(w, 0);
    LowSmall(1, 0);
    LowSmall(1, 1);
    assert Pow2(1) == 2;
    IsUnknown(consts, x);
    hide Low, Pow2, Bitwise;
  }

  lemma IsUnknown(consts: seq<ConstData>, x: ValueId)
    requires Unknown(consts, x)
    ensures !IsZeroConst(consts, x) && !IsOneConst(consts, x) && forall ty :: !IsAllOnesConst(consts, x, ty)
  {
  }

  /** Comparisons of two constants, selections between equal values or by a constant, and casts of
      constants are always folded. */
  lemma OthersFold(consts: seq<ConstData>, d: InstData, w: nat, n: nat, c: ValueId)
    requires 1 <= w <= 64 && n < Pow2(w) && NamesInt(consts, c, w, n) && Foldable(consts, d)
    ensures d.kind.ICmp? && d.kind.lhs == c && AsIntConst(consts, d.kind.rhs).Some? && d.ty == IntType(1) ==>
      SimplifyInst(consts, d).Some?
    ensures d.kind.Select? && (d.kind.thenVal == d.kind.elseVal) ==>
      SimplifyInst(consts, d) == Some(Existing(d.kind.thenVal))
    ensures d.kind.Select? && d.kind.condVal == c && d.kind.thenVal != d.kind.elseVal ==>
      SimplifyInst(consts, d) == Some(Existing(if n != 0 then d.kind.thenVal else d.kind.elseVal))
    ensures (d.kind.Trunc? || d.kind.Zext? || d.kind.Sext?) && d.kind.value == c && d.ty.IntType? ==>
      SimplifyInst(consts, d).Some?
  {
    hide Pow2;
  }

  /** A phi whose entries all name one value is that value, and null as an integer is zero. */
  lemma UniformPhis(consts: seq<ConstData>, d: InstData, v: ValueId, w: nat)
    requires 1 <= w <= 64 && Foldable(consts, d)
    ensures d.kind.Phi? && AllName(d.kind, v) ==> SimplifyInst(consts, d) == Some(Existing(v))
    ensures d.kind.PtrToInt? && NamesNull(consts, d.kind.ptr) && d.ty == IntType(w) ==>
      Becomes(SimplifyInst(consts, d), w, 0)
  {
    LowSmall(w, 0);
    hide Low, Pow2;
  }

  predicate AllName(kind: InstKind, v: ValueId)
    requires kind.Phi?
  {
    kind.incomings != map[] && forall k :: k in kind.incomings ==> kind.incomings[k].value == v
  }

  predicate NamesNull(consts: seq<ConstData>, v: ValueId) {
    v.ConstValue? && v.id < |consts| && consts[v.id].NullConst?
  }
}
