/** The compiler's compile-time integers: a bit pattern with a width of 1 to 64 bits
    (src/ir/core_int.rs). */
module CoreInts {
  import opened Bits

  datatype Option<+T> = None | Some(value: T)

  datatype CoreInt = CoreInt(value: nat, width: nat) {
    predicate Valid() {
      1 <= width <= 64 && value < Pow2(width)
    }

    /** The signed reading; a one-bit integer reads as 0 or 1, never as -1. */
    function AsI64(): int
      requires Valid()
    {
      if width == 1 then value else Signed(width, value)
    }

    function TruncTo(w: nat): (r: CoreInt)
      requires Valid() && 1 <= w <= width
      ensures r.Valid()
    {
      New(value, w)
    }

    function ZeroExtend(w: nat): (r: CoreInt)
      requires Valid() && width <= w <= 64
      ensures r.Valid()
    {
      New(value, w)
    }

    /** Sets every bit above the old width when the sign bit is set, then masks. */
    function SignExtend(w: nat): (r: CoreInt)
      requires Valid() && width <= w <= 64
      ensures r.Valid()
    {
      if w == width then this
      else if (value / Pow2(width - 1)) % 2 == 1 then New(value + (Pow2(64) - Pow2(width)), w)
      else New(value, w)
    }
  }

  /** A pattern of at most 64 bits cut down to w bits. */
  function New(v: int, w: nat): (r: CoreInt)
    requires 1 <= w <= 64
    ensures r.Valid() && r.width == w
  {
    CoreInt(Low(w, v), w)
  }

  /** A signed 64-bit number cut down to w bits. */
  function FromSigned(v: int, w: nat): (r: CoreInt)
    requires 1 <= w <= 64
    ensures r.Valid() && r.width == w
  {
    New(Low(64, v), w)
  }

  datatype BinaryOpcode = Add | Sub | Mul | UDiv | SDiv | URem | SRem | Shl | LShr | AShr | And | Or | Xor

  datatype ICmpCode = Eq | Ne | Ugt | Uge | Ult | Ule | Sgt | Sge | Slt | Sle

  ghost predicate SameWidth(a: CoreInt, b: CoreInt) {
    a.Valid() && b.Valid() && a.width == b.width
  }

  const I64_MIN: int := -0x8000_0000_0000_0000

  /** Division of two 64-bit signed numbers, refused on a zero divisor and on overflow. */
  function CheckedDiv(a: int, b: int): Option<int> {
    if b == 0 || (a == I64_MIN && b == -1) then None else Some(TruncDiv(a, b))
  }

  function CheckedRem(a: int, b: int): Option<int> {
    if b == 0 || (a == I64_MIN && b == -1) then None else Some(TruncRem(a, b))
  }

  /** Constant folding of one binary operator (src/ir/opt/algebraic.rs:422-448). */
  function Fold(op: BinaryOpcode, a: CoreInt, b: CoreInt): (r: Option<CoreInt>)
    requires SameWidth(a, b)
    ensures r.Some? ==> r.value.Valid() && r.value.width == a.width
  {
    var w := a.width;
    match op
    case Add => Some(New(Low(64, a.value + b.value), w))
    case Sub => Some(New(Low(64, a.value - b.value), w))
    case Mul => Some(New(Low(64, a.value * b.value), w))
    case UDiv => if b.value == 0 then None else Some(New(a.value / b.value, w))
    case URem => if b.value == 0 then None else Some(New(a.value % b.value, w))
    case SDiv =>
      var q := CheckedDiv(a.AsI64(), b.AsI64());
      if q.None? then None else Some(FromSigned(q.value, w))
    case SRem =>
      var q := CheckedRem(a.AsI64(), b.AsI64());
      if q.None? then None else Some(FromSigned(q.value, w))
    case Shl => if b.value >= w then None else Some(New(Low(64, a.value * Pow2(b.value)), w))
    case LShr => if b.value >= w then None else Some(New(a.value / Pow2(b.value), w))
    case AShr => if b.value >= w then None else Some(FromSigned(a.AsI64() / Pow2(b.value), w))
    case And => Some(New(Bitwise(AndOp, a.value, b.value), w))
    case Or => Some(New(Bitwise(OrOp, a.value, b.value), w))
    case Xor => Some(New(Bitwise(XorOp, a.value, b.value), w))
  }

  /** When folding gives a result: divisors that are not zero, quotients that do not overflow 64 bits,
      amounts below the width. */
  lemma FoldDefined(op: BinaryOpcode, a: CoreInt, b: CoreInt)
    requires SameWidth(a, b)
    ensures Fold(op, a, b).Some? <==> match op
      case UDiv => b.value != 0
      case URem => b.value != 0
      case SDiv => b.AsI64() != 0 && !(a.AsI64() == I64_MIN && b.AsI64() == -1)
      case SRem => b.AsI64() != 0 && !(a.AsI64() == I64_MIN && b.AsI64() == -1)
      case Shl => b.value < a.width
      case LShr => b.value < a.width
      case AShr => b.value < a.width
      case _ => true
  {
  }

  predicate Compare(op: ICmpCode, a: CoreInt, b: CoreInt)
    requires SameWidth(a, b)
  {
    match op
    case Eq => a.value == b.value
    case Ne => a.value != b.value
    case Ugt => a.value > b.value
    case Uge => a.value >= b.value
    case Ult => a.value < b.value
    case Ule => a.value <= b.value
    case Sgt => a.AsI64() > b.AsI64()
    case Sge => a.AsI64() >= b.AsI64()
    case Slt => a.AsI64() < b.AsI64()
    case Sle => a.AsI64() <= b.AsI64()
  }

  // ---------------------------------------------------------------- laws

  /** Wrapping through 64 bits before masking loses nothing: the folds are exact modulo 2^w. */
  lemma FoldWraps(op: BinaryOpcode, a: CoreInt, b: CoreInt)
    requires SameWidth(a, b) && (op == Add || op == Sub || op == Mul || op == Shl)
    requires Fold(op, a, b).Some?
    ensures Fold(op, a, b).value.value == Low(a.width, match op
        case Add => a.value + b.value
        case Sub => a.value - b.value
        case Mul => a.value * b.value
        case _ => a.value * Pow2(b.value))
  {
    LowOfLow(a.width, 64, a.value + b.value);
    LowOfLow(a.width, 64, a.value - b.value);
    LowOfLow(a.width, 64, a.value * b.value);
    LowOfLow(a.width, 64, a.value * Pow2(b.value));
  }

  /** Setting every bit above n of a negative pattern, up to w <= 64 bits, keeps its value. */
  lemma HighOnesKeepValue(n: nat, w: nat, v: nat)
    requires 1 <= n < w <= 64 && Pow2(n - 1) <= v < Pow2(n)
    ensures Signed(w, Low(w, v + (Pow2(64) - Pow2(n)))) == v - Pow2(n)
    ensures Low(n, v + (Pow2(64) - Pow2(n))) == v
  {
    var k := v - Pow2(n);
    LowPlusPow64(w, k);
    LowPlusPow64(n, k);
    assert v + (Pow2(64) - Pow2(n)) == k + Pow2(64);
    LowEqual(n, k, v, -1);
    LowSmall(n, v);
    LowOfLow(w, w, k);
    PowMonotone(n, w - 1);
    SignedUnique(w, Low(w, k), k);
  }

  lemma LowPlusPow64(w: nat, k: int)
    requires w <= 64
    ensures Low(w, k + Pow2(64)) == Low(w, k)
  {
    PowAdd(64 - w, w);
    LowAddMultiple(w, k, Pow2(64 - w));
  }

  /** Sign extension keeps the two's complement value; truncating back restores the pattern. */
  lemma SignExtendKeepsValue(a: CoreInt, w: nat)
    requires a.Valid() && a.width <= w <= 64
    ensures Signed(w, a.SignExtend(w).value) == Signed(a.width, a.value)
    ensures a.SignExtend(w).TruncTo(a.width) == a
  {
    var n := a.width;
    LowSmall(n, a.value);
    if w > n {
      PowMonotone(n, w - 1);
      PowMonotone(n, w);
      if a.value < Pow2(n - 1) {
        DivModUnique(a.value, Pow2(n - 1), 0, a.value);
        LowSmall(w, a.value);
      } else {
        DivModUnique(a.value, Pow2(n - 1), 1, a.value - Pow2(n - 1));
        HighOnesKeepValue(n, w, a.value);
        LowOfLow(n, w, a.value + (Pow2(64) - Pow2(n)));
      }
    }
  }

  /** Zero extension keeps the unsigned value; truncating back restores the pattern. */
  lemma ZeroExtendKeepsValue(a: CoreInt, w: nat)
    requires a.Valid() && a.width <= w <= 64
    ensures a.ZeroExtend(w).value == a.value && a.ZeroExtend(w).TruncTo(a.width) == a
  {
    PowMonotone(a.width, w);
    LowSmall(w, a.value);
    LowSmall(a.width, a.value);
  }

  /** The folds the value numbering pass reorders really are commutative. */
  lemma FoldCommutes(op: BinaryOpcode, a: CoreInt, b: CoreInt)
    requires SameWidth(a, b) && (op == Add || op == Mul || op == And || op == Or || op == Xor)
    ensures Fold(op, a, b) == Fold(op, b, a)
  {
    BitwiseCommutes(AndOp, a.value, b.value);
    BitwiseCommutes(OrOp, a.value, b.value);
    BitwiseCommutes(XorOp, a.value, b.value);
    assert a.value * b.value == b.value * a.value;
  }

  lemma {:induction false} BitwiseCommutes(op: BitOp, x: nat, y: nat)
    ensures Bitwise(op, x, y) == Bitwise(op, y, x)
    decreases x + y
  {
    if x + y > 0 {
      BitwiseCommutes(op, x / 2, y / 2);
    }
  }

  /** Bitwise operators stay within the width of their operands. */
  lemma {:induction false} BitwiseBound(op: BitOp, k: nat, x: nat, y: nat)
    requires x < Pow2(k) && y < Pow2(k)
    ensures Bitwise(op, x, y) < Pow2(k)
    decreases k
  {
    if k > 0 {
      BitwiseBound(op, k - 1, x / 2, y / 2);
    }
  }

  /** Bitwise operators work on each bit separately, so they commute with truncation. */
  lemma {:induction false} BitwiseLow(op: BitOp, k: nat, x: nat, y: nat)
    ensures Low(k, Bitwise(op, x, y)) == Bitwise(op, Low(k, x), Low(k, y))
    decreases k
  {
    if k == 0 {
    } else {
      BitwiseLow(op, k - 1, x / 2, y / 2);
      LowHalves(k, x);
      LowHalves(k, y);
      LowHalves(k, Bitwise(op, x, y));
      var lx, ly := Low(k, x), Low(k, y);
      assert Bitwise(op, x, y) / 2 == Bitwise(op, x / 2, y / 2) && Bitwise(op, x, y) % 2 == Bit(op, x % 2, y % 2);
      assert Bitwise(op, lx, ly) / 2 == Bitwise(op, lx / 2, ly / 2)
        && Bitwise(op, lx, ly) % 2 == Bit(op, lx % 2, ly % 2);
    }
  }

  lemma LowHalves(k: nat, x: nat)
    requires k > 0
    ensures Low(k, x) / 2 == Low(k - 1, x / 2) && Low(k, x) % 2 == x % 2
  {
    var m := Pow2(k - 1);
    var q := (x / 2) / m;
    assert x / 2 == q * m + Low(k - 1, x / 2);
    assert x == q * (2 * m) + (2 * Low(k - 1, x / 2) + x % 2);
    DivModUnique(x, 2 * m, q, 2 * Low(k - 1, x / 2) + x % 2);
  }
}
