/** Fixed-width integers as mathematical integers: powers of two, low bits, two's complement
    and bitwise operators on bit patterns. */
module Bits {
  function Pow2(n: nat): (r: int)
    ensures r >= 1
  {
    if n == 0 then 1 else 2 * Pow2(n - 1)
  }

  /** The low k bits of x, as an unsigned pattern. */
  function Low(k: nat, x: int): nat {
    x % Pow2(k)
  }

  /** The low k bits of x read as a two's complement number. */
  function Signed(k: nat, x: int): int
    requires k >= 1
  {
    if Low(k, x) < Pow2(k - 1) then Low(k, x) else Low(k, x) - Pow2(k)
  }

  /** Division rounding toward zero, as in Rust and in the RISC-V M extension. */
  function TruncDiv(a: int, b: int): int
    requires b != 0
  {
    if a >= 0 then a / b else -((-a) / b)
  }

  function TruncRem(a: int, b: int): int
    requires b != 0
  {
    a - TruncDiv(a, b) * b
  }

  datatype BitOp = AndOp | OrOp | XorOp

  function Bit(op: BitOp, a: nat, b: nat): nat
    requires a < 2 && b < 2
  {
    match op
    case AndOp => if a == 1 && b == 1 then 1 else 0
    case OrOp => if a == 1 || b == 1 then 1 else 0
    case XorOp => if a != b then 1 else 0
  }

  function Bitwise(op: BitOp, x: nat, y: nat): nat
    decreases x + y
  {
    if x == 0 && y == 0 then 0
    else 2 * Bitwise(op, x / 2, y / 2) + Bit(op, x % 2, y % 2)
  }

  lemma PowAdd(a: nat, b: nat)
    ensures Pow2(a + b) == Pow2(a) * Pow2(b)
  {
    if a == 0 {
    } else {
      PowAdd(a - 1, b);
      assert Pow2(a + b) == 2 * Pow2(a - 1 + b);
      assert 2 * (Pow2(a - 1) * Pow2(b)) == (2 * Pow2(a - 1)) * Pow2(b);
    }
  }

  lemma PowMonotone(a: nat, b: nat)
    requires a <= b
    ensures Pow2(a) <= Pow2(b)
  {
    if a < b {
      PowMonotone(a, b - 1);
    }
  }

  lemma Pow32()
    ensures Pow2(31) == 0x8000_0000
    ensures Pow2(32) == 0x1_0000_0000
  {
    assert Pow2(8) == 256;
    PowAdd(8, 8);
    PowAdd(16, 16);
    PowAdd(16, 8);
    assert Pow2(7) == 128;
    PowAdd(24, 7);
  }

  lemma Pow64()
    ensures Pow2(63) == 0x8000_0000_0000_0000
    ensures Pow2(64) == 0x1_0000_0000_0000_0000
  {
    Pow32();
    PowAdd(32, 32);
    PowAdd(31, 32);
  }

  /** Uniqueness of Euclidean division, the workhorse of the arithmetic below. */
  lemma DivModUnique(x: int, m: int, q: int, r: int)
    requires m > 0 && 0 <= r < m && x == q * m + r
    ensures x / m == q && x % m == r
  {
    var q', r' := x / m, x % m;
    assert (q - q') * m == r' - r;
    if q > q' {
      MulMonotone(1, q - q', m);
    } else if q < q' {
      MulMonotone(1, q' - q, m);
    }
  }

  lemma MulMonotone(a: int, b: int, m: int)
    requires a <= b && m >= 0
    ensures a * m <= b * m
  {
  }

  lemma ModAddMultiple(x: int, k: int, m: int)
    requires m > 0
    ensures (x + k * m) % m == x % m
  {
    DivModUnique(x + k * m, m, x / m + k, x % m);
  }

  lemma LowInRange(k: nat, x: int)
    ensures Low(k, x) < Pow2(k)
  {
    hide Pow2;
  }

  lemma LowAddMultiple(k: nat, x: int, n: int)
    ensures Low(k, x + n * Pow2(k)) == Low(k, x)
  {
    ModAddMultiple(x, n, Pow2(k));
  }

  lemma LowSmall(k: nat, x: int)
    requires 0 <= x < Pow2(k)
    ensures Low(k, x) == x
  {
    DivModUnique(x, Pow2(k), 0, x);
  }

  /** Two integers have the same low k bits exactly when they differ by a multiple of 2^k. */
  lemma LowEqual(k: nat, x: int, y: int, n: int)
    requires x == y + n * Pow2(k)
    ensures Low(k, x) == Low(k, y)
  {
    LowAddMultiple(k, y, n);
  }

  lemma LowOfLow(k: nat, j: nat, x: int)
    requires k <= j
    ensures Low(k, Low(j, x)) == Low(k, x)
  {
    PowAdd(k, j - k);
    var q := x / Pow2(j);
    assert x == q * Pow2(j) + Low(j, x);
    assert q * Pow2(j) == (q * Pow2(j - k)) * Pow2(k);
    LowEqual(k, x, Low(j, x), q * Pow2(j - k));
  }

  lemma LowAdd(k: nat, x: int, y: int, x': int, y': int)
    requires Low(k, x) == Low(k, x') && Low(k, y) == Low(k, y')
    ensures Low(k, x + y) == Low(k, x' + y')
    ensures Low(k, x - y) == Low(k, x' - y')
  {
    var m := Pow2(k);
    var a, b := x / m - x' / m, y / m - y' / m;
    assert x == x' + a * m;
    assert y == y' + b * m;
    assert x + y == (x' + y') + (a + b) * m;
    assert x - y == (x' - y') + (a - b) * m;
    LowEqual(k, x + y, x' + y', a + b);
    LowEqual(k, x - y, x' - y', a - b);
  }

  lemma LowMul(k: nat, x: int, y: int, x': int, y': int)
    requires Low(k, x) == Low(k, x') && Low(k, y) == Low(k, y')
    ensures Low(k, x * y) == Low(k, x' * y')
  {
    var m := Pow2(k);
    var a, b := x / m - x' / m, y / m - y' / m;
    assert x == x' + a * m;
    assert y == y' + b * m;
    assert x * y == x' * y' + (x' * b + a * y' + a * b * m) * m;
    LowEqual(k, x * y, x' * y', x' * b + a * y' + a * b * m);
  }

  lemma LowSigned(k: nat, x: int)
    requires k >= 1
    ensures Low(k, Signed(k, x)) == Low(k, x)
    ensures -Pow2(k - 1) <= Signed(k, x) && Signed(k, x) < Pow2(k - 1)
    ensures Signed(k, x) == Signed(k, Low(k, x))
  {
    LowOfLow(k, k, x);
    if Low(k, x) >= Pow2(k - 1) {
      LowEqual(k, Signed(k, x), Low(k, x), -1);
    }
  }

  lemma SignedUnique(k: nat, x: int, v: int)
    requires k >= 1 && -Pow2(k - 1) <= v && v < Pow2(k - 1) && Low(k, v) == Low(k, x)
    ensures Signed(k, x) == v
  {
    if v >= 0 {
      LowSmall(k, v);
    } else {
      LowEqual(k, v, v + Pow2(k), -1);
      LowSmall(k, v + Pow2(k));
    }
  }

  lemma {:induction false} BitwiseZero(op: BitOp, x: nat)
    ensures Bitwise(op, x, 0) == if op.AndOp? then 0 else x
    decreases x
  {
    if x > 0 {
      BitwiseZero(op, x / 2);
    }
  }

  lemma {:induction false} BitwiseOnes(k: nat, x: nat)
    requires x < Pow2(k)
    ensures Bitwise(AndOp, x, Pow2(k) - 1) == x && Bitwise(OrOp, x, Pow2(k) - 1) == Pow2(k) - 1
    decreases k
  {
    if k > 0 {
      assert (Pow2(k) - 1) / 2 == Pow2(k - 1) - 1 && (Pow2(k) - 1) % 2 == 1;
      BitwiseOnes(k - 1, x / 2);
    }
  }

  lemma {:induction false} BitwiseSelf(op: BitOp, x: nat)
    ensures Bitwise(op, x, x) == if op.XorOp? then 0 else x
    decreases x
  {
    if x > 0 {
      BitwiseSelf(op, x / 2);
    }
  }
}
