/** Machine words as integers, powers of two, and the shifts built from them. */
module Words {
  const TWO9: int := 0x200
  const TWO10: int := 0x400
  const TWO32: int := 0x1_0000_0000
  const TWO52: int := 0x10_0000_0000_0000
  const TWO53: int := 0x20_0000_0000_0000
  const TWO61: int := 0x2000_0000_0000_0000
  const TWO62: int := 0x4000_0000_0000_0000
  const TWO63: int := 0x8000_0000_0000_0000
  const TWO64: int := 0x1_0000_0000_0000_0000

  type u32 = x: int | 0 <= x < TWO32
  type u64 = x: int | 0 <= x < TWO64

  function Pow2(k: nat): (p: nat)
    ensures p > 0
  {
    if k == 0 then 1 else 2 * Pow2(k - 1)
  }

  /** The logical shifts of C on an unsigned 64-bit operand. */
  function Shl64(a: u64, k: nat): u64 {
    a * Pow2(k) % TWO64
  }

  function Shr64(a: u64, k: nat): u64
  {
    DivShrinks(a, Pow2(k));
    a / Pow2(k)
  }

  /** `x | b` for a bit b. */
  function OrBit(x: int, b: bool): int {
    if b && x % 2 == 0 then x + 1 else x
  }

  lemma DivShrinks(a: int, d: int)
    requires a >= 0 && d > 0
    ensures 0 <= a / d <= a
  {
    var q := a / d;
    assert a == d * q + a % d;
    if q < 0 {
      MulMono(q, -1, d);
    } else {
      MulMono(1, d, q);
    }
  }

  lemma MulMono(a: int, b: int, c: int)
    requires a <= b && 0 <= c
    ensures a * c <= b * c
  {
  }

  /** Division is pinned down by its quotient and remainder. */
  lemma DivUnique(x: int, d: int, q: int, r: int)
    requires d > 0 && x == q * d + r && 0 <= r < d
    ensures x / d == q && x % d == r
  {
    var q', r' := x / d, x % d;
    assert x == q' * d + r' by { assert x == d * q' + r'; }
    assert (q - q') * d == r' - r;
    if q - q' >= 1 {
      MulMono(1, q - q', d);
    } else if q - q' <= -1 {
      MulMono(q - q', -1, d);
    }
  }

  ghost predicate MultipleOf(x: int, d: int)
    requires d > 0
  {
    x % d == 0
  }

  lemma IsMultiple(x: int, d: int, k: int)
    requires d > 0 && x == k * d
    ensures MultipleOf(x, d)
  {
    DivUnique(x, d, k, 0);
  }

  lemma MultipleQuotient(x: int, d: int)
    requires d > 0 && MultipleOf(x, d)
    ensures x == d * (x / d)
  {
  }

  /** Sums, differences and divisors of multiples. */
  lemma MultipleSum(x: int, y: int, d: int)
    requires d > 0 && MultipleOf(x, d) && MultipleOf(y, d)
    ensures MultipleOf(x + y, d) && MultipleOf(x - y, d)
  {
    MultipleQuotient(x, d);
    MultipleQuotient(y, d);
    IsMultiple(x + y, d, x / d + y / d);
    IsMultiple(x - y, d, x / d - y / d);
  }

  lemma {:induction false} Pow2Add(a: nat, b: nat)
    ensures Pow2(a + b) == Pow2(a) * Pow2(b)
  {
    if b > 0 {
      Pow2Add(a, b - 1);
      assert Pow2(a + b) == 2 * Pow2(a + (b - 1));
    }
  }

  lemma {:induction false} Pow2Mono(a: nat, b: nat)
    requires a <= b
    ensures Pow2(a) <= Pow2(b)
    decreases b - a
  {
    if a < b {
      Pow2Mono(a + 1, b);
    }
  }

  lemma {:induction false} Pow2Values()
    ensures Pow2(1) == 2 && Pow2(9) == TWO9 && Pow2(10) == TWO10 && Pow2(11) == 2048
    ensures Pow2(20) == 0x10_0000 && Pow2(32) == TWO32
    ensures Pow2(52) == TWO52 && Pow2(53) == TWO53 && Pow2(61) == TWO61
    ensures Pow2(62) == TWO62 && Pow2(63) == TWO63 && Pow2(64) == TWO64
  {
    assert Pow2(4) == 16;
    assert Pow2(8) == 256 by { Pow2Add(4, 4); }
    assert Pow2(9) == TWO9;
    assert Pow2(10) == TWO10;
    assert Pow2(16) == 65536 by { Pow2Add(8, 8); }
    assert Pow2(20) == 0x10_0000 by { Pow2Add(16, 4); }
    assert Pow2(32) == TWO32 by { Pow2Add(16, 16); }
    assert Pow2(52) == TWO52 by { Pow2Add(32, 20); }
    assert Pow2(60) == 0x1000_0000_0000_0000 by { Pow2Add(52, 8); }
  }
}
