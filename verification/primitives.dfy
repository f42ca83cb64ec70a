/** The integer building blocks of softfloat: counted shifts, 128-bit words, normalisation, and the quotient estimate. */
module Primitives {
  import opened Words
  import opened Dyadic
  import opened Ieee

  datatype U128 = U128(v64: u64, v0: u64) {
    function Val(): nat {
      v64 * TWO64 + v0
    }
  }

  const TWO128: int := 0x1_0000_0000_0000_0000_0000_0000_0000_0000

  // ---------------------------------------------------------------- sticky shifts

  /** Dividing and keeping a sticky bit stays in the cell of the exact quotient y. */
  lemma JamQuotient(a: nat, d: nat, y: real)
    requires d > 0 && y * d as real == a as real
    ensures SameCell(2, OrBit(a / d, a % d != 0), y)
  {
    hide SameCell, OrBit;
    var q, r := a / d, a % d;
    RealMul(q, d);
    assert a == q * d + r;
    Squeeze(q as real, d as real, r as real, y);
    JamCell(q, r != 0, y);
  }

  lemma Squeeze(q: real, d: real, r: real, y: real)
    requires 0.0 <= r < d && y * d == q * d + r
    ensures q <= y < q + 1.0
    ensures (y == q) <==> (r == 0.0)
  {
    Distribute(q, d);
    RealCompare(y, q, d);
    RealCompare(y, q + 1.0, d);
  }

  lemma JamCell(q: nat, sticky: bool, y: real)
    requires if sticky then q as real < y < (q + 1) as real else y == q as real
    ensures SameCell(2, OrBit(q, sticky), y)
  {
  }

  /** softfloat_shift64RightJam (the source forbids a zero count: primitives.h, "shift counts cannot be zero"). */
  function Shift64RightJam(a: u64, count: nat): u64
    requires 0 < count
  {
    if count < 64 then OrBit(Shr64(a, count), Shl64(a, 64 - count) != 0)
    else if a != 0 then 1 else 0
  }

  /** What a left shift by 64 - c leaves: the c low bits, moved to the top of the word. */
  lemma ShlKeepsLow(a: u64, c: nat)
    requires 0 < c <= 64
    ensures Shl64(a, 64 - c) == a % Pow2(c) * Pow2(64 - c)
  {
    hide Pow2;
    var p, r := Pow2(c), Pow2(64 - c);
    Pow2Add(c, 64 - c);
    Pow2Values();
    var q, m := a / p, a % p;
    SplitProduct(a, p, r, q, m);
    MulMono(m, p - 1, r);
    SubOne(p, r);
    DivUnique(a * r, TWO64, q, m * r);
  }

  lemma SplitProduct(a: int, p: int, r: int, q: int, m: int)
    requires a == p * q + m
    ensures a * r == q * (p * r) + m * r
  {
    assert a * r == (p * q) * r + m * r;
    assert (p * q) * r == q * (p * r);
  }

  lemma SubOne(p: int, r: int)
    ensures (p - 1) * r == p * r - r
  {
  }

  lemma StickyIsRemainder(a: u64, c: nat)
    requires 0 < c < 64
    ensures (Shl64(a, 64 - c) != 0) <==> (a % Pow2(c) != 0)
  {
    hide Pow2, Shl64;
    ShlKeepsLow(a, c);
    var m := a % Pow2(c);
    if m != 0 {
      MulMono(1, m, Pow2(64 - c));
    }
  }

  lemma Shift64Exact(a: u64, count: nat)
    requires 0 < count
    ensures Shift64RightJam(a, count) == OrBit(a / Pow2(count), a % Pow2(count) != 0)
  {
    hide Pow2, Shl64;
    if count < 64 {
      StickyIsRemainder(a, count);
    } else {
      Pow2Mono(64, count);
      Pow2Values();
      DivUnique(a, Pow2(count), 0, a);
    }
  }

  /** shift64RightJam stands for the exact quotient. */
  lemma Shift64Jam(a: u64, count: int)
    requires 0 < count
    ensures SameCell(2, Shift64RightJam(a, count), Ldexp(a as real, -count))
  {
    hide Ldexp, Pow2, Shift64RightJam, SameCell, OrBit;
    Shift64Exact(a, count);
    ShiftedBack(a, count);
    JamQuotient(a, Pow2(count), Ldexp(a as real, -count));
  }

  lemma ShiftedBack(a: int, count: int)
    requires 0 < count
    ensures Ldexp(a as real, -count) * Pow2(count) as real == a as real
  {
    hide TwoTo, Pow2;
    TwoToAdd(-count, count);
    TwoToPow2(count);
    TwoToZero();
    assert TwoTo(-count) * Pow2(count) as real == 1.0;
    Regroup(a as real, TwoTo(-count), Pow2(count) as real);
  }

  lemma LowFieldFits(a64: u64, a0: u64, c: nat)
    requires 0 < c < 64
    ensures Shl64(a64, 64 - c) + Shr64(a0, c) < TWO64
    ensures Shl64(a64, 64 - c) % 2 == 0
  {
    hide Pow2, Shl64;
    ShlKeepsLow(a64, c);
    Pow2Add(c, 64 - c);
    Pow2Values();
    assert Pow2(64 - c) == 2 * Pow2(63 - c) by { Pow2Add(1, 63 - c); }
    FieldFits(a64 % Pow2(c), a0, Pow2(c), Pow2(64 - c), Pow2(63 - c));
  }

  lemma FieldFits(m: int, a0: int, p: int, r: int, h: int)
    requires 0 < p && 0 < r && p * r == TWO64 && r == 2 * h
    requires 0 <= m < p && 0 <= a0 < TWO64
    ensures m * r + a0 / p < TWO64
    ensures m * r % 2 == 0
  {
    MulMono(m, p - 1, r);
    SubOne(p, r);
    DivBelow(a0, p, r);
    assert m * r == 2 * (m * h);
  }

  lemma DivBelow(a: int, p: int, r: int)
    requires 0 <= a < p * r && 0 < p
    ensures a / p < r
  {
    var q := a / p;
    assert a == p * q + a % p;
    if r <= q {
      MulMono(r, q, p);
    }
  }

  /** softfloat_shift128RightJam; the or of two disjoint bit fields is written as a sum. */
  function Shift128RightJam(a64: u64, a0: u64, count: nat): (z: U128)
    requires 0 < count
  {
    if count < 64 then
      LowFieldFits(a64, a0, count);
      U128(Shr64(a64, count), OrBit(Shl64(a64, 64 - count) + Shr64(a0, count), Shl64(a0, 64 - count) != 0))
    else if count < 128 then
      U128(0, OrBit(Shr64(a64, count - 64), a64 % Pow2(count - 64) != 0 || a0 != 0))
    else
      U128(0, if a64 != 0 || a0 != 0 then 1 else 0)
  }

  lemma Shift128Exact(a64: u64, a0: u64, count: nat)
    requires 0 < count
    ensures
      var a := U128(a64, a0).Val();
      Shift128RightJam(a64, a0, count).Val() == OrBit(a / Pow2(count), a % Pow2(count) != 0)
  {
    hide Pow2, Shl64, Shift128RightJam;
    var a := U128(a64, a0).Val();
    if count < 64 {
      Shift128Short(a64, a0, count);
    } else if count < 128 {
      Shift128Long(a64, a0, count);
    } else {
      assert Pow2(128) == TWO128 by { Pow2Add(64, 64); Pow2Values(); }
      Pow2Mono(128, count);
      DivUnique(a, Pow2(count), 0, a);
      Shift128Out(a64, a0, count);
    }
  }

  lemma Shift128Long(a64: u64, a0: u64, count: nat)
    requires 64 <= count < 128
    ensures
      var a := U128(a64, a0).Val();
      Shift128RightJam(a64, a0, count).Val() == OrBit(a / Pow2(count), a % Pow2(count) != 0)
  {
    hide Pow2;
    assert Pow2(count) == Pow2(count - 64) * TWO64 by { Pow2Add(count - 64, 64); Pow2Values(); }
    SplitHigh(a64, a0, Pow2(count - 64));
  }

  lemma Shift128Out(a64: u64, a0: u64, count: nat)
    requires 128 <= count
    ensures Shift128RightJam(a64, a0, count).Val() == OrBit(0, U128(a64, a0).Val() != 0)
  {
  }

  lemma Shift128Short(a64: u64, a0: u64, count: nat)
    requires 0 < count < 64
    ensures
      var a := U128(a64, a0).Val();
      Shift128RightJam(a64, a0, count).Val() == OrBit(a / Pow2(count), a % Pow2(count) != 0)
  {
    hide Pow2, Shl64;
    LowFieldFits(a64, a0, count);
    StickyIsRemainder(a0, count);
    ShlKeepsLow(a64, count);
    assert Pow2(count) * Pow2(64 - count) == TWO64 by { Pow2Add(count, 64 - count); Pow2Values(); }
    SplitShift(a64, a0, Pow2(count), Pow2(64 - count));
    OrBitHigh(a64 / Pow2(count), Shl64(a64, 64 - count) + Shr64(a0, count), a0 % Pow2(count) != 0);
  }

  lemma OrBitHigh(high: int, low: int, b: bool)
    ensures OrBit(high * TWO64 + low, b) == high * TWO64 + OrBit(low, b)
  {
  }

  lemma SplitShift(a64: int, a0: int, p: int, r: int)
    requires 0 <= a64 && 0 <= a0 && p * r == TWO64 && 0 < p && 0 < r
    ensures (a64 * TWO64 + a0) / p == (a64 / p) * TWO64 + (a64 % p) * r + a0 / p
    ensures (a64 * TWO64 + a0) % p == a0 % p
  {
    var q, m := a64 / p, a64 % p;
    assert a64 * TWO64 == (a64 * r) * p by { assert a64 * (p * r) == (a64 * r) * p; }
    SplitProduct(a64, p, r, q, m);
    assert (a64 * r + a0 / p) * p == (a64 * r) * p + (a0 / p) * p;
    DivUnique(a64 * TWO64 + a0, p, a64 * r + a0 / p, a0 % p);
  }

  lemma SplitHigh(a64: int, a0: int, p: int)
    requires 0 <= a64 && 0 <= a0 < TWO64 && 0 < p
    ensures p * TWO64 > 0
    ensures (a64 * TWO64 + a0) / (p * TWO64) == a64 / p
    ensures ((a64 * TWO64 + a0) % (p * TWO64) != 0) <==> (a64 % p != 0 || a0 != 0)
  {
    var q, m := a64 / p, a64 % p;
    assert a64 == p * q + m;
    assert a64 * TWO64 == q * (p * TWO64) + m * TWO64;
    DivUnique(a64 * TWO64 + a0, p * TWO64, q, m * TWO64 + a0);
  }

  /** shift128RightJam stands for the exact quotient. */
  lemma Shift128Jam(a64: u64, a0: u64, count: int)
    requires 0 < count
    ensures SameCell(2, Shift128RightJam(a64, a0, count).Val(), Ldexp(U128(a64, a0).Val() as real, -count))
  {
    hide Ldexp, Pow2, Shift128RightJam, SameCell, OrBit;
    var a := U128(a64, a0).Val();
    Shift128Exact(a64, a0, count);
    ShiftedBack(a, count);
    JamQuotient(a, Pow2(count), Ldexp(a as real, -count));
  }

  /** softfloat_shift64ExtraRightJam, for the zero `extra` every caller in scope passes. */
  function Shift64ExtraRightJam(a: u64, count: nat): (z: U128)
    requires 0 < count
  {
    if count < 64 then U128(Shr64(a, count), Shl64(a, 64 - count))
    else U128(0, if count == 64 then a else if a != 0 then 1 else 0)
  }

  function ShortShift64RightJam(a: u64, count: nat): u64
    requires 0 < count < 64
  {
    OrBit(Shr64(a, count), a % Pow2(count) != 0)
  }

  // ---------------------------------------------------------------- 128-bit words

  function Add128(a: U128, b: U128): (z: U128) {
    var v0 := (a.v0 + b.v0) % TWO64;
    var v64 := (a.v64 + b.v64) % TWO64;
    U128((v64 + if v0 < a.v0 then 1 else 0) % TWO64, v0)
  }

  function Sub128(a: U128, b: U128): (z: U128) {
    var v0 := (a.v0 - b.v0) % TWO64;
    var v64 := (a.v64 - b.v64) % TWO64;
    U128((v64 - if a.v0 < b.v0 then 1 else 0) % TWO64, v0)
  }

  lemma Wrap(x: int, k: int)
    requires 0 <= x - k * TWO64 < TWO64
    ensures x % TWO64 == x - k * TWO64
  {
    DivUnique(x, TWO64, k, x - k * TWO64);
  }

  /** add128 and sub128 are addition and subtraction modulo 2^128. */
  lemma Add128Exact(a: U128, b: U128)
    ensures
      var s := a.Val() + b.Val();
      Add128(a, b).Val() == if s < TWO128 then s else s - TWO128
  {
    var c := if a.v0 + b.v0 >= TWO64 then 1 else 0;
    Wrap(a.v0 + b.v0, c);
    var h := if a.v64 + b.v64 >= TWO64 then 1 else 0;
    Wrap(a.v64 + b.v64, h);
    var v64 := a.v64 + b.v64 - h * TWO64 + c;
    Wrap(v64, if v64 >= TWO64 then 1 else 0);
  }

  lemma Sub128Exact(a: U128, b: U128)
    ensures
      var d := a.Val() - b.Val();
      Sub128(a, b).Val() == if 0 <= d then d else d + TWO128
  {
    var c := if a.v0 < b.v0 then 1 else 0;
    Wrap(a.v0 - b.v0, -c);
    var h := if a.v64 < b.v64 then 1 else 0;
    Wrap(a.v64 - b.v64, -h);
    var v64 := a.v64 - b.v64 + h * TWO64 - c;
    Wrap(v64, if v64 < 0 then -1 else 0);
  }

  /**
   softfloat_shortShift128Left.  A zero count would or the low word into the high one; the
   fused multiply-add does pass zero, but then with an empty low word.
   */
  function ShortShift128Left(a: U128, count: nat): (z: U128)
    requires count < 64 && (count == 0 ==> a.v0 == 0)
  {
    if count == 0 then a
    else
      HighFieldFits(a, count);
      U128(Shl64(a.v64, count) + Shr64(a.v0, 64 - count), Shl64(a.v0, count))
  }

  lemma HighFieldFits(a: U128, count: nat)
    requires 0 < count < 64
    ensures Shl64(a.v64, count) + Shr64(a.v0, 64 - count) < TWO64
  {
    LowFieldFits(a.v64, a.v0, 64 - count);
  }

  lemma ShortShift128Exact(a: U128, count: nat)
    requires count < 64 && (count == 0 ==> a.v0 == 0) && a.Val() * Pow2(count) < TWO128
    ensures ShortShift128Left(a, count).Val() == a.Val() * Pow2(count)
  {
    hide Pow2, Shl64;
    if count == 0 {
      SmallPowers();
    } else {
      assert Pow2(64 - count) * Pow2(count) == TWO64 by { Pow2Add(count, 64 - count); Pow2Values(); }
      ShlKeepsLow(a.v0, 64 - count);
      ShiftedPair(a.v64, a.v0, Pow2(64 - count), Pow2(count));
      ShlSmall(a.v64, count);
    }
  }

  lemma ShiftedPair(v64: u64, v0: u64, r: int, p: int)
    requires 0 < r && 0 < p && r * p == TWO64 && (v64 * TWO64 + v0) * p < TWO128
    ensures v64 * p < TWO64
    ensures (v64 * TWO64 + v0) * p == (v64 * p + v0 / r) * TWO64 + v0 % r * p
  {
    SplitProduct(v0, r, p, v0 / r, v0 % r);
    PairTimes(v64, v0, p);
    MulMono(0, v0, p);
  }

  lemma PairTimes(v64: int, v0: int, p: int)
    ensures (v64 * TWO64 + v0) * p == (v64 * p) * TWO64 + v0 * p
  {
  }

  lemma ShlSmall(a: u64, k: nat)
    requires a * Pow2(k) < TWO64
    ensures Shl64(a, k) == a * Pow2(k)
  {
  }

  // ---------------------------------------------------------------- normalisation

  /** The table softfloat_countLeadingZeros8. */
  function CountLeadingZeros8(b: int): (n: nat)
    requires 0 <= b < 256
    ensures n <= 8 && (b == 0 ==> n == 8)
    ensures b > 0 ==> n < 8 && 128 <= b * Pow2(n) < 256
  {
    if b >= 128 then 0
    else if b >= 64 then 1
    else if b >= 32 then 2
    else if b >= 16 then 3
    else if b >= 8 then 4
    else if b >= 4 then 5
    else if b >= 2 then 6
    else if b == 1 then 7
    else 8
  }

  /** n is the number of leading zero bits of a 64-bit word. */
  ghost predicate LeadingZeros(a: u64, n: nat) {
    if a == 0 then n == 64 else n < 64 && TWO63 <= a * Pow2(n) < TWO64
  }

  /** The number of leading zero bits, found one bit at a time. */
  function Clz(a: u64): (n: nat)
    ensures LeadingZeros(a, n)
    decreases TWO64 - a
  {
    if a == 0 then 64
    else if TWO63 <= a then 0
    else
      ClzStep(a, Clz(2 * a));
      1 + Clz(2 * a)
  }

  lemma ClzStep(a: u64, n: nat)
    requires 0 < a < TWO63 && LeadingZeros(2 * a, n)
    ensures LeadingZeros(a, n + 1)
  {
    hide Pow2;
    Pow2Add(n, 1);
    Pow2Values();
    Regroup3(a, 2, Pow2(n));
    MulMono(1, a, Pow2(n + 1));
  }

  lemma ClzUnique(a: u64, m: nat, n: nat)
    requires LeadingZeros(a, m) && LeadingZeros(a, n)
    ensures m == n
  {
    hide Pow2;
    if a != 0 {
      if m < n {
        ClzLess(a, m, n);
      } else if n < m {
        ClzLess(a, n, m);
      }
    }
  }

  lemma ClzLess(a: u64, m: nat, n: nat)
    requires m < n && 0 < a
    ensures 2 * (a * Pow2(m)) <= a * Pow2(n)
  {
    hide Pow2;
    assert Pow2(m + 1) == 2 * Pow2(m) by { Pow2Add(m, 1); Pow2Values(); }
    Pow2Mono(m + 1, n);
    MulMono(Pow2(m + 1), Pow2(n), a);
    Regroup3(a, 2, Pow2(m));
  }

  method CountLeadingZeros64(a: u64) returns (count: nat)
    ensures count == Clz(a)
  {
    hide Pow2, LeadingZeros, CountLeadingZeros8, Clz;
    count := 32;
    var a32: u32 := a % TWO32;
    if TWO32 <= a {
      count := 0;
      a32 := a / TWO32;
    }
    ghost var start, word := count, a32;
    if a32 < 0x10000 {
      count := count + 16;
      a32 := a32 * 0x10000 % TWO32;
    }
    ghost var mid, half := count - start, a32;
    assert if mid == 0 then half == word >= 0x10000 else mid == 16 && half == word * 0x10000;
    if a32 < 0x100_0000 {
      count := count + 8;
      a32 := a32 * 0x100 % TWO32;
    }
    assert if half < 0x100_0000 then a32 == half * 0x100 && count == start + mid + 8 else a32 == half && count == start + mid;
    count := count + CountLeadingZeros8(a32 / 0x100_0000);
    Counted(a, start, word, mid, half, a32, count);
    ClzUnique(a, count, Clz(a));
  }

  lemma Counted(a: u64, start: nat, word: u32, mid: nat, half: u32, last: u32, count: nat)
    requires start in {0, 32} && word == (if start == 0 then a / TWO32 else a) && (start == 0 ==> a >= TWO32)
    requires if mid == 0 then half == word >= 0x10000 else mid == 16 && half == word * 0x10000
    requires last == if half < 0x100_0000 then half * 0x100 else half
    requires count == start + mid + (if half < 0x100_0000 then 8 else 0) + CountLeadingZeros8(last / 0x100_0000)
    ensures LeadingZeros(a, count)
  {
    hide Pow2, LeadingZeros, CountLeadingZeros8;
    SmallPowers();
    if half >= 0x100_0000 {
      ByteNormal(half);
      ShiftedWord(a, start, word, mid, CountLeadingZeros8(half / 0x100_0000));
    } else if half == 0 {
      ZeroCount(a);
    } else {
      ByteNormal(half * 0x100);
      ShiftedWord(a, start, word, mid + 8, CountLeadingZeros8(half * 0x100 / 0x100_0000));
    }
  }

  lemma SmallPowers()
    ensures Pow2(0) == 1 && Pow2(8) == 256 && Pow2(16) == 0x10000 && Pow2(24) == 0x100_0000
  {
    Pow2Add(8, 8);
    Pow2Add(16, 8);
  }

  lemma ZeroCount(a: u64)
    requires a == 0
    ensures LeadingZeros(a, 64)
  {
  }

  /** Normalising the top byte of a word that is not smaller than a byte normalises the word. */
  lemma ByteNormal(a: u32)
    requires a >= 0x100_0000
    ensures 0x8000_0000 <= a * Pow2(CountLeadingZeros8(a / 0x100_0000)) < TWO32
  {
    hide Pow2;
    var b, n := a / 0x100_0000, CountLeadingZeros8(a / 0x100_0000);
    var p := Pow2(n);
    assert p * Pow2(8 - n) == 256 by { Pow2Add(n, 8 - n); SmallPowers(); }
    ByteTop(a, b, p, Pow2(8 - n));
  }

  lemma ByteTop(a: int, b: int, p: int, r: int)
    requires b * 0x100_0000 <= a < (b + 1) * 0x100_0000 && 0 < p && 0 < r
    requires 128 <= b * p < 256 && p * r == 256
    ensures 0x8000_0000 <= a * p < TWO32
  {
    MulMono(b * 0x100_0000, a, p);
    assert b * 0x100_0000 * p == (b * p) * 0x100_0000;
    if r <= b {
      MulMono(r, b, p);
    }
    MulMono(b + 1, r, p);
    MulMono(a, (b + 1) * 0x100_0000 - 1, p);
    assert ((b + 1) * 0x100_0000 - 1) * p == ((b + 1) * p) * 0x100_0000 - p;
  }

  lemma ShiftedWord(a: u64, start: nat, word: u32, mid: nat, n: nat)
    requires start in {0, 32} && word == (if start == 0 then a / TWO32 else a)
    requires mid + n < 32 && 0x8000_0000 <= word * Pow2(mid) * Pow2(n) < TWO32
    ensures LeadingZeros(a, start + mid + n)
  {
    hide Pow2, LeadingZeros;
    var k := mid + n;
    Pow2Add(mid, n);
    Regroup3(word, Pow2(mid), Pow2(n));
    if start == 32 {
      Pow2Add(32, k);
      Pow2Values();
      Regroup3(a, Pow2(k), TWO32);
      NormalAt(a, 32 + k);
    } else {
      assert Pow2(k) * Pow2(32 - k) == TWO32 by { Pow2Add(k, 32 - k); Pow2Values(); }
      RoomAbove(word, Pow2(k), Pow2(32 - k));
      HighWord(a, word, a % TWO32, Pow2(k));
      NormalAt(a, k);
    }
  }

  lemma Regroup3(a: int, b: int, c: int)
    ensures a * (b * c) == a * b * c
    ensures a * (c * b) == a * b * c
  {
  }

  lemma NormalAt(a: u64, k: nat)
    requires k < 64 && TWO63 <= a * Pow2(k) < TWO64
    ensures LeadingZeros(a, k)
  {
  }

  /** A multiple of p below a multiple of p stays p below it. */
  lemma RoomAbove(word: int, p: int, r: int)
    requires 0 < p && word * p < p * r
    ensures word * p + p <= p * r
  {
    if r <= word {
      MulMono(r, word, p);
    }
    MulMono(word + 1, r, p);
  }

  lemma HighWord(a: int, word: int, low: int, p: int)
    requires a == word * TWO32 + low && 0 <= low < TWO32 && 0 < p
    requires 0x8000_0000 <= word * p && word * p + p <= TWO32
    ensures TWO63 <= a * p < TWO64
  {
    MulMono(0, low, p);
    MulMono(low, TWO32 - 1, p);
    assert a * p == (word * p) * TWO32 + low * p;
  }

  // ---------------------------------------------------------------- multiplication

  /** The product of two 32-bit halves. */
  function HalfTimes(x: u32, y: u32): u64 {
    HalfProduct(x, y);
    x * y
  }

  method Mul64To128(a: u64, b: u64) returns (z: U128)
    ensures z.Val() == a * b
  {
    hide HalfTimes;
    var a32: u32, a0: u32 := a / TWO32, a % TWO32;
    var b32: u32, b0: u32 := b / TWO32, b % TWO32;
    HalfProducts(a, b, a32, a0, b32, b0);
    var v0: u64 := HalfTimes(a0, b0);
    var mid1: u64 := HalfTimes(a32, b0);
    var mid2: u64 := HalfTimes(a0, b32);
    var v64: u64 := HalfTimes(a32, b32);
    ghost var low, high := v0, v64;
    var mid: u64 := (mid1 + mid2) % TWO64;
    v64 := (v64 + (if mid < mid1 then TWO32 else 0) + mid / TWO32) % TWO64;
    mid := mid * TWO32 % TWO64;
    v0 := (v0 + mid) % TWO64;
    v64 := (v64 + if v0 < mid then 1 else 0) % TWO64;
    Carries(low, mid1, mid2, high, mid, v0, v64);
    z := U128(v64, v0);
  }

  lemma HalfProducts(a: int, b: int, a32: u32, a0: u32, b32: u32, b0: u32)
    requires a == a32 * TWO32 + a0 && b == b32 * TWO32 + b0
    ensures a * b == HalfTimes(a32, b32) * TWO64 + (HalfTimes(a32, b0) + HalfTimes(a0, b32)) * TWO32 + HalfTimes(a0, b0) < TWO128
  {
    HalfProduct(a0, b0);
    HalfProduct(a32, b0);
    HalfProduct(a0, b32);
    HalfProduct(a32, b32);
  }

  lemma HalfProduct(x: u32, y: u32)
    ensures 0 <= x * y <= TWO64 - 2 * TWO32 + 1
  {
    MulMono(0, x, y);
    MulMono(x, TWO32 - 1, y);
  }

  /** Every carry is accounted for, given that the full product fits in 128 bits. */
  lemma Carries(low: u64, mid1: u64, mid2: u64, high: u64, mid: u64, v0: u64, v64: u64)
    requires var m := (mid1 + mid2) % TWO64;
             mid == m * TWO32 % TWO64 && v0 == (low + mid) % TWO64 &&
             v64 == ((high + (if m < mid1 then TWO32 else 0) + m / TWO32) % TWO64 + if v0 < mid then 1 else 0) % TWO64
    requires high * TWO64 + (mid1 + mid2) * TWO32 + low < TWO128
    ensures v64 * TWO64 + v0 == high * TWO64 + (mid1 + mid2) * TWO32 + low
  {
    var m := (mid1 + mid2) % TWO64;
    var c := CarryOf(mid1, mid2, m);
    var hi, lo := m / TWO32, m % TWO32;
    assert m == hi * TWO32 + lo;
    Wrap(m * TWO32, hi);
    var k := CarryOf(mid, low, v0);
    CarriesLinear(low, mid1 + mid2, high, hi, lo, c, k);
    assert v64 == ((high + c * TWO32 + hi) % TWO64 + k) % TWO64;
    Wrap(high + c * TWO32 + hi, 0);
    Wrap(high + c * TWO32 + hi + k, 0);
  }

  /** The carry out of a 64-bit addition, recognised by the sum being below an operand. */
  lemma CarryOf(x: u64, y: u64, sum: u64) returns (c: int)
    requires sum == (x + y) % TWO64
    ensures c == (if sum < x then 1 else 0) && sum == x + y - c * TWO64
  {
    c := if x + y >= TWO64 then 1 else 0;
    Wrap(x + y, c);
  }

  lemma CarriesLinear(low: u64, mids: int, high: u64, hi: int, lo: int, c: int, k: int)
    requires mids == c * TWO64 + hi * TWO32 + lo && 0 <= lo && 0 <= hi && 0 <= c
    requires k in {0, 1} && 0 <= low + lo * TWO32 - k * TWO64
    requires high * TWO64 + mids * TWO32 + low < TWO128
    ensures 0 <= high + c * TWO32 + hi && high + c * TWO32 + hi + k < TWO64
    ensures (high + c * TWO32 + hi + k) * TWO64 + (low + lo * TWO32 - k * TWO64) == high * TWO64 + mids * TWO32 + low
  {
  }

  // ---------------------------------------------------------------- the quotient estimate

  /**
   softfloat_estimateDiv128To64: with b at least 2^63 the result is the true quotient
   or up to two more, and all ones if the quotient does not fit.
   */
  method EstimateDiv128To64(a64: u64, a0: u64, b: u64) returns (z: u64)
    requires TWO63 <= b
    ensures b <= a64 ==> z == TWO64 - 1
    ensures a64 < b ==> U128(a64, a0).Val() / b <= z <= U128(a64, a0).Val() / b + 2
  {
    hide EstimateInv, Add128, Sub128, EstimateDigit;
    if b <= a64 { return TWO64 - 1; }
    var b32: u32 := b / TWO32;
    ghost var a := U128(a64, a0).Val();
    EstimateStart(a64, a0, b, b32);
    z := EstimateDigit(a64, b32) * TWO32;
    var term := Mul64To128(b, z);
    var rem := Sub128(U128(a64, a0), term);
    ghost var r := a - b * z;
    EstimateInvStart(a64, a0, b, z, term);
    while TWO63 <= rem.v64
      invariant EstimateInv(a, b, z, r, rem)
      decreases -r
    {
      EstimateStep(a, b, z, r, rem, b32);
      rem := Add128(rem, U128(b32, b * TWO32 % TWO64));
      z := z - TWO32;
      r := r + b * TWO32;
    }
    EstimateEnd(a, b, z, r, rem, b32);
    var rem32: u64 := (rem.v64 * TWO32 % TWO64) + rem.v0 / TWO32;
    z := z + EstimateDigit(rem32, b32);
  }

  /** One base-2^32 digit of the estimate: the top word over the top half of the divisor, capped. */
  function EstimateDigit(a: u64, b32: u32): (d: u32)
    requires 0 < b32
  {
    if b32 * TWO32 <= a then 0xFFFF_FFFF
    else
      DigitRange(a, b32);
      a / b32
  }

  /** The remainder register holds a - b*z modulo 2^128, and z is a multiple of 2^32. */
  ghost predicate EstimateInv(a: nat, b: u64, z: u64, r: int, rem: U128) {
    && z % TWO32 == 0
    && r == a - b * z
    && -TWO127 <= r < b * TWO32
    && rem.Val() == if 0 <= r then r else r + TWO128
  }

  lemma EstimateStart(a64: u64, a0: u64, b: u64, b32: u32)
    requires TWO63 <= b && a64 < b && b32 == b / TWO32
    ensures 0 < b32
    ensures
      var z := EstimateDigit(a64, b32) * TWO32;
      0 <= z < TWO64 && z % TWO32 == 0 && -TWO127 <= U128(a64, a0).Val() - b * z < b * TWO32
  {
    FirstDigit(a64, a0, b, b32);
  }

  lemma EstimateInvStart(a64: u64, a0: u64, b: u64, z: u64, term: U128)
    requires z % TWO32 == 0 && term.Val() == b * z && -TWO127 <= U128(a64, a0).Val() - b * z < b * TWO32
    ensures EstimateInv(U128(a64, a0).Val(), b, z, U128(a64, a0).Val() - b * z, Sub128(U128(a64, a0), term))
  {
    hide Sub128;
    Sub128Exact(U128(a64, a0), term);
  }

  lemma EstimateStep(a: nat, b: u64, z: u64, r: int, rem: U128, b32: u32)
    requires EstimateInv(a, b, z, r, rem) && TWO63 <= rem.v64 && 0 < b && b32 == b / TWO32
    ensures TWO32 <= z && r < 0
    ensures EstimateInv(a, b, z - TWO32, r + b * TWO32, Add128(rem, U128(b32, b * TWO32 % TWO64)))
  {
    hide Add128;
    StepDown(a, b, z, r);
    ShiftDivisor(b, b32);
    Add128Exact(rem, U128(b32, b * TWO32 % TWO64));
  }

  lemma EstimateEnd(a: nat, b: u64, z: u64, r: int, rem: U128, b32: u32)
    requires EstimateInv(a, b, z, r, rem) && rem.v64 < TWO63 && TWO63 <= b && b32 == b / TWO32
    ensures 0 < b32 && (rem.v64 * TWO32 % TWO64) + rem.v0 / TWO32 < TWO64
    ensures
      var rem32 := (rem.v64 * TWO32 % TWO64) + rem.v0 / TWO32;
      var digit := EstimateDigit(rem32, b32);
      z + digit < TWO64 && a / b <= z + digit <= a / b + 2
  {
    assert r == rem.Val();
    Wrap(rem.v64 * TWO32, 0);
    LastDigit(r, b, b32, rem.v64 * TWO32 + rem.v0 / TWO32);
    QuotientDigits(a, b, z, r);
  }

  const TWO127: int := 0x8000_0000_0000_0000_0000_0000_0000_0000

  /** The first 32-bit digit is never too small, and too large by less than 2^96. */
  lemma FirstDigit(a64: u64, a0: u64, b: u64, b32: u32)
    requires TWO63 <= b && a64 < b && b32 == b / TWO32
    ensures b32 > 0
    ensures
      var r := U128(a64, a0).Val() - b * (EstimateDigit(a64, b32) * TWO32);
      -TWO127 <= r < b * TWO32
  {
    var d := EstimateDigit(a64, b32);
    var b0 := b % TWO32;
    if b32 * TWO32 > a64 {
      DigitRange(a64, b32);
    }
    DigitBounds(a64, a0, b32, b0, d);
  }

  lemma DigitBounds(a64: u64, a0: u64, b32: u32, b0: u32, d: u32)
    requires b32 * d <= a64
    requires a64 < b32 * d + b32 || (d == TWO32 - 1 && a64 < b32 * TWO32 + b0)
    ensures
      var r := a64 * TWO64 + a0 - (b32 * TWO32 + b0) * (d * TWO32);
      -TWO127 <= r < (b32 * TWO32 + b0) * TWO32
  {
    HalfProduct(b0, d);
    assert (b32 * TWO32 + b0) * (d * TWO32) == b32 * d * TWO64 + b0 * d * TWO32;
  }

  lemma StepDown(a: nat, b: int, z: int, r: int)
    requires r == a - b * z && r < 0 && 0 < b && z % TWO32 == 0
    ensures TWO32 <= z
    ensures b * (z - TWO32) == b * z - b * TWO32
  {
    if z <= 0 {
      MulMono(z, 0, b);
    }
  }

  lemma ShiftDivisor(b: u64, b32: u32)
    requires b32 == b / TWO32
    ensures U128(b32, b * TWO32 % TWO64).Val() == b * TWO32
  {
    Wrap(b * TWO32, b32);
  }

  /** The last digit, estimated from the top half of the divisor, is at most two too large. */
  lemma LastDigit(r: nat, b: u64, b32: u32, rem32: u64)
    requires TWO63 <= b && b32 == b / TWO32 && r < b * TWO32 && rem32 == r / TWO32
    ensures b32 > 0
    ensures r / b <= EstimateDigit(rem32, b32) <= r / b + 2
  {
    var b0, q := b % TWO32, r / b;
    QuotientBounds(r, b, q);
    if b32 * TWO32 > rem32 {
      DigitRange(rem32, b32);
      DigitNotSmall(r, b, b32, b0, q, rem32, rem32 / b32);
      DigitNotLarge(r, b, b32, b0, q, rem32, rem32 / b32);
    } else {
      DigitNotLarge(r, b, b32, b0, q, rem32, TWO32 - 1);
    }
  }

  lemma QuotientBounds(r: nat, b: u64, q: int)
    requires 0 < b && r < b * TWO32 && q == r / b
    ensures 0 <= q < TWO32 && b * q <= r < b * q + b
  {
    DivBelow(r, b, TWO32);
    DivShrinks(r, b);
    assert r == b * q + r % b;
  }

  lemma DigitRange(rem32: u64, b32: u32)
    requires rem32 < b32 * TWO32
    ensures 0 <= rem32 / b32 < TWO32
    ensures b32 * (rem32 / b32) <= rem32 < b32 * (rem32 / b32) + b32
  {
    DivBelow(rem32, b32, TWO32);
    DivShrinks(rem32, b32);
    assert rem32 == b32 * (rem32 / b32) + rem32 % b32;
  }

  lemma MulSucc(a: int, k: int, b: int)
    ensures (a + k) * b == b * a + k * b
  {
  }

  lemma DigitNotSmall(r: int, b: int, b32: u32, b0: u32, q: int, rem32: int, d: int)
    requires b == b32 * TWO32 + b0 && b * q <= r && rem32 == r / TWO32
    requires rem32 < b32 * d + b32 && 0 < b32 && 0 <= q
    ensures q <= d
  {
    MulMono(0, q, b0);
    assert b * q == (b32 * q) * TWO32 + b0 * q;
    assert b32 * q <= rem32;
    MulSucc(d, 1, b32);
    if d < q {
      MulMono(d + 1, q, b32);
    }
  }

  lemma DigitNotLarge(r: int, b: int, b32: u32, b0: u32, q: int, rem32: int, d: u32)
    requires b == b32 * TWO32 + b0 && TWO63 <= b && r < b * q + b && rem32 == r / TWO32 && b32 * d <= rem32
    ensures d <= q + 2
  {
    HalfProduct(b0, d);
    assert b * d == (b32 * d) * TWO32 + b0 * d;
    assert b * d < b * q + 3 * b;
    MulSucc(q, 3, b);
    if q + 3 <= d {
      MulMono(q + 3, d, b);
    }
  }

  lemma QuotientDigits(a: nat, b: nat, z: int, r: nat)
    requires 0 < b && a == b * z + r
    ensures a / b == z + r / b
  {
    assert r == b * (r / b) + r % b;
    assert (z + r / b) * b == b * z + b * (r / b);
    DivUnique(a, b, z + r / b, r % b);
  }
}
