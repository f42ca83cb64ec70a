/** f64_roundToInt, f64_to_i64 and softfloat_roundPackToI64. */
module Convert {
  import opened Words
  import opened Dyadic
  import opened Ieee
  import opened Primitives
  import opened RoundPack
  import opened Operands

  // ---------------------------------------------------------------- rounding to an integer

  /** The magnitude x rounded to an integral magnitude (IEEE 754-2008 section 5.9). */
  ghost function RoundInt(mode: Mode, sign: bool, x: real): (n: nat)
    requires 0.0 <= x
  {
    var n := x.Floor;
    if RoundsUp(mode, sign, n % 2 == 1, n as real, (n + 1) as real, x) then n + 1 else n
  }

  /** The integer each mode asks for: the nearest one, or the one next to x on the mode's side. */
  lemma RoundIntMeans(mode: Mode, sign: bool, x: real)
    requires 0.0 <= x
    ensures
      var n := RoundInt(mode, sign, x) as real;
      match mode
      case NearestEven => n - 0.5 <= x <= n + 0.5 && (x == n - 0.5 || x == n + 0.5 ==> RoundInt(mode, sign, x) % 2 == 0)
      case NearestMaxMag => n - 0.5 <= x < n + 0.5
      case MinMag => n <= x < n + 1.0
      case Min => if sign then n - 1.0 < x <= n else n <= x < n + 1.0
      case Max => if sign then n <= x < n + 1.0 else n - 1.0 < x <= n
  {
  }

  /** A magnitude known through its integer part n and the cell of its fraction, in units of 1/(2h). */
  lemma RoundIntFrom(mode: Mode, sign: bool, x: real, n: nat, f: nat, h: int, y: real)
    requires 0 < h && f < 2 * h && SameCell(h, f, y)
    requires (x - n as real) * (2.0 * h as real) == y
    ensures 0.0 <= x
    ensures RoundInt(mode, sign, x) == if BitsGoUp(mode, sign, n, f, h) then n + 1 else n
    ensures x == n as real <==> f == 0
    ensures n as real <= x < (n + 1) as real
    ensures f == 0 <==> x == RoundInt(mode, sign, x) as real
  {
    hide SameCell;
    var t := x - n as real;
    CellCompare(h, f, y, 0);
    CellCompare(h, f, y, 1);
    CellCompare(h, f, y, 2);
    FractionCompare(t, 2.0 * h as real, y);
    assert x.Floor == n;
  }

  lemma FractionCompare(t: real, g: real, y: real)
    requires 0.0 < g && t * g == y
    ensures (t < 0.0 <==> y < 0.0) && (t == 0.0 <==> y == 0.0)
    ensures (t < 0.5 <==> y < g / 2.0) && (t == 0.5 <==> y == g / 2.0)
    ensures (t < 1.0 <==> y < g) && (t == 1.0 <==> y == g)
  {
    CompareAt(t, g, y, 0.0, 0.0);
    CompareAt(t, g, y, 0.5, g / 2.0);
    CompareAt(t, g, y, 1.0, g);
  }

  lemma CompareAt(t: real, g: real, y: real, k: real, kg: real)
    requires 0.0 < g && t * g == y && kg == k * g
    ensures (t < k <==> y < kg) && (t == k <==> y == kg)
  {
    RealCompare(t, k, g);
  }

  // ---------------------------------------------------------------- f64_roundToInt

  /** Rounds in place on the packed bits; the carry out of the fraction moves the exponent. */
  method F64RoundToInt(env: Env, a: u64, roundingMode: Mode, exact: bool) returns (z: u64)
    modifies env`flags
    ensures IsFinite(a) ==>
              && 0.0 <= Mag(Magnitude(a)) && IsFinite(z) && SignOf(z) == SignOf(a)
              && Mag(Magnitude(z)) == RoundInt(roundingMode, SignOf(a), Mag(Magnitude(a))) as real
              && env.flags == old(env.flags) + if exact && z != a then {Inexact} else {}
    ensures IsInf(a) ==> z == a && env.flags == old(env.flags)
    ensures IsNaN(a) ==> z == DEFAULTNAN && env.flags == old(env.flags) + NaNFlags(a, 0)
  {
    hide Ldexp, Mag, Pow2, RoundInt, NaNFlags;
    Fields(a);
    var expA: int := ExpField(a);
    if 0x433 <= expA {
      if expA == 0x7FF && FracField(a) != 0 {
        z := PropagateNaN(env, a, 0);
        return;
      }
      if expA != 0x7FF {
        LargeIsIntegral(roundingMode, SignOf(a), a);
      }
      return a;
    }
    if expA <= 0x3FE {
      if a % TWO63 == 0 {
        SmallCase(roundingMode, SignOf(a), a);
        return a;
      }
      if exact {
        env.RaiseFlags({Inexact});
      }
      z := RoundBelowOne(a, roundingMode);
      return;
    }
    z := RoundInPlace(a, roundingMode);
    if exact && z != a {
      env.RaiseFlags({Inexact});
    }
  }

  /** Lines 32 to 56: a nonzero magnitude below one becomes a signed zero or one. */
  method RoundBelowOne(a: u64, roundingMode: Mode) returns (z: u64)
    requires ExpField(a) <= 0x3FE && !IsZero(a)
    ensures 0.0 <= Mag(Magnitude(a)) && IsFinite(z) && SignOf(z) == SignOf(a) && z != a
    ensures Mag(Magnitude(z)) == RoundInt(roundingMode, SignOf(a), Mag(Magnitude(a))) as real
  {
    hide Ldexp, Mag, RoundInt;
    Fields(a);
    SmallCase(roundingMode, SignOf(a), a);
    var signA := SignOf(a);
    PackExact(signA, 0x3FF, 0);
    PackExact(signA, 0, 0);
    var expA := ExpField(a);
    match roundingMode {
      case NearestEven =>
        if expA == 0x3FE && FracField(a) != 0 {
          return Pack(signA, 0x3FF, 0);
        }
      case Min =>
        return if signA then 0xBFF0_0000_0000_0000 else 0;
      case Max =>
        return if signA then TWO63 else 0x3FF0_0000_0000_0000;
      case NearestMaxMag =>
        if expA == 0x3FE {
          return Pack(signA, 0x3FF, 0);
        }
      case MinMag =>
    }
    return Pack(signA, 0, 0);
  }

  /** Lines 58 to 71: add to the packed word and mask off the fraction bits. */
  method RoundInPlace(a: u64, roundingMode: Mode) returns (z: u64)
    requires 0x3FF <= ExpField(a) < 0x433
    ensures 0.0 <= Mag(Magnitude(a)) && IsFinite(z) && SignOf(z) == SignOf(a)
    ensures Mag(Magnitude(z)) == RoundInt(roundingMode, SignOf(a), Mag(Magnitude(a))) as real
  {
    hide Ldexp, Mag, RoundInt, Pow2, Shl64, LowBits, ClearBit;
    var expA: int := ExpField(a);
    LastBit(expA);
    var lastBitMask: u64 := Shl64(1, 0x433 - expA);
    var half: u64 := lastBitMask / 2;
    hide ExpField, FracField, BitsGoUp;
    ghost var k, n, f := SplitWord(a, lastBitMask, half);
    GoUpParity(roundingMode, SignOf(a), k, n, f, half);
    MaskedWord(roundingMode, SignOf(a), a, k, f, lastBitMask, half);
    IntegralPattern(roundingMode, a, lastBitMask, n, f, half);
    z := a;
    if roundingMode == NearestMaxMag {
      z := z + half;
    } else if roundingMode == NearestEven {
      z := z + half;
      if LowBits(z, lastBitMask) == 0 {
        z := ClearBit(z, lastBitMask);
      }
    } else if roundingMode != MinMag {
      if SignOf(z) != (roundingMode == Max) {
        z := z + (lastBitMask - 1);
      }
    }
    z := z - LowBits(z, lastBitMask);
  }

  /** `z & (L - 1)` for L a power of two. */
  function LowBits(z: int, L: int): int
    requires 0 < L
  {
    z % L
  }

  /** `z & ~L` for L a power of two. */
  function ClearBit(z: int, L: int): int
    requires 0 < L
  {
    if z / L % 2 == 1 then z - L else z
  }

  lemma BitsAt(z: int, L: int, k: int, f: int)
    requires 0 < L && 0 <= f < L && z == k * L + f
    ensures LowBits(z, L) == f
    ensures ClearBit(z, L) == if k % 2 == 1 then z - L else z
  {
    DivUnique(z, L, k, f);
  }

  /** Whether the kept integer n goes up, from the fraction f of 2h. */
  predicate BitsGoUp(mode: Mode, sign: bool, n: int, f: int, h: int) {
    f != 0 &&
    match mode
    case NearestEven => f > h || (f == h && n % 2 == 1)
    case NearestMaxMag => f >= h
    case MinMag => false
    case Min => sign
    case Max => !sign
  }

  lemma LastBit(exp: int)
    requires 0x3FF <= exp < 0x433
    ensures Shl64(1, 0x433 - exp) == Pow2(0x433 - exp) == 2 * Pow2(0x432 - exp)
    ensures Pow2(0x433 - exp) / 2 == Pow2(0x432 - exp)
    ensures 2 <= Pow2(0x433 - exp) <= TWO52
  {
    hide Pow2;
    Pow2Values();
    Pow2Add(1, 0x432 - exp);
    Pow2Mono(0x433 - exp, 52);
    ShlSmall(1, 0x433 - exp);
  }

  lemma LargeIsIntegral(mode: Mode, sign: bool, a: u64)
    requires 0x433 <= ExpField(a) < 0x7FF
    ensures 0.0 <= Mag(Magnitude(a)) && Mag(Magnitude(a)) == RoundInt(mode, sign, Mag(Magnitude(a))) as real
  {
    hide Ldexp, Mag, Pow2;
    NormalOperand(a);
    var k := ExpField(a) - 0x433;
    var m := (TWO52 + FracField(a)) * Pow2(k);
    LdexpUp(TWO52 + FracField(a), k, 0);
    LdexpId(m as real);
    MulMono(0, TWO52 + FracField(a), Pow2(k));
    assert Mag(Magnitude(a)) == m as real;
  }

  /** Below one: the result is zero or one. */
  lemma SmallCase(mode: Mode, sign: bool, a: u64)
    requires ExpField(a) <= 0x3FE
    ensures 0.0 <= Mag(Magnitude(a)) < 1.0
    ensures IsZero(a) <==> Mag(Magnitude(a)) == 0.0
    ensures ExpField(a) == 0x3FE <==> 0.5 <= Mag(Magnitude(a))
    ensures ExpField(a) == 0x3FE && FracField(a) == 0 <==> Mag(Magnitude(a)) == 0.5
    ensures RoundInt(mode, sign, Mag(Magnitude(a))) == if RoundsUp(mode, sign, false, 0.0, 1.0, Mag(Magnitude(a))) then 1 else 0
    ensures Mag(0) == 0.0 && Mag(0x3FF0_0000_0000_0000) == 1.0
  {
    hide Ldexp, Mag;
    Fields(a);
    MagZero();
    OneAndHalf();
    MagOrder(0, Magnitude(a));
    MagOrder(Magnitude(a), 0x3FF0_0000_0000_0000);
    MagOrder(Magnitude(a), 0x3FE0_0000_0000_0000);
  }

  lemma OneAndHalf()
    ensures Mag(0x3FF0_0000_0000_0000) == 1.0 && Mag(0x3FE0_0000_0000_0000) == 0.5
  {
    hide Ldexp, Pow2;
    PackMag(0x3FE, TWO52);
    PackMag(0x3FD, TWO52);
    Pow2Values();
    LdexpUp(1, 52, -52);
    LdexpId(1.0);
    LdexpTwice(TWO52 as real, -53);
  }

  /** The word is k times the last kept bit plus the fraction f, and k has the parity of the integer part n. */
  lemma SplitWord(a: u64, L: u64, h: int) returns (k: int, n: nat, f: nat)
    requires 0x3FF <= ExpField(a) < 0x433 && L == Pow2(0x433 - ExpField(a)) == 2 * h && L <= TWO52
    ensures TWO52 + FracField(a) == n * L + f && f < L
    ensures a == k * L + f && k % 2 == n % 2
    ensures a + L < TWO64 && L <= a
  {
    hide Pow2, ExpField, FracField;
    var w := EvenBase(a, L);
    k, n, f := SplitSum(a, w, TWO52 + FracField(a), L);
    WordRoom(a, L);
  }

  lemma SplitSum(a: int, w: int, S: nat, L: int) returns (k: int, n: nat, f: nat)
    requires 0 < L && a == w * (2 * L) + S
    ensures S == n * L + f && f < L && a == k * L + f && k % 2 == n % 2
  {
    DivShrinks(S, L);
    n, f := S / L, S % L;
    assert S == L * n + f;
    k := 2 * w + n;
    MulSucc(2 * w, n, L);
    Regroup3(w, 2, L);
  }

  lemma WordRoom(a: u64, L: u64)
    requires 0x3FF <= ExpField(a) < 0x433 && L <= TWO52
    ensures a + L < TWO64 && L <= a
  {
    Fields(a);
  }

  /** The sign and exponent fields are an even multiple of the last kept bit. */
  lemma EvenBase(a: u64, L: u64) returns (w: int)
    requires 0x3FF <= ExpField(a) < 0x433 && L == Pow2(0x433 - ExpField(a))
    ensures a == w * (2 * L) + TWO52 + FracField(a)
  {
    hide Pow2;
    var e := ExpField(a);
    Fields(a);
    if e == 0x3FF {
      assert Pow2(52) == TWO52 by { Pow2Values(); }
      w := (if SignOf(a) then 0x400 else 0) + 0x1FF;
    } else {
      assert 2 * L * Pow2(e - 0x400) == TWO52 by {
        Pow2Add(0x433 - e, e - 0x3FF);
        Pow2Add(1, e - 0x400);
        Pow2Values();
        Regroup3(L, 2, Pow2(e - 0x400));
      }
      var c := (if SignOf(a) then 0x800 else 0) + (e - 1);
      w := c * Pow2(e - 0x400);
      Regroup3(c, Pow2(e - 0x400), 2 * L);
      assert c * TWO52 == w * (2 * L);
    }
  }

  lemma GoUpParity(mode: Mode, sign: bool, k: int, n: int, f: int, h: int)
    requires k % 2 == n % 2
    ensures BitsGoUp(mode, sign, k, f, h) == BitsGoUp(mode, sign, n, f, h)
  {
  }

  /** Adding d < L to k*L + f and looking at the bits. */
  lemma AddedBits(a: int, k: int, L: int, f: int, d: int)
    requires 0 < L && 0 <= f < L && 0 <= d < L && a == k * L + f
    ensures
      var z, up := a + d, L <= f + d;
      && LowBits(z, L) == (if up then f + d - L else f + d)
      && ClearBit(z, L) == (if (if up then k + 1 else k) % 2 == 1 then z - L else z)
  {
    MulSucc(k, 1, L);
    if f + d < L {
      BitsAt(a + d, L, k, f + d);
    } else {
      BitsAt(a + d, L, k + 1, f + d - L);
    }
  }

  /** What the bit operations compute. */
  lemma MaskedWord(mode: Mode, sign: bool, a: int, k: int, f: nat, L: int, h: int)
    requires 0 < h && L == 2 * h && f < L && a == k * L + f && L <= a
    ensures 0 <= ClearBit(a + h, L) <= a + h
    ensures
      var z := if mode == NearestMaxMag then a + h
               else if mode == NearestEven then (if LowBits(a + h, L) == 0 then ClearBit(a + h, L) else a + h)
               else if mode != MinMag && sign != (mode == Max) then a + (L - 1)
               else a;
      z - LowBits(z, L) == a - f + if BitsGoUp(mode, sign, k, f, h) then L else 0
  {
    hide LowBits, ClearBit;
    AddedBits(a, k, L, f, h);
    AddedBits(a, k, L, f, L - 1);
    AddedBits(a, k, L, f, 0);
    AddedBits(a - f, k, L, 0, 0);
  }

  lemma IntegralPattern(mode: Mode, a: u64, L: u64, n: nat, f: nat, h: int)
    requires 0x3FF <= ExpField(a) < 0x433 && L == Pow2(0x433 - ExpField(a)) == 2 * h
    requires TWO52 + FracField(a) == n * L + f && f < L
    ensures
      var z := a - f + if BitsGoUp(mode, SignOf(a), n, f, h) then L else 0;
      && 0 <= z < TWO64 && 0.0 <= Mag(Magnitude(a)) && IsFinite(z) && SignOf(z) == SignOf(a)
      && Mag(Magnitude(z)) == RoundInt(mode, SignOf(a), Mag(Magnitude(a))) as real
  {
    hide Ldexp, Mag, Pow2, RoundInt, BitsGoUp, ExpField, FracField, IsFinite, SignOf, Magnitude;
    var e := ExpField(a);
    IntegralValue(a, L, n, f);
    CellExact(h, f);
    RoundIntFrom(mode, SignOf(a), Mag(Magnitude(a)), n, f, h, f as real);
    var r := if BitsGoUp(mode, SignOf(a), n, f, h) then n + 1 else n;
    FracBound(a);
    MultipleBound(n, L, e, n * L, f);
    PackedInteger(e, r, L);
    RoundedWord(a, a - f + if BitsGoUp(mode, SignOf(a), n, f, h) then L else 0, r * L);
  }

  lemma FracBound(a: u64)
    ensures TWO52 <= TWO52 + FracField(a) < TWO53
  {
  }

  /** Replacing the significand of a by m, possibly carrying into the exponent. */
  lemma RoundedWord(a: u64, z: int, m: int)
    requires 0x3FF <= ExpField(a) < 0x433 && TWO52 <= m <= TWO53 && z == a - (TWO52 + FracField(a)) + m
    ensures 0 <= z < TWO64 && IsFinite(z) && SignOf(z) == SignOf(a)
    ensures Magnitude(z) == (ExpField(a) - 1) * TWO52 + m
  {
    Fields(a);
  }

  lemma IntegralValue(a: u64, L: u64, n: nat, f: nat)
    requires 0x3FF <= ExpField(a) < 0x433 && L == Pow2(0x433 - ExpField(a)) && 0 < L
    requires TWO52 + FracField(a) == n * L + f
    ensures (Mag(Magnitude(a)) - n as real) * L as real == f as real
  {
    hide Ldexp, Mag, Pow2;
    var e: int := ExpField(a);
    var S := TWO52 + FracField(a);
    NormalOperand(a);
    ShiftedBack(S, 0x433 - e);
    assert -(0x433 - e) == e - 1075;
    RealMul(n, L);
    FractionOf(Mag(Magnitude(a)), n as real, L as real, f as real);
  }

  lemma FractionOf(x: real, n: real, L: real, f: real)
    requires x * L == n * L + f
    ensures (x - n) * L == f
  {
  }

  /** The next multiple of the last kept bit is still within the carry into the exponent. */
  lemma MultipleBound(n: nat, L: int, e: int, nL: int, f: nat)
    requires 0x3FF <= e < 0x433 && L == Pow2(0x433 - e) && nL == n * L && f < L && TWO52 <= nL + f < TWO53
    ensures TWO52 <= nL && (n + 1) * L == nL + L <= TWO53
  {
    hide Pow2;
    assert Pow2(e - 0x3FF) * L == TWO52 by { Pow2Add(e - 0x3FF, 0x433 - e); Pow2Values(); }
    var p := Pow2(e - 0x3FF);
    if n < p {
      MulMono(n + 1, p, L);
      MulSucc(n, 1, L);
    } else {
      MulMono(p, n, L);
    }
    if 2 * p <= n {
      MulMono(2 * p, n, L);
    } else {
      MulMono(n + 1, 2 * p, L);
    }
  }

  /** A multiple r of the last kept bit, packed at the exponent of a, denotes the integer r. */
  lemma PackedInteger(e: int, r: nat, L: int)
    requires 0x3FF <= e < 0x433 && L == Pow2(0x433 - e) && TWO52 <= r * L <= TWO53
    ensures Mag((e - 1) * TWO52 + r * L) == r as real
  {
    hide Ldexp, Mag, Pow2;
    PackMag(e - 1, r * L);
    LdexpUp(r, 0x433 - e, e - 1075);
    assert e - 1075 + (0x433 - e) == 0 && e - 1 - 1074 == e - 1075;
    LdexpId(r as real);
  }

  // ---------------------------------------------------------------- f64_to_i64

  const I64MIN: int := -0x8000_0000_0000_0000
  const I64MAX: int := 0x7FFF_FFFF_FFFF_FFFF

  function SignedInt(sign: bool, n: nat): int {
    if sign then -(n as int) else n
  }

  predicate FitsI64(v: int) {
    I64MIN <= v <= I64MAX
  }

  /** The 64-bit result of an already rounded magnitude: itself, or the nearest end of the range. */
  function Saturated(sign: bool, n: nat): int {
    if FitsI64(SignedInt(sign, n)) then SignedInt(sign, n) else if sign then I64MIN else I64MAX
  }

  /** The nearest representable integer. */
  lemma SaturatedIsNearest(sign: bool, n: nat, z: int)
    requires FitsI64(z)
    ensures 0 - TWO63 <= z < TWO63
    ensures
      var v: int, s := if sign then 0 - n else n, Saturated(sign, n);
      0 - TWO63 <= s < TWO63 && (if v < s then s - v else v - s) <= if v < z then z - v else v - z
  {
  }

  /** Rounds sig64 + sig0 / 2^64. */
  method RoundPackToI64(env: Env, sign: bool, sig64: u64, sig0: u64, roundingMode: Mode, exact: bool) returns (z: int)
    modifies env`flags
    ensures
      var r := if BitsGoUp(roundingMode, sign, sig64, sig0, TWO63) then sig64 + 1 else sig64;
      && z == Saturated(sign, r)
      && env.flags == old(env.flags) + (if !FitsI64(SignedInt(sign, r)) then {Invalid}
                                        else if exact && sig0 != 0 then {Inexact} else {})
  {
    ghost var r: int := if BitsGoUp(roundingMode, sign, sig64, sig0, TWO63) then sig64 + 1 else sig64;
    var roundNearestEven := roundingMode == NearestEven;
    var increment := TWO63 <= sig0;
    if !roundNearestEven && roundingMode != NearestMaxMag {
      increment := roundingMode != MinMag && roundingMode == (if sign then Min else Max) && sig0 != 0;
    }
    var magnitude: u64 := sig64;
    var invalid := false;
    if increment {
      magnitude := (magnitude + 1) % TWO64;
      if magnitude == 0 {
        invalid := true;
      } else if sig0 % TWO63 == 0 && roundNearestEven {
        magnitude := magnitude - magnitude % 2;
      }
    }
    assert if invalid then TWO64 - 1 <= r else magnitude == r;
    if !invalid {
      var word: u64 := if sign then (TWO64 - magnitude) % TWO64 else magnitude;
      z := if word < TWO63 then word else word - TWO64;
      invalid := z != 0 && (z < 0) != sign;
    }
    assert invalid <==> !FitsI64(SignedInt(sign, r));
    assert !invalid ==> z == SignedInt(sign, r);
    hide BitsGoUp;
    if invalid {
      env.RaiseFlags({Invalid});
      z := if sign then I64MIN else I64MAX;
      return;
    }
    if exact && sig0 != 0 {
      env.RaiseFlags({Inexact});
    }
  }

  /** The conversion the standard asks for (IEEE 754-2008 section 5.8), with the saturation the source chose. */
  ghost function I64Result(mode: Mode, a: u64): int
    requires IsFinite(a)
  {
    NonnegativeMag(Magnitude(a));
    Saturated(SignOf(a), RoundInt(mode, SignOf(a), Mag(Magnitude(a))))
  }

  lemma NonnegativeMag(u: nat)
    ensures 0.0 <= Mag(u)
  {
    hide Mag;
    MagZero();
    MagOrder(0, u);
    MagOrder(u, 0);
  }

  ghost function I64Flags(mode: Mode, a: u64, exact: bool): set<Flag>
    requires IsFinite(a)
  {
    NonnegativeMag(Magnitude(a));
    var n := RoundInt(mode, SignOf(a), Mag(Magnitude(a)));
    if !FitsI64(SignedInt(SignOf(a), n)) then {Invalid}
    else if exact && n as real != Mag(Magnitude(a)) then {Inexact}
    else {}
  }

  /** The conversion of any double: infinities and NaNs saturate by their sign bit. */
  ghost function I64Value(mode: Mode, a: u64): int {
    if IsFinite(a) then I64Result(mode, a) else if SignOf(a) then I64MIN else I64MAX
  }

  method F64ToI64(env: Env, a: u64, roundingMode: Mode, exact: bool) returns (z: int)
    modifies env`flags
    ensures FitsI64(z) && z == I64Value(roundingMode, a)
    ensures env.flags == old(env.flags) + if IsFinite(a) then I64Flags(roundingMode, a, exact) else {Invalid}
  {
    hide Ldexp, Mag, Pow2, RoundInt, BitsGoUp;
    Fields(a);
    var sign := SignOf(a);
    var exp: int, sig: u64 := ExpField(a), FracField(a);
    if exp != 0 {
      sig := sig + TWO52;
    }
    var shiftCount := 0x433 - exp;
    var fixed: U128;
    if shiftCount <= 0 {
      if 0x43E < exp {
        env.RaiseFlags({Invalid});
        z := if !sign then I64MAX else I64MIN;
        if IsFinite(a) {
          TooLarge(roundingMode, a);
        }
        return;
      }
      FixedLarge(roundingMode, a);
      fixed := U128(Shl64(sig, -shiftCount), 0);
    } else {
      FixedSmall(roundingMode, a);
      fixed := Shift64ExtraRightJam(sig, shiftCount);
    }
    z := RoundPackToI64(env, sign, fixed.v64, fixed.v0, roundingMode, exact);
  }

  lemma TooLarge(mode: Mode, a: u64)
    requires 0x43E < ExpField(a) < 0x7FF
    ensures 0.0 <= Mag(Magnitude(a)) && TWO64 <= RoundInt(mode, SignOf(a), Mag(Magnitude(a)))
  {
    hide Ldexp, Mag, Pow2;
    NormalOperand(a);
    var e, S := ExpField(a) - 1075, TWO52 + FracField(a);
    LdexpUp(1, 52, 12);
    LdexpUp(1, 64, 0);
    LdexpId(TWO64 as real);
    Pow2Values();
    LdexpOrder(S as real, TWO52 as real, 12);
    LdexpGrows(S as real, 12, e);
    assert TWO64 as real <= Mag(Magnitude(a));
  }

  /** An integral operand up to 2^64 shifts left without loss. */
  lemma FixedLarge(mode: Mode, a: u64)
    requires 0x433 <= ExpField(a) <= 0x43E
    ensures
      var v := Shl64(TWO52 + FracField(a), ExpField(a) - 0x433);
      && 0.0 <= Mag(Magnitude(a)) && Mag(Magnitude(a)) == v as real
      && RoundInt(mode, SignOf(a), Mag(Magnitude(a))) == v
      && !BitsGoUp(mode, SignOf(a), v, 0, TWO63)
  {
    hide Ldexp, Mag, Pow2, Shl64;
    NormalOperand(a);
    var k: int, S := ExpField(a) - 0x433, TWO52 + FracField(a);
    Pow2Values();
    Pow2Mono(k, 11);
    MulMono(Pow2(k), 2048, S);
    ShlSmall(S, k);
    LdexpUp(S, k, 0);
    LdexpId((S * Pow2(k)) as real);
  }

  /** A smaller operand becomes 64.64 fixed point, jammed only when it lies far below one half. */
  lemma FixedSmall(mode: Mode, a: u64)
    requires ExpField(a) < 0x433
    ensures
      var z := Shift64ExtraRightJam(if ExpField(a) == 0 then FracField(a) else TWO52 + FracField(a), 0x433 - ExpField(a));
      && 0.0 <= Mag(Magnitude(a))
      && RoundInt(mode, SignOf(a), Mag(Magnitude(a))) ==
           (if BitsGoUp(mode, SignOf(a), z.v64, z.v0, TWO63) then z.v64 + 1 else z.v64)
      && (z.v0 == 0 <==> Mag(Magnitude(a)) == RoundInt(mode, SignOf(a), Mag(Magnitude(a))) as real)
  {
    hide Ldexp, Mag, Pow2, Shl64, SameCell, BitsGoUp, RoundInt, Shift64ExtraRightJam;
    var c := 0x433 - ExpField(a);
    var S := if ExpField(a) == 0 then FracField(a) else TWO52 + FracField(a);
    var z := Shift64ExtraRightJam(S, c);
    var x := Mag(Magnitude(a));
    var y: real;
    if c <= 64 {
      y := FixedExact(a);
    } else {
      y := FixedTiny(a);
    }
    RoundIntFrom(mode, SignOf(a), x, z.v64, z.v0, TWO63, y);
  }

  lemma FixedExact(a: u64) returns (y: real)
    requires 0x3F3 <= ExpField(a) < 0x433
    ensures
      var z := Shift64ExtraRightJam(TWO52 + FracField(a), 0x433 - ExpField(a));
      && SameCell(TWO63, z.v0, y)
      && (Mag(Magnitude(a)) - z.v64 as real) * (2.0 * TWO63 as real) == y
  {
    hide Ldexp, Mag, Pow2, Shl64, SameCell;
    var c: int := 0x433 - ExpField(a);
    var S := TWO52 + FracField(a);
    var z := Shift64ExtraRightJam(S, c);
    var x := Mag(Magnitude(a));
    NormalOperand(a);
    assert -c == ExpField(a) - 1075;
    ShiftedBack(S, c);
    Pow2Values();
    assert Pow2(c) * Pow2(64 - c) == TWO64 by { Pow2Add(c, 64 - c); }
    if c < 64 {
      ShlKeepsLow(S, c);
    } else {
      SmallPowers();
      DivUnique(S, Pow2(c), 0, S);
    }
    y := z.v0 as real;
    CellExact(TWO63, z.v0);
    FixedScale(x, S, Pow2(c), Pow2(64 - c), z.v64, z.v0);
  }

  lemma FixedScale(x: real, S: int, p: int, r: int, n: int, f: int)
    requires 0 < p && p * r == TWO64 && x * p as real == S as real && n == S / p && f == S % p * r
    ensures (x - n as real) * (2.0 * TWO63 as real) == f as real
  {
    RealMul(p, r);
    RealMul(n, p);
    RealMul(S % p, r);
    assert S == p * n + S % p;
    FixedScaleReal(x, S as real, p as real, r as real, n as real, (S % p) as real, TWO64 as real);
  }

  lemma FixedScaleReal(x: real, S: real, p: real, r: real, n: real, m: real, w: real)
    requires x * p == S && S == n * p + m && p * r == w
    ensures (x - n) * w == m * r
  {
    assert (x - n) * p == m;
    assert (x - n) * (p * r) == ((x - n) * p) * r;
  }

  lemma FixedTiny(a: u64) returns (y: real)
    requires ExpField(a) < 0x3F3
    ensures
      var z := Shift64ExtraRightJam(if ExpField(a) == 0 then FracField(a) else TWO52 + FracField(a), 0x433 - ExpField(a));
      && SameCell(TWO63, z.v0, y)
      && (Mag(Magnitude(a)) - z.v64 as real) * (2.0 * TWO63 as real) == y
  {
    hide Mag;
    Fields(a);
    SmallCase(MinMag, false, a);
    y := Mag(Magnitude(a)) * (2.0 * TWO63 as real);
  }

  /** Rounding a double to an integer in place and converting it gives what converting directly gives, whatever the second mode. */
  lemma RoundThenConvert(a: u64, z: u64, mode: Mode, mode': Mode)
    requires IsFinite(a) && IsFinite(z) && SignOf(z) == SignOf(a) && 0.0 <= Mag(Magnitude(a))
    requires Mag(Magnitude(z)) == RoundInt(mode, SignOf(a), Mag(Magnitude(a))) as real
    ensures I64Result(mode', z) == I64Result(mode, a)
    ensures I64Flags(mode', z, true) <= {Invalid}
  {
    hide Mag;
  }

  /** A positive NaN converts to the largest integer, and the default NaN it rounds to, being negative, to the smallest. */
  lemma PositiveNaNDiffers(mode: Mode, mode': Mode)
    ensures
      var a := 0x7FF8_0000_0000_0000;
      IsNaN(a) && !SignOf(a) && I64Value(mode, a) == I64MAX && I64Value(mode', DEFAULTNAN) == I64MIN
  {
  }

  /** The two library calls in sequence give what the second gives alone exactly if a is not a positive NaN. */
  method RoundToIntThenToI64(env: Env, a: u64, mode: Mode, mode': Mode) returns (direct: int, viaRound: int)
    modifies env`flags
    ensures direct == I64Value(mode, a) && viaRound == if IsNaN(a) then I64MIN else I64Value(mode, a)
    ensures direct == viaRound <==> !IsNaN(a) || SignOf(a)
  {
    hide Mag, RoundInt, I64Result, I64Flags;
    direct := F64ToI64(env, a, mode, false);
    var z := F64RoundToInt(env, a, mode, false);
    viaRound := F64ToI64(env, z, mode', false);
    assert SignOf(DEFAULTNAN) && !IsFinite(DEFAULTNAN);
    if IsFinite(a) {
      RoundThenConvert(a, z, mode, mode');
    }
  }
}
