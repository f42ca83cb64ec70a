/** The single rounding point: softfloat_roundPackToF64 and the normalising wrapper around it. */
module RoundPack {
  import opened Words
  import opened Dyadic
  import opened Ieee
  import opened Primitives

  /** The floating-point environment: the rounding mode of the instruction and the accrued exception flags. */
  class Env {
    var mode: Mode
    var flags: set<Flag>

    constructor (mode: Mode)
      ensures this.mode == mode && flags == {}
    {
      this.mode := mode;
      flags := {};
    }

    method RaiseFlags(raised: set<Flag>)
      modifies this`flags
      ensures flags == old(flags) + raised
    {
      flags := flags + raised;
    }
  }

  function ExpField(w: u64): (e: nat)
    ensures e < 0x800
  {
    w / TWO52 % 0x800
  }

  function FracField(w: u64): (f: nat)
    ensures f < TWO52
  {
    w % TWO52
  }

  /** packToF64UI adds its three fields, so a significand with its leading bit set carries into the exponent. */
  function Pack(sign: bool, exp: nat, sig: nat): u64 {
    ((if sign then TWO63 else 0) + exp * TWO52 + sig) % TWO64
  }

  // ---------------------------------------------------------------- rounding ten guard bits

  function RoundIncrement(mode: Mode, sign: bool): int {
    if mode == NearestEven || mode == NearestMaxMag then 0x200
    else if mode == MinMag || mode == (if sign then Max else Min) then 0
    else 0x3FF
  }

  /** Drop the ten guard bits of s after adding the increment; a tie clears the last bit in the even mode. */
  function RoundSig(mode: Mode, sign: bool, s: nat): (r: nat) {
    var r := (s + RoundIncrement(mode, sign)) / 0x400;
    if s % 0x400 == 0x200 && mode == NearestEven then r - r % 2 else r
  }

  /** The guard bits of s say where y * 2^(t - 1084) lies between its floor and the next pattern. */
  lemma FloorFromBits(t: nat, s: nat, y: real)
    requires s < TWO63 && (t == 0 || TWO62 <= s) && SameCell(0x200, s, y)
    ensures 0.0 <= Ldexp(y, t - 1084)
    ensures
      var u, x := t * TWO52 + s / 0x400, Ldexp(y, t - 1084);
      && Mag(u) <= x < Mag(u + 1)
      && ((x == Mag(u)) <==> s % 0x400 == 0)
      && ((2.0 * x < Mag(u) + Mag(u + 1)) <==> s % 0x400 < 0x200)
      && ((2.0 * x == Mag(u) + Mag(u + 1)) <==> s % 0x400 == 0x200)
  {
    hide Ldexp, Mag, SameCell;
    var m := s / 0x400;
    PatternFromBits(t, m);
    LdexpZero(t - 1084);
    CutCompare(s, y, 0, t - 1084);
    CutCompare(s, y, 2 * m, t - 1084);
    CutCompare(s, y, 2 * m + 1, t - 1084);
    CutCompare(s, y, 2 * m + 2, t - 1084);
  }

  /** The places where rounding changes its mind, as multiples of half the last place kept. */
  lemma PatternFromBits(t: nat, m: nat)
    requires m < TWO53 && (t == 0 || TWO52 <= m)
    ensures Mag(t * TWO52 + m) == Ldexp((2 * m * 0x200) as real, t - 1084)
    ensures Mag(t * TWO52 + m + 1) == Ldexp(((2 * m + 2) * 0x200) as real, t - 1084)
    ensures Mag(t * TWO52 + m) + Mag(t * TWO52 + m + 1) == 2.0 * Ldexp(((2 * m + 1) * 0x200) as real, t - 1084)
  {
    hide Ldexp, Mag, Pow2;
    Pow2Values();
    PackMag(t, m);
    PackMag(t, m + 1);
    assert t * TWO52 + (m + 1) == t * TWO52 + m + 1;
    LdexpUp(m, 10, t - 1084);
    LdexpUp(m + 1, 10, t - 1084);
    assert t - 1084 + 10 == t - 1074;
    assert m * TWO10 == 2 * m * 0x200 && (m + 1) * TWO10 == (2 * m + 2) * 0x200;
    LdexpSum((2 * m * 0x200) as real, ((2 * m + 2) * 0x200) as real, t - 1084);
    LdexpTwice(((2 * m + 1) * 0x200) as real, t - 1084);
  }

  lemma CutCompare(s: nat, y: real, k: nat, e: int)
    requires SameCell(0x200, s, y)
    ensures (Ldexp(y, e) < Ldexp((k * 0x200) as real, e)) <==> s < k * 0x200
    ensures (Ldexp(y, e) == Ldexp((k * 0x200) as real, e)) <==> s == k * 0x200
  {
    hide Ldexp;
    CellCompare(0x200, s, y, k);
    LdexpOrder(y, (k * 0x200) as real, e);
  }

  /** The integer rounding of ten guard bits is the IEEE rounding of the number they stand for. */
  lemma RoundSigCorrect(mode: Mode, sign: bool, t: nat, s: nat, y: real)
    requires s < TWO63 && (t == 0 || TWO62 <= s) && SameCell(0x200, s, y)
    ensures 0.0 <= Ldexp(y, t - 1084)
    ensures RoundUnbounded(mode, sign, Ldexp(y, t - 1084)) == t * TWO52 + RoundSig(mode, sign, s)
    ensures Mag(RoundUnbounded(mode, sign, Ldexp(y, t - 1084))) == Ldexp(y, t - 1084) <==> s % 0x400 == 0
    ensures t * TWO52 + s / 0x400 < TWO52 <==> Ldexp(y, t - 1084) < Mag(TWO52)
  {
    hide Ldexp, Mag, SameCell, RoundUnbounded, RoundSig;
    FloorFromBits(t, s, y);
    RoundSigCases(mode, sign, s);
    RoundAtFloor(mode, sign, t * TWO52 + s / 0x400, Ldexp(y, t - 1084), s % 0x400);
  }

  /** Rounding a number x whose floor u and guard bits r are known. */
  lemma RoundAtFloor(mode: Mode, sign: bool, u: nat, x: real, r: int)
    requires 0.0 <= x && Mag(u) <= x < Mag(u + 1)
    requires x == Mag(u) <==> r == 0
    requires 2.0 * x < Mag(u) + Mag(u + 1) <==> r < 0x200
    requires 2.0 * x == Mag(u) + Mag(u + 1) <==> r == 0x200
    ensures FloorPattern(x) == u
    ensures
      var up := r != 0 && match mode
        case NearestEven => r > 0x200 || (r == 0x200 && u % 2 == 1)
        case NearestMaxMag => r >= 0x200
        case MinMag => false
        case Min => sign
        case Max => !sign;
      RoundUnbounded(mode, sign, x) == if up then u + 1 else u
    ensures Mag(RoundUnbounded(mode, sign, x)) == x <==> r == 0
    ensures u < TWO52 <==> x < Mag(TWO52)
  {
    hide Ldexp, Mag;
    FloorUnique(u, FloorPattern(x), x);
    MagOrder(u, TWO52);
    MagOrder(u + 1, TWO52);
  }

  lemma RoundSigCases(mode: Mode, sign: bool, s: nat)
    ensures
      var m, r := s / 0x400, s % 0x400;
      var up := r != 0 && match mode
        case NearestEven => r > 0x200 || (r == 0x200 && m % 2 == 1)
        case NearestMaxMag => r >= 0x200
        case MinMag => false
        case Min => sign
        case Max => !sign;
      RoundSig(mode, sign, s) == if up then m + 1 else m
  {
  }

  /** What roundPackToF64 accepts: a normalised significand, or one that needs no rounding. */
  predicate Packable(exp: int, sig: u64) {
    && -0x8000 <= exp < 0x8000
    && sig < TWO63
    && (TWO62 <= sig || (exp == 0 && sig % 0x400 == 0) || (sig == 0 && exp < 0x7FD))
  }

  method RoundPackToF64(env: Env, sign: bool, exp: int, sig: u64) returns (z: u64)
    requires Packable(exp, sig)
    modifies env`flags
    ensures 0.0 <= Ldexp(sig as real, exp - 1084)
    ensures z == Signed(sign, Rounded(env.mode, sign, Ldexp(sig as real, exp - 1084)))
    ensures env.flags == old(env.flags) + RoundFlags(env.mode, sign, Ldexp(sig as real, exp - 1084))
  {
    hide Ldexp, Rounded, RoundFlags, Pack, Shift64RightJam, RoundSig;
    var roundNearestEven := env.mode == NearestEven;
    var roundIncrement := 0x200;
    if !roundNearestEven && env.mode != NearestMaxMag {
      roundIncrement := if env.mode == MinMag || env.mode == (if sign then Max else Min) then 0 else 0x3FF;
    }
    assert roundIncrement == RoundIncrement(env.mode, sign);
    hide RoundIncrement;
    var exp', sig' := exp, sig;
    var roundBits := sig' % 0x400;
    if 0x7FD <= exp' % 0x10000 {
      if exp' < 0 {
        // tininess is detected before rounding, so every result this small is tiny
        sig' := Shift64RightJam(sig', -exp');
        exp' := 0;
        roundBits := sig' % 0x400;
        if roundBits != 0 {
          env.RaiseFlags({Underflow});
        }
      } else if 0x7FD < exp' || TWO63 <= sig' + roundIncrement {
        env.RaiseFlags({Overflow, Inexact});
        OverflowPacked(env.mode, sign, exp, sig);
        z := Pack(sign, 0x7FF, 0) - (if roundIncrement == 0 then 1 else 0);
        return;
      }
    }
    if roundBits != 0 {
      env.RaiseFlags({Inexact});
    }
    RoundedPacked(env.mode, sign, exp, sig);
    RoundSigSteps(env.mode, sign, sig');
    sig' := (sig' + roundIncrement) / 0x400;
    if roundBits == 0x200 && roundNearestEven {
      sig' := sig' - sig' % 2;
    }
    z := Pack(sign, if sig' != 0 then exp' else 0, sig');
  }

  lemma RoundSigSteps(mode: Mode, sign: bool, s: nat)
    ensures
      var r := (s + RoundIncrement(mode, sign)) / 0x400;
      0 <= RoundSig(mode, sign, s) == if s % 0x400 == 0x200 && mode == NearestEven then r - r % 2 else r
  {
  }

  lemma PackExact(sign: bool, exp: nat, sig: nat)
    requires exp * TWO52 + sig < TWO63
    ensures Pack(sign, exp, sig) == Signed(sign, exp * TWO52 + sig)
  {
  }

  lemma OverflowPacked(mode: Mode, sign: bool, exp: int, sig: u64)
    requires Packable(exp, sig)
    requires 0x7FD < exp || (exp == 0x7FD && TWO63 <= sig + RoundIncrement(mode, sign))
    ensures 0.0 <= Ldexp(sig as real, exp - 1084)
    ensures Pack(sign, 0x7FF, 0) > 0
    ensures Signed(sign, Rounded(mode, sign, Ldexp(sig as real, exp - 1084))) ==
            Pack(sign, 0x7FF, 0) - if RoundIncrement(mode, sign) == 0 then 1 else 0
    ensures RoundFlags(mode, sign, Ldexp(sig as real, exp - 1084)) == {Overflow, Inexact}
  {
    hide Ldexp, Rounded, RoundFlags, RoundIncrement;
    OverflowCase(mode, sign, exp, sig);
  }

  lemma RoundedPacked(mode: Mode, sign: bool, exp: int, sig: u64)
    requires Packable(exp, sig)
    requires exp < 0x7FD || (exp == 0x7FD && sig + RoundIncrement(mode, sign) < TWO63)
    ensures 0.0 <= Ldexp(sig as real, exp - 1084)
    ensures
      var s := if exp < 0 then Shift64RightJam(sig, -exp) else sig;
      var r := RoundSig(mode, sign, s);
      && r <= TWO53
      && Signed(sign, Rounded(mode, sign, Ldexp(sig as real, exp - 1084))) ==
         Pack(sign, if r == 0 || exp < 0 then 0 else exp, r)
      && RoundFlags(mode, sign, Ldexp(sig as real, exp - 1084)) ==
         (if s % 0x400 == 0 then {} else if exp < 0 then {Underflow, Inexact} else {Inexact})
  {
    hide Ldexp, Rounded, RoundFlags, RoundIncrement, RoundSig, Pack, Shift64RightJam;
    RoundedCase(mode, sign, exp, sig);
    var s := if exp < 0 then Shift64RightJam(sig, -exp) else sig;
    var r := RoundSig(mode, sign, s);
    PackExact(sign, if r == 0 || exp < 0 then 0 else exp, r);
  }

  lemma CellExact(g: int, s: int)
    requires g > 0
    ensures SameCell(g, s, s as real)
  {
  }

  lemma RoundSigRange(mode: Mode, sign: bool, s: nat)
    requires s < TWO63
    ensures RoundSig(mode, sign, s) <= TWO53
    ensures RoundSig(mode, sign, s) == TWO53 <==> TWO63 <= s + RoundIncrement(mode, sign)
    ensures TWO62 <= s ==> TWO52 <= RoundSig(mode, sign, s)
    ensures s < TWO62 ==> RoundSig(mode, sign, s) <= TWO52
  {
  }

  lemma OverflowCase(mode: Mode, sign: bool, exp: int, sig: u64)
    requires Packable(exp, sig)
    requires 0x7FD < exp || (exp == 0x7FD && TWO63 <= sig + RoundIncrement(mode, sign))
    ensures 0.0 <= Ldexp(sig as real, exp - 1084)
    ensures Rounded(mode, sign, Ldexp(sig as real, exp - 1084)) == if RoundIncrement(mode, sign) == 0 then MAXFINITE else INF
    ensures RoundFlags(mode, sign, Ldexp(sig as real, exp - 1084)) == {Overflow, Inexact}
  {
    hide Ldexp, Mag, SameCell, RoundUnbounded, RoundSig;
    CellExact(0x200, sig);
    RoundSigCorrect(mode, sign, exp, sig, sig as real);
    RoundSigRange(mode, sign, sig);
  }

  lemma RoundedCase(mode: Mode, sign: bool, exp: int, sig: u64)
    requires Packable(exp, sig)
    requires exp < 0x7FD || (exp == 0x7FD && sig + RoundIncrement(mode, sign) < TWO63)
    ensures 0.0 <= Ldexp(sig as real, exp - 1084)
    ensures
      var s := if exp < 0 then Shift64RightJam(sig, -exp) else sig;
      var t := if exp < 0 then 0 else exp;
      var r := RoundSig(mode, sign, s);
      && r <= TWO53 && (if r == 0 then 0 else t) * TWO52 + r < INF
      && Rounded(mode, sign, Ldexp(sig as real, exp - 1084)) == (if r == 0 then 0 else t) * TWO52 + r
      && RoundFlags(mode, sign, Ldexp(sig as real, exp - 1084)) ==
         (if s % 0x400 == 0 then {} else if exp < 0 then {Underflow, Inexact} else {Inexact})
  {
    hide Ldexp, Mag, SameCell, Rounded, RoundFlags, RoundSig;
    if exp < 0 {
      TinyCase(mode, sign, exp, sig);
    } else if TWO62 <= sig {
      NormalCase(mode, sign, exp, sig);
    } else if exp == 0 {
      NormalCase(mode, sign, exp, sig);
    } else {
      assert RoundSig(mode, sign, 0) == 0 by { RoundSigCases(mode, sign, 0); }
      ExactRounds(mode, sign, 0);
      MagZero();
      LdexpZero(exp - 1084);
    }
  }

  /** Below the normal range the significand is first shifted to the fixed exponent of the subnormals. */
  lemma TinyCase(mode: Mode, sign: bool, exp: int, sig: u64)
    requires exp < 0 && sig < TWO63
    ensures 0.0 <= Ldexp(sig as real, exp - 1084)
    ensures
      var s := Shift64RightJam(sig, -exp);
      && RoundSig(mode, sign, s) <= TWO52
      && Rounded(mode, sign, Ldexp(sig as real, exp - 1084)) == RoundSig(mode, sign, s)
      && RoundFlags(mode, sign, Ldexp(sig as real, exp - 1084)) ==
         (if s % 0x400 == 0 then {} else {Underflow, Inexact})
  {
    hide Ldexp, Mag, SameCell, RoundUnbounded, RoundSig, Shift64RightJam;
    var s := Shift64RightJam(sig, -exp);
    var y := Ldexp(sig as real, exp);
    Shift64Jam(sig, -exp);
    assert -(-exp) == exp;
    CellCoarsen(2, 0x100, s, y);
    JamHalves(sig, -exp);
    RoundSigCorrect(mode, sign, 0, s, y);
    RoundSigRange(mode, sign, s);
    LdexpShift(sig as real, exp, -1084);
  }

  lemma JamHalves(a: u64, count: nat)
    requires a < TWO63 && 0 < count
    ensures Shift64RightJam(a, count) < TWO62
  {
    Pow2Mono(1, count);
    Shift64Exact(a, count);
    DivHalves(a, Pow2(count));
  }

  lemma DivHalves(a: u64, d: int)
    requires a < TWO63 && 2 <= d
    ensures 0 <= a / d < TWO62
  {
    DivShrinks(a, d);
    var q := a / d;
    assert a == d * q + a % d;
    MulMono(2, d, q);
  }

  lemma NormalCase(mode: Mode, sign: bool, exp: int, sig: u64)
    requires sig < TWO63 && if TWO62 <= sig then 0 <= exp else exp == 0 && sig % 0x400 == 0
    requires exp < 0x7FD || (exp == 0x7FD && sig + RoundIncrement(mode, sign) < TWO63)
    ensures 0.0 <= Ldexp(sig as real, exp - 1084)
    ensures exp * TWO52 + RoundSig(mode, sign, sig) < INF && RoundSig(mode, sign, sig) <= TWO53
    ensures RoundSig(mode, sign, sig) == 0 ==> exp == 0
    ensures Rounded(mode, sign, Ldexp(sig as real, exp - 1084)) == exp * TWO52 + RoundSig(mode, sign, sig)
    ensures RoundFlags(mode, sign, Ldexp(sig as real, exp - 1084)) == if sig % 0x400 == 0 then {} else {Inexact}
  {
    hide Ldexp, Mag, SameCell, RoundUnbounded, RoundSig;
    CellExact(0x200, sig);
    RoundSigCorrect(mode, sign, exp, sig, sig as real);
    RoundSigRange(mode, sign, sig);
  }

  // ---------------------------------------------------------------- normalising before rounding

  /**
   softfloat_normRoundPackToF64: sig need not be normalised.  When at least ten leading zeros
   leave nothing to round, the value is packed directly; that shortcut is exact.
   */
  method NormRoundPackToF64(env: Env, sign: bool, exp: int, sig: u64) returns (z: u64)
    requires -0x7F00 <= exp < 0x7F00 && sig < TWO63 && (sig == 0 ==> exp < 0x83C)
    modifies env`flags
    ensures 0.0 <= Ldexp(sig as real, exp - 1084)
    ensures z == Signed(sign, Rounded(env.mode, sign, Ldexp(sig as real, exp - 1084)))
    ensures env.flags == old(env.flags) + RoundFlags(env.mode, sign, Ldexp(sig as real, exp - 1084))
  {
    hide Ldexp, Rounded, RoundFlags, Pack, Shl64;
    var n := CountLeadingZeros64(sig);
    Normalised(sig, n, exp);
    var shiftCount := n - 1;
    var exp' := exp - shiftCount;
    if 10 <= shiftCount && exp' % 0x10000 < 0x7FD {
      PackedExactly(env.mode, sign, exp', sig, shiftCount);
      z := Pack(sign, if sig != 0 then exp' else 0, Shl64(sig, shiftCount - 10));
    } else {
      z := RoundPackToF64(env, sign, exp', Shl64(sig, shiftCount));
    }
  }

  lemma Normalised(sig: u64, n: nat, exp: int)
    requires n == Clz(sig) && sig < TWO63
    ensures 1 <= n <= 64
    ensures Shl64(sig, n - 1) == sig * Pow2(n - 1) < TWO63
    ensures sig != 0 ==> TWO62 <= sig * Pow2(n - 1)
    ensures Ldexp((sig * Pow2(n - 1)) as real, exp - (n - 1) - 1084) == Ldexp(sig as real, exp - 1084)
  {
    hide Ldexp, Pow2, Shl64, Clz;
    if sig == 0 {
      ShlSmall(sig, 63);
    } else {
      NormalisedProduct(sig, n);
      ShlSmall(sig, n - 1);
    }
    LdexpUp(sig, n - 1, exp - (n - 1) - 1084);
    assert exp - (n - 1) - 1084 + (n - 1) == exp - 1084;
  }

  lemma NormalisedProduct(sig: u64, n: nat)
    requires LeadingZeros(sig, n) && 0 < sig < TWO63
    ensures 1 <= n && TWO62 <= sig * Pow2(n - 1) < TWO63
  {
    if n > 0 {
      Regroup3(sig, 2, Pow2(n - 1));
    }
  }

  lemma PackedExactly(mode: Mode, sign: bool, exp: int, sig: u64, shift: nat)
    requires shift == Clz(sig) - 1 && 10 <= shift && sig < TWO63
    requires exp % 0x10000 < 0x7FD && -0x8000 <= exp < 0x8000
    ensures sig != 0 ==> 0 <= exp
    ensures 0.0 <= Ldexp(sig as real, exp + shift - 1084)
    ensures Rounded(mode, sign, Ldexp(sig as real, exp + shift - 1084)) < INF
    ensures Signed(sign, Rounded(mode, sign, Ldexp(sig as real, exp + shift - 1084))) ==
            Pack(sign, if sig != 0 then exp else 0, Shl64(sig, shift - 10))
    ensures RoundFlags(mode, sign, Ldexp(sig as real, exp + shift - 1084)) == {}
  {
    hide Ldexp, Mag, Rounded, RoundFlags, Pack, Pow2, Shl64, Clz;
    if sig == 0 {
      LdexpZero(exp + shift - 1084);
      MagZero();
      ExactRounds(mode, sign, 0);
      ShlSmall(sig, shift - 10);
      PackExact(sign, 0, 0);
    } else {
      NormalisedProduct(sig, shift + 1);
      assert Pow2(shift) == Pow2(shift - 10) * 1024 by { Pow2Add(shift - 10, 10); Pow2Values(); }
      var m := sig * Pow2(shift - 10);
      Regroup3(sig, Pow2(shift - 10), 1024);
      ShlSmall(sig, shift - 10);
      PackMag(exp, m);
      LdexpUp(sig, shift - 10, exp - 1074);
      assert exp - 1074 + (shift - 10) == exp + shift - 1084;
      ExactRounds(mode, sign, exp * TWO52 + m);
      PackExact(sign, exp, m);
    }
  }
}
