/** f64_add and f64_sub, through softfloat_addMagsF64 and softfloat_subMagsF64. */
module AddSub {
  import opened Words
  import opened Dyadic
  import opened Ieee
  import opened Primitives
  import opened RoundPack
  import opened Operands

  // ---------------------------------------------------------------- aligned operands

  /** The significand in units of 2^(ExpField - 1075); a subnormal counts double, its exponent field being 0 for 1. */
  function Aligned(w: u64): (s: nat)
    ensures s < TWO53
  {
    if ExpField(w) != 0 then TWO52 + FracField(w) else FracField(w) + FracField(w)
  }

  lemma AlignedMag(w: u64, k: nat)
    requires IsFinite(w)
    ensures Mag(Magnitude(w)) == Ldexp((Aligned(w) * Pow2(k)) as real, ExpField(w) - 1075 - k)
  {
    hide Ldexp, Pow2;
    Fields(w);
    LdexpUp(Aligned(w), k, ExpField(w) - 1075 - k);
    assert ExpField(w) - 1075 - k + k == ExpField(w) - 1075;
    if ExpField(w) != 0 {
      NormalOperand(w);
    } else {
      PackMag(0, FracField(w));
      LdexpTwice(FracField(w) as real, -1075);
    }
  }

  /** Adding an even number to, or subtracting from one, a jammed number keeps the cell. */
  lemma JamOffset(a: int, s: int, y: real)
    requires MultipleOf(a, 2) && SameCell(2, s, y)
    ensures SameCell(2, a + s, a as real + y)
    ensures SameCell(2, a - s, a as real - y)
  {
  }

  /** The exact result of adding or subtracting magnitudes at the exponent of the larger, before jamming the smaller. */
  lemma AlignedSum(big: u64, small: u64, k: nat)
    requires IsFinite(big) && IsFinite(small) && ExpField(small) < ExpField(big)
    ensures
      var d, e := ExpField(big) as int - ExpField(small), ExpField(big) - 1075 - k;
      var S, y := (Aligned(big) * Pow2(k)) as real, Ldexp((Aligned(small) * Pow2(k)) as real, -d);
      && Ldexp(S + y, e) == Mag(Magnitude(big)) + Mag(Magnitude(small))
      && Ldexp(S - y, e) == Mag(Magnitude(big)) - Mag(Magnitude(small))
  {
    hide Ldexp, Pow2, Mag;
    var d, e := ExpField(big) as int - ExpField(small), ExpField(big) - 1075 - k;
    var s := (Aligned(small) * Pow2(k)) as real;
    AlignedMag(big, k);
    AlignedMag(small, k);
    LdexpShift(s, -d, e);
    assert -d + e == ExpField(small) - 1075 - k;
    LdexpSum((Aligned(big) * Pow2(k)) as real, Ldexp(s, -d), e);
  }

  /** The same with the shift by k written as the multiplication by c the code uses. */
  lemma ScaledSum(big: u64, small: u64, k: nat, c: int, S: int, s: int)
    requires IsFinite(big) && IsFinite(small) && ExpField(small) < ExpField(big)
    requires c == Pow2(k) && S == Aligned(big) * c && s == Aligned(small) * c
    ensures
      var d, e := ExpField(big) as int - ExpField(small), ExpField(big) - 1075 - k;
      var y := Ldexp(s as real, -d);
      && Ldexp(S as real + y, e) == Mag(Magnitude(big)) + Mag(Magnitude(small))
      && Ldexp(S as real - y, e) == Mag(Magnitude(big)) - Mag(Magnitude(small))
  {
    hide Ldexp, Pow2, Mag, Aligned;
    AlignedSum(big, small, k);
  }

  // ---------------------------------------------------------------- adding magnitudes

  method AddMags(env: Env, a: u64, b: u64, signZ: bool) returns (z: u64)
    modifies env`flags
    ensures IsFinite(a) && IsFinite(b) ==>
              && 0.0 <= Mag(Magnitude(a)) + Mag(Magnitude(b))
              && z == Signed(signZ, Rounded(env.mode, signZ, Mag(Magnitude(a)) + Mag(Magnitude(b))))
              && env.flags == old(env.flags) + RoundFlags(env.mode, signZ, Mag(Magnitude(a)) + Mag(Magnitude(b)))
    ensures IsNaN(a) || IsNaN(b) ==> z == DEFAULTNAN && env.flags == old(env.flags) + NaNFlags(a, b)
    ensures IsInf(a) && !IsNaN(b) ==> z == a && env.flags == old(env.flags)
    ensures IsFinite(a) && IsInf(b) ==> z == Signed(signZ, INF) && env.flags == old(env.flags)
  {
    hide Ldexp, Mag, Pow2, Rounded, RoundFlags, NaNFlags, Shift64RightJam;
    Fields(a);
    Fields(b);
    var expA: int, sigA: u64 := ExpField(a), FracField(a);
    var expB: int, sigB: u64 := ExpField(b), FracField(b);
    var expDiff := expA - expB;
    sigA := sigA * 0x200;
    sigB := sigB * 0x200;
    var expZ: int, sigZ: u64;
    if expDiff == 0 {
      if expA == 0x7FF {
        if sigA != 0 || sigB != 0 {
          z := PropagateNaN(env, a, b);
        } else {
          z := a;
        }
        return;
      }
      if expA == 0 {
        SubnormalSum(env.mode, signZ, a, b);
        z := Pack(signZ, 0, (a + b) % TWO64 % TWO63);
        return;
      }
      expZ := expA;
      sigZ := TWO62 + sigA + sigB;
      EqualExponentSum(a, b);
    } else {
      if expDiff < 0 {
        if expB == 0x7FF {
          if sigB != 0 {
            z := PropagateNaN(env, a, b);
          } else {
            z := Pack(signZ, 0x7FF, 0);
          }
          return;
        }
        expZ := expB;
        sigA := sigA + if expA != 0 then TWO61 else sigA;
        JammedSum(b, a);
        sigA := Shift64RightJam(sigA, -expDiff);
      } else {
        if expA == 0x7FF {
          if sigA != 0 {
            z := PropagateNaN(env, a, b);
          } else {
            z := a;
          }
          return;
        }
        expZ := expA;
        sigB := sigB + if expB != 0 then TWO61 else sigB;
        JammedSum(a, b);
        sigB := Shift64RightJam(sigB, expDiff);
      }
      sigZ := TWO61 + sigA + sigB;
      if sigZ < TWO62 {
        LdexpTwice(sigZ as real, expZ - 1 - 1084);
        expZ := expZ - 1;
        sigZ := sigZ * 2;
      }
    }
    z := RoundPackToF64(env, signZ, expZ, sigZ);
  }

  /** Two subnormals add as integers, carrying into the first normal binade without rounding. */
  lemma SubnormalSum(mode: Mode, sign: bool, a: u64, b: u64)
    requires ExpField(a) == 0 && ExpField(b) == 0
    ensures 0.0 <= Mag(Magnitude(a)) + Mag(Magnitude(b))
    ensures Pack(sign, 0, (a + b) % TWO64 % TWO63) == Signed(sign, Rounded(mode, sign, Mag(Magnitude(a)) + Mag(Magnitude(b))))
    ensures RoundFlags(mode, sign, Mag(Magnitude(a)) + Mag(Magnitude(b))) == {}
  {
    hide Ldexp, Rounded, RoundFlags, Mag, Pack, Magnitude, ExpField, FracField;
    Fields(a);
    Fields(b);
    var fa, fb := FracField(a), FracField(b);
    PackMag(0, fa);
    PackMag(0, fb);
    PackMag(0, fa + fb);
    LdexpSum(fa as real, fb as real, -1074);
    ExactRounds(mode, sign, fa + fb);
    PackExact(sign, 0, fa + fb);
    MaskedSum(a, b);
  }

  lemma MaskedSum(a: u64, b: u64)
    requires Magnitude(a) < TWO52 && Magnitude(b) < TWO52
    ensures (a + b) % TWO64 % TWO63 == Magnitude(a) + Magnitude(b)
  {
    var ma, mb := Magnitude(a), Magnitude(b);
    assert a == ma || a == TWO63 + ma;
    assert b == mb || b == TWO63 + mb;
  }

  lemma EqualExponentSum(a: u64, b: u64)
    requires IsFinite(a) && IsFinite(b) && ExpField(a) == ExpField(b) != 0
    ensures Ldexp((TWO62 + FracField(a) * 0x200 + FracField(b) * 0x200) as real, ExpField(a) - 1084)
            == Mag(Magnitude(a)) + Mag(Magnitude(b))
  {
    hide Ldexp, Mag, Pow2;
    Pow2Values();
    AlignedMag(a, 9);
    AlignedMag(b, 9);
    LdexpSum((Aligned(a) * 0x200) as real, (Aligned(b) * 0x200) as real, ExpField(a) - 1084);
  }

  /** Jamming the smaller addend does not change how the sum rounds. */
  lemma JammedSum(big: u64, small: u64)
    requires IsFinite(big) && IsFinite(small) && ExpField(small) < ExpField(big)
    ensures
      var s := Shift64RightJam(Aligned(small) * 0x200, ExpField(big) - ExpField(small));
      var t, e, x := Aligned(big) * 0x200 + s, ExpField(big) - 1084, Mag(Magnitude(big)) + Mag(Magnitude(small));
      && s < TWO62 && TWO61 <= t < TWO63
      && RoundsAs(Ldexp(t as real, e), x)
  {
    hide Ldexp, Mag, Pow2, RoundsAs, Shift64RightJam, MultipleOf;
    var S, s, d := Aligned(big) * 0x200, Aligned(small) * 0x200, ExpField(big) as int - ExpField(small);
    Pow2Values();
    ScaledSum(big, small, 9, 0x200, S, s);
    IsMultiple(S, 2, Aligned(big) * 0x100);
    JammedSumRounds(S, s, d, ExpField(big) - 1084);
  }

  lemma JammedSumRounds(S: nat, small: u64, d: int, e: int)
    requires 0 < d && MultipleOf(S, 2) && TWO61 <= S && small < TWO63
    ensures Shift64RightJam(small, d) < TWO62
    ensures RoundsAs(Ldexp((S + Shift64RightJam(small, d)) as real, e), Ldexp(S as real + Ldexp(small as real, -d), e))
  {
    hide Ldexp, Pow2, RoundsAs, Shift64RightJam, SameCell, MultipleOf;
    var s, y := Shift64RightJam(small, d), Ldexp(small as real, -d);
    Pow2Values();
    Pow2Mono(54, 61);
    JamHalves(small, d);
    Shift64Jam(small, d);
    JamOffset(S, s, y);
    JamRoundsAs(S + s, S as real + y, e);
  }

  // ---------------------------------------------------------------- subtracting magnitudes

  /** The exact signed difference the caller asked for. */
  ghost function Difference(a: u64, b: u64, signZ: bool): real {
    if signZ then Mag(Magnitude(b)) - Mag(Magnitude(a)) else Mag(Magnitude(a)) - Mag(Magnitude(b))
  }

  method SubMags(env: Env, a: u64, b: u64, signZ: bool) returns (z: u64)
    modifies env`flags
    ensures IsFinite(a) && IsFinite(b) ==>
              Delivers(env.mode, Difference(a, b, signZ), env.mode == Min, z, old(env.flags), env.flags)
    ensures IsNaN(a) || IsNaN(b) ==> z == DEFAULTNAN && env.flags == old(env.flags) + NaNFlags(a, b)
    ensures IsInf(a) && IsInf(b) ==> z == DEFAULTNAN && env.flags == old(env.flags) + {Invalid}
    ensures IsInf(a) && IsFinite(b) ==> z == a && env.flags == old(env.flags)
    ensures IsFinite(a) && IsInf(b) ==> z == Signed(!signZ, INF) && env.flags == old(env.flags)
  {
    hide Ldexp, Mag, Pow2, Rounded, RoundFlags, NaNFlags, Shift64RightJam, Delivers, Difference;
    Fields(a);
    Fields(b);
    var expA: int, sigA: u64 := ExpField(a), FracField(a);
    var expB: int, sigB: u64 := ExpField(b), FracField(b);
    var expDiff := expA - expB;
    sigA := sigA * 0x400;
    sigB := sigB * 0x400;
    if 0 < expDiff {
      if expA == 0x7FF {
        if sigA != 0 {
          z := PropagateNaN(env, a, b);
        } else {
          z := a;
        }
        return;
      }
      JammedDifference(a, b);
      sigB := sigB + if expB != 0 then TWO62 else sigB;
      sigB := Shift64RightJam(sigB, expDiff);
      sigA := sigA + TWO62;
      z := NormRoundPackToF64(env, signZ, expA - 1, sigA - sigB);
      DeliverDifference(env.mode, a, b, signZ, signZ, z, old(env.flags), env.flags);
    } else if expDiff < 0 {
      if expB == 0x7FF {
        if sigB != 0 {
          z := PropagateNaN(env, a, b);
        } else {
          z := Pack(!signZ, 0x7FF, 0);
        }
        return;
      }
      JammedDifference(b, a);
      sigA := sigA + if expA != 0 then TWO62 else sigA;
      sigA := Shift64RightJam(sigA, -expDiff);
      sigB := sigB + TWO62;
      z := NormRoundPackToF64(env, !signZ, expB - 1, sigB - sigA);
      DeliverDifference(env.mode, a, b, signZ, !signZ, z, old(env.flags), env.flags);
    } else {
      if expA == 0x7FF {
        if sigA != 0 || sigB != 0 {
          z := PropagateNaN(env, a, b);
        } else {
          env.RaiseFlags({Invalid});
          z := DEFAULTNAN;
        }
        return;
      }
      if expA == 0 {
        expA, expB := 1, 1;
      }
      if sigB < sigA {
        EqualExponentDifference(a, b);
        z := NormRoundPackToF64(env, signZ, expA - 1, sigA - sigB);
        DeliverDifference(env.mode, a, b, signZ, signZ, z, old(env.flags), env.flags);
      } else if sigA < sigB {
        EqualExponentDifference(b, a);
        z := NormRoundPackToF64(env, !signZ, expB - 1, sigB - sigA);
        DeliverDifference(env.mode, a, b, signZ, !signZ, z, old(env.flags), env.flags);
      } else {
        z := Pack(env.mode == Min, 0, 0);
        DeliverZero(env.mode, a, b, signZ, z, env.flags);
      }
    }
  }

  lemma EqualExponentDifference(a: u64, b: u64)
    requires IsFinite(a) && IsFinite(b) && ExpField(a) == ExpField(b) && FracField(b) < FracField(a)
    ensures
      var e := if ExpField(a) == 0 then 1 else ExpField(a);
      Ldexp((FracField(a) * 0x400 - FracField(b) * 0x400) as real, e - 1 - 1084) == Mag(Magnitude(a)) - Mag(Magnitude(b))
    ensures Mag(Magnitude(b)) < Mag(Magnitude(a))
  {
    hide Ldexp, Mag, Pow2;
    Fields(a);
    Fields(b);
    Pow2Values();
    MagOrder(Magnitude(b), Magnitude(a));
    var e := ExpField(a) - 1085;
    AlignedMag(a, 10);
    AlignedMag(b, 10);
    LdexpSum((Aligned(a) * 0x400) as real, (Aligned(b) * 0x400) as real, e);
    LdexpTwice((FracField(a) * 0x400 - FracField(b) * 0x400) as real, e);
  }

  lemma JamQuarters(a: u64, count: nat)
    requires a < TWO63 && 2 <= count
    ensures Shift64RightJam(a, count) < TWO61
  {
    hide Pow2;
    Shift64Exact(a, count);
    Pow2Mono(2, count);
    assert Pow2(2) == 4 by { Pow2Values(); Pow2Add(1, 1); }
    DivQuarters(a, Pow2(count));
  }

  lemma DivQuarters(a: u64, d: int)
    requires a < TWO63 && 4 <= d
    ensures 0 <= a / d < TWO61
  {
    DivShrinks(a, d);
    var q := a / d;
    assert a == d * q + a % d;
    MulMono(4, d, q);
  }

  /** A shift by one loses nothing when the last bit is clear. */
  lemma ShiftByOne(a: u64)
    requires MultipleOf(a, 2)
    ensures Shift64RightJam(a, 1) == a / 2
    ensures (a / 2) as real == Ldexp(a as real, -1)
  {
    hide Ldexp, Pow2;
    Pow2Values();
    Shift64Exact(a, 1);
    LdexpUp(a / 2, 1, -1);
    LdexpId((a / 2) as real);
  }

  /** Jamming the smaller operand does not change how the difference rounds, even after cancellation. */
  lemma JammedDifference(big: u64, small: u64)
    requires IsFinite(big) && IsFinite(small) && ExpField(small) < ExpField(big)
    ensures
      var s := Shift64RightJam(Aligned(small) * 0x400, ExpField(big) - ExpField(small));
      var t, e, x := Aligned(big) * 0x400 - s, ExpField(big) - 1085, Mag(Magnitude(big)) - Mag(Magnitude(small));
      && s < TWO62 && 0 < t < TWO63
      && RoundsAs(Ldexp(t as real, e), x)
  {
    hide Ldexp, Mag, Pow2, RoundsAs, Shift64RightJam, MultipleOf;
    var S, s, d := Aligned(big) * 0x400, Aligned(small) * 0x400, ExpField(big) as int - ExpField(small);
    Pow2Values();
    ScaledSum(big, small, 10, 0x400, S, s);
    IsMultiple(S, 2, Aligned(big) * 0x200);
    IsMultiple(s, 2, Aligned(small) * 0x200);
    Smaller(big, small, S, s, d, ExpField(big) - 1085);
    JammedDifferenceRounds(S, s, d, ExpField(big) - 1085);
  }

  lemma Smaller(big: u64, small: u64, S: int, s: int, d: int, e: int)
    requires IsFinite(big) && IsFinite(small) && ExpField(small) < ExpField(big)
    requires Ldexp(S as real - Ldexp(s as real, -d), e) == Mag(Magnitude(big)) - Mag(Magnitude(small))
    ensures 0.0 < Ldexp(S as real - Ldexp(s as real, -d), e)
  {
    hide Ldexp, Mag;
    Fields(big);
    Fields(small);
    MagOrder(Magnitude(small), Magnitude(big));
  }

  lemma JammedDifferenceRounds(S: nat, small: u64, d: int, e: int)
    requires 0 < d && MultipleOf(S, 2) && TWO62 <= S && MultipleOf(small, 2) && small < TWO63
    requires 0.0 < Ldexp(S as real - Ldexp(small as real, -d), e)
    ensures Shift64RightJam(small, d) < TWO62
    ensures RoundsAs(Ldexp((S - Shift64RightJam(small, d)) as real, e), Ldexp(S as real - Ldexp(small as real, -d), e))
  {
    hide Ldexp, Pow2, RoundsAs, Shift64RightJam, SameCell, MultipleOf;
    var s, y := Shift64RightJam(small, d), Ldexp(small as real, -d);
    JamHalves(small, d);
    if d == 1 {
      ShiftByOne(small);
      assert (S - s) as real == S as real - y;
      RoundsAsSelf(Ldexp(S as real - y, e));
    } else {
      JamQuarters(small, d);
      Shift64Jam(small, d);
      JamOffset(S, s, y);
      Pow2Values();
      Pow2Mono(54, 61);
      JamRoundsAs(S - s, S as real - y, e);
    }
  }

  lemma DeliverDifference(mode: Mode, a: u64, b: u64, signZ: bool, sign: bool, z: u64, before: set<Flag>, after: set<Flag>)
    requires
      var x := if sign == signZ then Mag(Magnitude(a)) - Mag(Magnitude(b)) else Mag(Magnitude(b)) - Mag(Magnitude(a));
      0.0 < x && z == Signed(sign, Rounded(mode, sign, x)) && after == before + RoundFlags(mode, sign, x)
    ensures Delivers(mode, Difference(a, b, signZ), mode == Min, z, before, after)
  {
    hide Mag, Rounded, RoundFlags, Delivers;
    var x := if sign == signZ then Mag(Magnitude(a)) - Mag(Magnitude(b)) else Mag(Magnitude(b)) - Mag(Magnitude(a));
    DeliverSigned(mode, sign, x, Difference(a, b, signZ), z, mode == Min, before, after);
  }

  lemma DeliverZero(mode: Mode, a: u64, b: u64, signZ: bool, z: u64, flags: set<Flag>)
    requires Magnitude(a) == Magnitude(b) && z == Pack(mode == Min, 0, 0)
    ensures Delivers(mode, Difference(a, b, signZ), mode == Min, z, flags, flags)
  {
    hide Mag, Rounded, RoundFlags;
    PackExact(mode == Min, 0, 0);
  }

  // ---------------------------------------------------------------- f64_add and f64_sub

  /** The sign of an exact zero sum (IEEE 754-2008 section 6.3): like signs keep it, unlike signs give + except toward -infinity. */
  predicate ZeroSumSign(mode: Mode, signA: bool, signB: bool) {
    if signA == signB then signA else mode == Min
  }

  /** The sign of an exact zero sum (section 6.3): that of both operands, else plus, except when rounding down. */
  lemma ZeroSumSignMeans(mode: Mode, signA: bool, signB: bool)
    ensures signA && signB ==> ZeroSumSign(mode, signA, signB)
    ensures !signA && !signB ==> !ZeroSumSign(mode, signA, signB)
    ensures signA != signB ==> (ZeroSumSign(mode, signA, signB) <==> mode == Min)
  {
  }

  method F64Add(env: Env, a: u64, b: u64) returns (z: u64)
    modifies env`flags
    ensures IsFinite(a) && IsFinite(b) ==>
              Delivers(env.mode, Value(a) + Value(b), ZeroSumSign(env.mode, SignOf(a), SignOf(b)),
                       z, old(env.flags), env.flags)
    ensures IsNaN(a) || IsNaN(b) ==> z == DEFAULTNAN && env.flags == old(env.flags) + NaNFlags(a, b)
    ensures IsInf(a) && IsInf(b) && SignOf(a) != SignOf(b) ==>
              z == DEFAULTNAN && env.flags == old(env.flags) + {Invalid}
    ensures IsInf(a) && (IsFinite(b) || (IsInf(b) && SignOf(a) == SignOf(b))) ==> z == a && env.flags == old(env.flags)
    ensures IsFinite(a) && IsInf(b) ==> z == b && env.flags == old(env.flags)
  {
    hide Mag, Rounded, RoundFlags, NaNFlags, Delivers;
    if SignOf(a) == SignOf(b) {
      z := AddMags(env, a, b, SignOf(a));
      if IsFinite(a) && IsFinite(b) {
        DeliverSum(env.mode, SignOf(a), Magnitude(a), Magnitude(b), z, old(env.flags), env.flags);
      }
    } else {
      z := SubMags(env, a, b, SignOf(a));
    }
  }

  method F64Sub(env: Env, a: u64, b: u64) returns (z: u64)
    modifies env`flags
    ensures IsFinite(a) && IsFinite(b) ==>
              Delivers(env.mode, Value(a) - Value(b), ZeroSumSign(env.mode, SignOf(a), !SignOf(b)),
                       z, old(env.flags), env.flags)
    ensures IsNaN(a) || IsNaN(b) ==> z == DEFAULTNAN && env.flags == old(env.flags) + NaNFlags(a, b)
    ensures IsInf(a) && IsInf(b) && SignOf(a) == SignOf(b) ==>
              z == DEFAULTNAN && env.flags == old(env.flags) + {Invalid}
    ensures IsInf(a) && (IsFinite(b) || (IsInf(b) && SignOf(a) != SignOf(b))) ==> z == a && env.flags == old(env.flags)
    ensures IsFinite(a) && IsInf(b) ==> z == Signed(!SignOf(b), INF) && env.flags == old(env.flags)
  {
    hide Mag, Rounded, RoundFlags, NaNFlags, Delivers;
    if SignOf(a) == SignOf(b) {
      z := SubMags(env, a, b, SignOf(a));
    } else {
      z := AddMags(env, a, b, SignOf(a));
      if IsFinite(a) && IsFinite(b) {
        DeliverSum(env.mode, SignOf(a), Magnitude(a), Magnitude(b), z, old(env.flags), env.flags);
      }
    }
  }

  /** A rounded sum of magnitudes under a common sign; a zero sum keeps that sign. */
  lemma DeliverSum(mode: Mode, sign: bool, ma: nat, mb: nat, z: u64, before: set<Flag>, after: set<Flag>)
    requires 0.0 <= Mag(ma) + Mag(mb)
    requires z == Signed(sign, Rounded(mode, sign, Mag(ma) + Mag(mb)))
    requires after == before + RoundFlags(mode, sign, Mag(ma) + Mag(mb))
    ensures Delivers(mode, if sign then -Mag(ma) - Mag(mb) else Mag(ma) + Mag(mb), sign, z, before, after)
  {
    hide Mag, Rounded, RoundFlags;
    var x := Mag(ma) + Mag(mb);
    if x == 0.0 {
      MagZero();
      ExactRounds(mode, sign, 0);
    } else {
      DeliverSigned(mode, sign, x, if sign then -x else x, z, sign, before, after);
    }
  }
}
