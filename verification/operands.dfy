/** Taking a finite operand apart: sign, exponent and a normalised 53-bit significand. */
module Operands {
  import opened Words
  import opened Dyadic
  import opened Ieee
  import opened Primitives
  import opened RoundPack

  datatype ExpSig = ExpSig(exp: int, sig: u64)

  /** softfloat_normSubnormalF64Sig */
  function NormSubnormalF64Sig(sig: u64): (z: ExpSig)
    requires 0 < sig < TWO52
  {
    SubnormalShift(sig);
    var shiftCount := Clz(sig) - 11;
    ExpSig(1 - shiftCount, Shl64(sig, shiftCount))
  }

  lemma SubnormalShift(sig: u64)
    requires 0 < sig < TWO52
    ensures 12 <= Clz(sig) <= 63
    ensures Shl64(sig, Clz(sig) - 11) == sig * Pow2(Clz(sig) - 11)
    ensures TWO52 <= sig * Pow2(Clz(sig) - 11) < TWO53
  {
    hide Pow2, Clz;
    var n := Clz(sig);
    if n < 12 {
      Pow2Mono(n, 11);
      MulMono(Pow2(n), Pow2(11), sig);
      Pow2Values();
    } else {
      assert Pow2(n) == Pow2(n - 11) * 2048 by { Pow2Add(n - 11, 11); Pow2Values(); }
      Regroup3(sig, Pow2(n - 11), 2048);
      ShlSmall(sig, n - 11);
    }
  }

  /** `sig | 2^52`: the hidden bit, already present in a normalised subnormal. */
  function WithHidden(sig: u64): (s: u64)
    requires sig < TWO53
    ensures TWO52 <= s < TWO53
  {
    if sig < TWO52 then sig + TWO52 else sig
  }

  /** A finite nonzero double as a normalised significand and the exponent that goes with it. */
  function Operand(w: u64): (z: ExpSig)
    requires IsFinite(w) && !IsZero(w)
    ensures TWO52 <= z.sig < TWO53 && -0x34 < z.exp < 0x7FF
    ensures Mag(Magnitude(w)) == Ldexp(z.sig as real, z.exp - 1075)
  {
    if ExpField(w) == 0 then
      SubnormalOperand(w);
      var n := NormSubnormalF64Sig(FracField(w));
      ExpSig(n.exp, WithHidden(n.sig))
    else
      NormalOperand(w);
      ExpSig(ExpField(w), WithHidden(FracField(w)))
  }

  lemma Fields(w: u64)
    ensures Magnitude(w) == ExpField(w) * TWO52 + FracField(w)
    ensures IsFinite(w) <==> ExpField(w) < 0x7FF
    ensures IsInf(w) <==> ExpField(w) == 0x7FF && FracField(w) == 0
    ensures IsNaN(w) <==> ExpField(w) == 0x7FF && FracField(w) != 0
    ensures IsZero(w) <==> ExpField(w) == 0 && FracField(w) == 0
  {
  }

  lemma NormalOperand(w: u64)
    requires 0 < ExpField(w) < 0x7FF
    ensures Mag(Magnitude(w)) == Ldexp((TWO52 + FracField(w)) as real, ExpField(w) - 1075)
  {
    hide Ldexp;
    Fields(w);
    PackMag(ExpField(w) - 1, TWO52 + FracField(w));
  }

  lemma SubnormalOperand(w: u64)
    requires ExpField(w) == 0 && FracField(w) != 0
    ensures
      var n := NormSubnormalF64Sig(FracField(w));
      && TWO52 <= n.sig < TWO53 && -0x34 < n.exp <= 0
      && Mag(Magnitude(w)) == Ldexp(n.sig as real, n.exp - 1075)
  {
    hide Ldexp, Pow2;
    Fields(w);
    var f := FracField(w);
    SubnormalShift(f);
    PackMag(0, f);
    LdexpUp(f, Clz(f) - 11, 1 - (Clz(f) - 11) - 1075);
  }

  // ---------------------------------------------------------------- NaNs

  /** softfloat_isSigNaNF64UI */
  predicate IsSignalingNaN(w: u64) {
    w / 0x8_0000_0000_0000 % 0x1000 == 0xFFE && w % 0x8_0000_0000_0000 != 0
  }

  /** The NaNs whose quiet bit, the top bit of the fraction, is clear. */
  lemma SignalingMeans(w: u64)
    ensures IsSignalingNaN(w) <==> IsNaN(w) && w / 0x8_0000_0000_0000 % 2 == 0
  {
    var q, low := w / 0x8_0000_0000_0000, w % 0x8_0000_0000_0000;
    var t := q / 0x1000;
    var e := q % 0x1000;
    assert q == t * 0x1000 + e;
    DivUnique(w, TWO63, t, e * 0x8_0000_0000_0000 + low);
    DivUnique(q, 2, t * 0x800 + e / 2, e % 2);
  }

  /** softfloat_propagateNaNF64UI: one default NaN, and invalid if either operand signals. */
  method PropagateNaN(env: Env, a: u64, b: u64) returns (z: u64)
    modifies env`flags
    ensures z == DEFAULTNAN == 0xFFFF_FFFF_FFFF_FFFF && env.flags == old(env.flags) + NaNFlags(a, b)
  {
    if IsSignalingNaN(a) || IsSignalingNaN(b) {
      env.RaiseFlags({Invalid});
    }
    z := DEFAULTNAN;
  }

  /** Invalid exactly if one of them is a NaN with the quiet bit clear. */
  lemma NaNFlagsMean(a: u64, b: u64)
    ensures Invalid in NaNFlags(a, b) <==>
              (IsNaN(a) && a / 0x8_0000_0000_0000 % 2 == 0) || (IsNaN(b) && b / 0x8_0000_0000_0000 % 2 == 0)
    ensures NaNFlags(a, b) <= {Invalid}
  {
    SignalingMeans(a);
    SignalingMeans(b);
  }

  function NaNFlags(a: u64, b: u64): set<Flag> {
    if IsSignalingNaN(a) || IsSignalingNaN(b) then {Invalid} else {}
  }

  // ---------------------------------------------------------------- delivering a result

  /** A signed, rounded magnitude is the rounded value of the number with that sign and magnitude. */
  lemma DeliverSigned(mode: Mode, sign: bool, x: real, r: real, w: u64, zeroSign: bool, before: set<Flag>, after: set<Flag>)
    requires 0.0 < x && r == (if sign then -x else x)
    requires w == Signed(sign, Rounded(mode, sign, x)) && after == before + RoundFlags(mode, sign, x)
    ensures Delivers(mode, r, zeroSign, w, before, after)
  {
    hide Rounded, RoundFlags;
  }

  /** A representable number is delivered as itself. */
  lemma DeliverExact(mode: Mode, w: u64, flags: set<Flag>)
    requires IsFinite(w)
    ensures Delivers(mode, Value(w), SignOf(w), w, flags, flags)
  {
    hide Mag, Rounded, RoundFlags;
    var u := Magnitude(w);
    MagZero();
    MagOrder(0, u);
    ExactRounds(mode, SignOf(w), u);
    if u != 0 {
      DeliverSigned(mode, SignOf(w), Mag(u), Value(w), w, SignOf(w), flags, flags);
    }
  }
}
