/** f64_mul */
module Multiply {
  import opened Words
  import opened Dyadic
  import opened Ieee
  import opened Primitives
  import opened RoundPack
  import opened Operands

  method F64Mul(env: Env, a: u64, b: u64) returns (z: u64)
    modifies env`flags
    ensures IsFinite(a) && IsFinite(b) ==>
              Delivers(env.mode, Value(a) * Value(b), SignOf(a) != SignOf(b), z, old(env.flags), env.flags)
    ensures IsNaN(a) || IsNaN(b) ==> z == DEFAULTNAN && env.flags == old(env.flags) + NaNFlags(a, b)
    ensures (IsInf(a) && IsZero(b)) || (IsZero(a) && IsInf(b)) ==>
              z == DEFAULTNAN && env.flags == old(env.flags) + {Invalid}
    ensures (IsInf(a) && !IsNaN(b) && !IsZero(b)) || (!IsNaN(a) && !IsZero(a) && IsInf(b)) ==>
              z == Signed(SignOf(a) != SignOf(b), INF) && env.flags == old(env.flags)
  {
    hide Ldexp, Mag, Pow2, Clz, Rounded, RoundFlags, Delivers, NaNFlags;
    Fields(a);
    Fields(b);
    var expA, sigA: u64 := ExpField(a) as int, FracField(a);
    var expB, sigB: u64 := ExpField(b) as int, FracField(b);
    var signZ := SignOf(a) != SignOf(b);
    if expA == 0x7FF {
      if sigA != 0 || (expB == 0x7FF && sigB != 0) {
        z := PropagateNaN(env, a, b);
      } else {
        z := InfArg(env, signZ, expB != 0 || sigB != 0);
      }
      return;
    }
    if expB == 0x7FF {
      if sigB != 0 {
        z := PropagateNaN(env, a, b);
      } else {
        z := InfArg(env, signZ, expA != 0 || sigA != 0);
      }
      return;
    }
    if expA == 0 {
      if sigA == 0 {
        z := Pack(signZ, 0, 0);
        ZeroProduct(env.mode, a, b, z, env.flags);
        return;
      }
      SubnormalOperand(a);
      var n := NormSubnormalF64Sig(sigA);
      expA, sigA := n.exp, n.sig;
    }
    if expB == 0 {
      if sigB == 0 {
        z := Pack(signZ, 0, 0);
        ZeroProduct(env.mode, a, b, z, env.flags);
        return;
      }
      SubnormalOperand(b);
      var n := NormSubnormalF64Sig(sigB);
      expB, sigB := n.exp, n.sig;
    }
    var expZ := expA + expB - 0x3FF;
    assert ExpSig(expA, WithHidden(sigA)) == Operand(a);
    assert ExpSig(expB, WithHidden(sigB)) == Operand(b);
    sigA := WithHidden(sigA) * 0x400;
    sigB := WithHidden(sigB) * 0x800;
    var sigZ128 := Mul64To128(sigA, sigB);
    var sigZ: u64 := OrBit(sigZ128.v64, sigZ128.v0 != 0);
    ProductJam(env.mode, signZ, a, b, sigZ128);
    if sigZ < TWO62 {
      LdexpTwice(sigZ as real, expZ - 1 - 1084);
      expZ := expZ - 1;
      sigZ := sigZ * 2;
    }
    z := RoundPackToF64(env, signZ, expZ, sigZ);
    DeliverProduct(env.mode, a, b, z, old(env.flags), env.flags);
  }

  /** Infinity times a nonzero number, or the invalid infinity times zero. */
  method InfArg(env: Env, signZ: bool, magBits: bool) returns (z: u64)
    modifies env`flags
    ensures if magBits then z == Signed(signZ, INF) && env.flags == old(env.flags)
            else z == DEFAULTNAN && env.flags == old(env.flags) + {Invalid}
  {
    if !magBits {
      env.RaiseFlags({Invalid});
      z := DEFAULTNAN;
    } else {
      z := Pack(signZ, 0x7FF, 0);
    }
  }

  lemma ZeroProduct(mode: Mode, a: u64, b: u64, z: u64, flags: set<Flag>)
    requires IsFinite(a) && IsFinite(b) && (IsZero(a) || IsZero(b))
    requires z == Pack(SignOf(a) != SignOf(b), 0, 0)
    ensures Delivers(mode, Value(a) * Value(b), SignOf(a) != SignOf(b), z, flags, flags)
  {
    hide Mag, Rounded, RoundFlags;
    MagZero();
    PackExact(SignOf(a) != SignOf(b), 0, 0);
    assert Value(a) == 0.0 || Value(b) == 0.0;
  }

  /** The magnitude of the exact product. */
  ghost function ProductMag(a: u64, b: u64): real {
    Mag(Magnitude(a)) * Mag(Magnitude(b))
  }

  /** The jammed high word of the product rounds like the exact product. */
  lemma ProductJam(mode: Mode, sign: bool, a: u64, b: u64, p: U128)
    requires IsFinite(a) && !IsZero(a) && IsFinite(b) && !IsZero(b)
    requires p.Val() == Operand(a).sig * 0x400 * (Operand(b).sig * 0x800)
    ensures
      var s := OrBit(p.v64, p.v0 != 0);
      var e := Operand(a).exp + Operand(b).exp - 0x3FF - 1084;
      && TWO61 <= s < TWO63
      && 0.0 < Ldexp(s as real, e) && 0.0 < ProductMag(a, b)
      && Rounded(mode, sign, Ldexp(s as real, e)) == Rounded(mode, sign, ProductMag(a, b))
      && RoundFlags(mode, sign, Ldexp(s as real, e)) == RoundFlags(mode, sign, ProductMag(a, b))
  {
    hide Ldexp, Mag, Pow2, Operand, SameCell, Rounded, RoundFlags;
    var s := OrBit(p.v64, p.v0 != 0);
    var ma: int, mb: int := Operand(a).sig, Operand(b).sig;
    var e := Operand(a).exp + Operand(b).exp - 0x3FF - 1084;
    ProductRange(ma, mb);
    Pow2Values();
    var y := Ldexp(p.Val() as real, -64);
    HighWordJam(p);
    LdexpShift(p.Val() as real, -64, e);
    assert Pow2(21) == 0x20_0000 by { Pow2Add(20, 1); }
    LdexpUp(ma * mb, 21, -64 + e);
    LdexpIntTimes(ma, Operand(a).exp - 1075, mb, Operand(b).exp - 1075);
    assert p.Val() == ma * mb * Pow2(21);
    assert -64 + e + 21 == Operand(a).exp - 1075 + (Operand(b).exp - 1075);
    assert Ldexp(y, e) == ProductMag(a, b);
    Pow2Mono(54, 61);
    JamInvisible(mode, sign, 1, s, y, e);
  }

  lemma ProductRange(ma: int, mb: int)
    requires TWO52 <= ma < TWO53 && TWO52 <= mb < TWO53
    ensures ma * 0x400 * (mb * 0x800) == ma * mb * 0x20_0000
    ensures TWO61 * TWO64 <= ma * mb * 0x20_0000 < TWO63 * TWO64
  {
    MulMono(TWO52, ma, mb);
    MulMono(ma, TWO53, mb);
  }

  /** Keeping the high word and a sticky bit for the low word stands for the value over 2^64. */
  lemma HighWordJam(p: U128)
    ensures SameCell(2, OrBit(p.v64, p.v0 != 0), Ldexp(p.Val() as real, -64))
  {
    hide Ldexp, Pow2, SameCell;
    Pow2Values();
    ShiftedBack(p.Val(), 64);
    DivUnique(p.Val(), TWO64, p.v64, p.v0);
    JamQuotient(p.Val(), TWO64, Ldexp(p.Val() as real, -64));
  }

  lemma DeliverProduct(mode: Mode, a: u64, b: u64, z: u64, before: set<Flag>, after: set<Flag>)
    requires IsFinite(a) && IsFinite(b) && 0.0 < ProductMag(a, b)
    requires z == Signed(SignOf(a) != SignOf(b), Rounded(mode, SignOf(a) != SignOf(b), ProductMag(a, b)))
    requires after == before + RoundFlags(mode, SignOf(a) != SignOf(b), ProductMag(a, b))
    ensures Delivers(mode, Value(a) * Value(b), SignOf(a) != SignOf(b), z, before, after)
  {
    hide Mag, Rounded, RoundFlags;
    DeliverSigned(mode, SignOf(a) != SignOf(b), ProductMag(a, b), Value(a) * Value(b), z,
                  SignOf(a) != SignOf(b), before, after);
  }
}
