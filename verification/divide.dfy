/** f64_div */
module Divide {
  import opened Words
  import opened Dyadic
  import opened Ieee
  import opened Primitives
  import opened RoundPack
  import opened Operands

  lemma NonzeroMag(w: u64)
    requires !IsZero(w)
    ensures 0.0 < Mag(Magnitude(w))
  {
    hide Mag;
    MagZero();
    MagOrder(0, Magnitude(w));
  }

  ghost function Quotient(a: u64, b: u64): real
    requires IsFinite(a) && IsFinite(b) && !IsZero(b)
  {
    NonzeroMag(b);
    Value(a) / Value(b)
  }

  ghost function QuotientMag(a: u64, b: u64): (q: real)
    requires !IsZero(b)
  {
    NonzeroMag(b);
    Mag(Magnitude(a)) / Mag(Magnitude(b))
  }

  method F64Div(env: Env, a: u64, b: u64) returns (z: u64)
    modifies env`flags
    ensures IsFinite(a) && IsFinite(b) && !IsZero(b) ==>
              Delivers(env.mode, Quotient(a, b), SignOf(a) != SignOf(b), z, old(env.flags), env.flags)
    ensures IsFinite(a) && !IsZero(a) && IsZero(b) ==>
              z == Signed(SignOf(a) != SignOf(b), INF) && env.flags == old(env.flags) + {DivByZero}
    ensures (IsZero(a) && IsZero(b)) || (IsInf(a) && IsInf(b)) ==>
              z == DEFAULTNAN && env.flags == old(env.flags) + {Invalid}
    ensures IsInf(a) && IsFinite(b) ==> z == Signed(SignOf(a) != SignOf(b), INF) && env.flags == old(env.flags)
    ensures IsFinite(a) && IsInf(b) ==> z == Signed(SignOf(a) != SignOf(b), 0) && env.flags == old(env.flags)
    ensures IsNaN(a) || IsNaN(b) ==> z == DEFAULTNAN && env.flags == old(env.flags) + NaNFlags(a, b)
  {
    hide Ldexp, Mag, Pow2, Clz, Rounded, RoundFlags, Delivers, NaNFlags, Quotient, QuotientMag;
    Fields(a);
    Fields(b);
    var expA: int, sigA: u64 := ExpField(a), FracField(a);
    var expB: int, sigB: u64 := ExpField(b), FracField(b);
    var signZ := SignOf(a) != SignOf(b);
    PackExact(signZ, 0, 0);
    if expA == 0x7FF {
      if sigA != 0 || (expB == 0x7FF && sigB != 0) {
        z := PropagateNaN(env, a, b);
      } else if expB == 0x7FF {
        env.RaiseFlags({Invalid});
        z := DEFAULTNAN;
      } else {
        z := Pack(signZ, 0x7FF, 0);
      }
      return;
    }
    if expB == 0x7FF {
      if sigB != 0 {
        z := PropagateNaN(env, a, b);
      } else {
        z := Pack(signZ, 0, 0);
      }
      return;
    }
    if expB == 0 {
      if sigB == 0 {
        if expA == 0 && sigA == 0 {
          env.RaiseFlags({Invalid});
          z := DEFAULTNAN;
        } else {
          env.RaiseFlags({DivByZero});
          z := Pack(signZ, 0x7FF, 0);
        }
        return;
      }
      SubnormalOperand(b);
      var n := NormSubnormalF64Sig(sigB);
      expB, sigB := n.exp, n.sig;
    }
    if expA == 0 {
      if sigA == 0 {
        z := Pack(signZ, 0, 0);
        ZeroQuotient(env.mode, a, b, z, env.flags);
        return;
      }
      SubnormalOperand(a);
      var n := NormSubnormalF64Sig(sigA);
      expA, sigA := n.exp, n.sig;
    }
    z := DivideFinite(env, a, b, ExpSig(expA, WithHidden(sigA)), ExpSig(expB, WithHidden(sigB)));
  }

  /** The part of f64_div reached by two finite nonzero operands. */
  method DivideFinite(env: Env, a: u64, b: u64, opA: ExpSig, opB: ExpSig) returns (z: u64)
    requires IsFinite(a) && !IsZero(a) && IsFinite(b) && !IsZero(b)
    requires opA == Operand(a) && opB == Operand(b)
    modifies env`flags
    ensures Delivers(env.mode, Quotient(a, b), SignOf(a) != SignOf(b), z, old(env.flags), env.flags)
  {
    hide Ldexp, Mag, Pow2, Operand, Rounded, RoundFlags, Delivers, Quotient, QuotientMag, QuotientSig;
    var signZ := SignOf(a) != SignOf(b);
    var expZ := opA.exp - opB.exp + 0x3FD;
    var sigA: u64 := opA.sig * 0x400;
    var sigB: u64 := opB.sig * 0x800;
    if sigB <= sigA + sigA {
      expZ := expZ + 1;
      sigA := sigA / 2;
    }
    var sigZ := DivideSignificands(sigA, sigB);
    QuotientJam(env.mode, signZ, a, b, sigA, sigB, expZ, sigZ);
    z := RoundPackToF64(env, signZ, expZ, sigZ);
    DeliverQuotient(env.mode, a, b, z, old(env.flags), env.flags);
  }

  lemma ZeroQuotient(mode: Mode, a: u64, b: u64, z: u64, flags: set<Flag>)
    requires IsZero(a) && IsFinite(b) && !IsZero(b)
    requires z == Signed(SignOf(a) != SignOf(b), 0)
    ensures Delivers(mode, Quotient(a, b), SignOf(a) != SignOf(b), z, flags, flags)
  {
    hide Mag, Rounded, RoundFlags;
    MagZero();
    NonzeroMag(b);
    ZeroOver(Value(a), Value(b));
  }

  lemma ZeroOver(x: real, y: real)
    requires x == 0.0 && y != 0.0
    ensures x / y == 0.0
  {
  }

  /** s rounds like the quotient: near a cut it was corrected and made sticky, elsewhere an estimate in [q, q + 2] will do. */
  ghost predicate QuotientSig(sigA: u64, sigB: u64, s: int)
    requires 0 < sigB
  {
    var n := sigA * TWO64;
    var q := n / sigB;
    s == OrBit(q, n % sigB != 0) || (q <= s <= q + 2 && s % 0x200 > 2)
  }

  /**
   The quotient estimate of f64_div, repaired only when its low nine bits are at most 2,
   the one situation in which an error of two could cross a rounding boundary.
   */
  method DivideSignificands(sigA: u64, sigB: u64) returns (sigZ: u64)
    requires sigA < sigB && TWO63 <= sigB
    ensures QuotientSig(sigA, sigB, sigZ)
  {
    hide Add128, Sub128, QuotientSig, RemainderHeld;
    ghost var n: nat := sigA * TWO64;
    DivShrinks(n, sigB);
    ghost var q: nat := n / sigB;
    assert U128(sigA, 0).Val() == n;
    sigZ := EstimateDiv128To64(sigA, 0, sigB);
    if sigZ % 0x200 <= 2 {
      var term := Mul64To128(sigB, sigZ);
      var rem := Sub128(U128(sigA, 0), term);
      RemainderStart(n, sigA, sigB, sigZ, term);
      while TWO63 <= rem.v64
        invariant q <= sigZ <= q + 2
        invariant RemainderHeld(n, sigB, sigZ, rem)
        decreases sigZ
      {
        RemainderStep(n, sigB, q, sigZ, rem);
        sigZ := sigZ - 1;
        rem := Add128(rem, U128(0, sigB));
      }
      RemainderFinal(n, sigB, q, sigZ, rem);
      sigZ := OrBit(sigZ, rem.v0 != 0);
    }
    Corrected(sigA, sigB, sigZ, n, q);
  }

  lemma Corrected(sigA: u64, sigB: u64, s: int, n: nat, q: nat)
    requires 0 < sigB && n == sigA * TWO64 && q == n / sigB
    requires s == OrBit(q, n % sigB != 0) || (q <= s <= q + 2 && s % 0x200 > 2)
    ensures QuotientSig(sigA, sigB, s)
  {
  }

  lemma RemainderStart(n: nat, a: u64, b: u64, z: u64, term: U128)
    requires TWO63 <= b && n == a * TWO64 && n / b <= z <= n / b + 2 && term.Val() == b * z
    ensures RemainderHeld(n, b, z, Sub128(U128(a, 0), term))
  {
    hide Sub128;
    Sub128Exact(U128(a, 0), term);
    RemainderRange(n, b, n / b, z);
  }

  lemma RemainderStep(n: nat, b: u64, q: int, z: u64, rem: U128)
    requires TWO63 <= b && q == n / b && q <= z <= q + 2 && RemainderHeld(n, b, z, rem) && TWO63 <= rem.v64
    ensures q < z && 1 <= z
    ensures RemainderHeld(n, b, z - 1, Add128(rem, U128(0, b)))
  {
    hide Add128;
    RemainderNegative(n, b, q, z, rem);
    Add128Exact(rem, U128(0, b));
    RemainderRange(n, b, q, z);
  }

  /** The remainder register holds n - b*z modulo 2^128. */
  ghost predicate RemainderHeld(n: int, b: int, z: int, rem: U128) {
    var r := n - b * z;
    rem.Val() == if 0 <= r then r else r + TWO128
  }

  lemma RemainderRange(n: nat, b: u64, q: int, z: int)
    requires TWO63 <= b && q == n / b && q - 1 <= z <= q + 2
    ensures -2 * b <= n - b * z < 2 * b
    ensures z <= q ==> 0 <= n - b * z
    ensures q < z ==> n - b * z < 0
    ensures z == q ==> n - b * z == n % b
    ensures n - b * (z - 1) == n - b * z + b
  {
    assert n == b * q + n % b;
    var k := z - q;
    assert b * z == b * q + b * k;
  }

  lemma RemainderNegative(n: nat, b: u64, q: int, z: u64, rem: U128)
    requires TWO63 <= b && q == n / b && q <= z <= q + 2 && RemainderHeld(n, b, z, rem) && TWO63 <= rem.v64
    ensures q < z && 1 <= z
    ensures n - b * z < 0
  {
    RemainderRange(n, b, q, z);
    DivShrinks(n, b);
  }

  lemma RemainderFinal(n: nat, b: u64, q: int, z: u64, rem: U128)
    requires TWO63 <= b && q == n / b && q <= z <= q + 2 && RemainderHeld(n, b, z, rem) && rem.v64 < TWO63
    ensures z == q && (rem.v0 != 0 <==> n % b != 0)
  {
    RemainderRange(n, b, q, z);
  }

  /** The scaled exact quotient, in the units of the integer significand. */
  lemma QuotientScaled(a: u64, b: u64, sigA: u64, sigB: u64, expZ: int) returns (y: real)
    requires IsFinite(a) && !IsZero(a) && IsFinite(b) && !IsZero(b)
    requires sigB == Operand(b).sig * 0x800
    requires || (sigA == Operand(a).sig * 0x400 && expZ == Operand(a).exp - Operand(b).exp + 0x3FD)
             || (sigA == Operand(a).sig * 0x200 && expZ == Operand(a).exp - Operand(b).exp + 0x3FE)
    ensures Ldexp(y, expZ - 1084) == QuotientMag(a, b)
    ensures y * sigB as real == (sigA * TWO64) as real
    ensures 0.0 < QuotientMag(a, b)
  {
    hide Ldexp, Mag, Pow2, Operand;
    NonzeroMag(a);
    NonzeroMag(b);
    var qm := QuotientMag(a, b);
    var ma: int, ea := Operand(a).sig, Operand(a).exp;
    var mb: int, eb := Operand(b).sig, Operand(b).exp;
    DivisionExact(Mag(Magnitude(a)), Mag(Magnitude(b)));
    var k := 1084 - expZ;
    y := Ldexp(qm, k);
    LdexpShift(qm, k, expZ - 1084);
    LdexpId(qm);
    Pow2Values();
    CrossMultiply(qm, ma, ea - 1075, mb, eb - 1075, k);
    LdexpId((sigA * TWO64) as real);
    if sigA == ma * 0x400 && expZ == ea - eb + 0x3FD {
      PowerOf(ma, 10);
    } else {
      PowerOf(ma, 9);
    }
  }

  /** From q * (mb * 2^eb) = ma * 2^ea, the product of the scaled quotient and the divisor significand. */
  lemma CrossMultiply(q: real, ma: int, ea: int, mb: int, eb: int, k: int)
    requires q * Ldexp(mb as real, eb) == Ldexp(ma as real, ea)
    ensures Ldexp(q, k) * (mb * 0x800) as real == Ldexp(ma as real, ea - eb + k + 11)
  {
    hide Ldexp, Pow2;
    var p := q * mb as real;
    LdexpId(q);
    LdexpTimes(q, 0, mb as real, eb);
    assert Ldexp(p, eb) == Ldexp(ma as real, ea);
    Pow2Values();
    LdexpUp(mb, 11, 0);
    LdexpId((mb * 0x800) as real);
    TimesScaled(q, k, (mb * 0x800) as real, mb as real, 11, p);
    LdexpShift(p, eb, k + 11 - eb);
    LdexpShift(ma as real, ea, k + 11 - eb);
    assert ea + (k + 11 - eb) == ea - eb + k + 11 && eb + (k + 11 - eb) == k + 11;
    assert Ldexp(p, k + 11) == Ldexp(ma as real, ea - eb + k + 11);
  }

  lemma TimesScaled(q: real, k: int, c: real, b: real, f: int, p: real)
    requires c == Ldexp(b, f) && p == q * b
    ensures Ldexp(q, k) * c == Ldexp(p, k + f)
  {
    hide Ldexp;
    LdexpTimes(q, k, b, f);
  }

  lemma PowerOf(m: int, k: nat)
    ensures Ldexp(m as real, k + 64) == (m * Pow2(k) * TWO64) as real
  {
    hide Ldexp, Pow2;
    Pow2Values();
    LdexpUp(m * Pow2(k), 64, 0);
    LdexpUp(m, k, 64);
    LdexpId((m * Pow2(k) * TWO64) as real);
    assert 64 + k == k + 64;
  }

  lemma DivisionExact(x: real, y: real)
    requires 0.0 < x && 0.0 < y
    ensures x / y * y == x && 0.0 < x / y
  {
  }

  lemma QuotientJam(mode: Mode, sign: bool, a: u64, b: u64, sigA: u64, sigB: u64, expZ: int, sigZ: u64)
    requires IsFinite(a) && !IsZero(a) && IsFinite(b) && !IsZero(b)
    requires sigB == Operand(b).sig * 0x800 && QuotientSig(sigA, sigB, sigZ)
    requires if sigB <= 2 * (Operand(a).sig * 0x400)
             then sigA == Operand(a).sig * 0x200 && expZ == Operand(a).exp - Operand(b).exp + 0x3FE
             else sigA == Operand(a).sig * 0x400 && expZ == Operand(a).exp - Operand(b).exp + 0x3FD
    ensures TWO62 <= sigZ < TWO63
    ensures 0.0 < QuotientMag(a, b) && 0.0 <= Ldexp(sigZ as real, expZ - 1084)
    ensures Rounded(mode, sign, Ldexp(sigZ as real, expZ - 1084)) == Rounded(mode, sign, QuotientMag(a, b))
    ensures RoundFlags(mode, sign, Ldexp(sigZ as real, expZ - 1084)) == RoundFlags(mode, sign, QuotientMag(a, b))
  {
    hide Ldexp, Mag, Pow2, Operand, SameCell, Rounded, RoundFlags, QuotientMag, QuotientSig;
    var y := QuotientScaled(a, b, sigA, sigB, expZ);
    QuotientCell(sigA, sigB, sigZ, y);
    assert Pow2(9) == 0x200 && Pow2(62) == TWO62 by { Pow2Values(); }
    JamInvisible(mode, sign, 9, sigZ, y, expZ - 1084);
  }

  /** Repaired or not, the significand lies in the right cell of half a unit in the last place, and is normalised. */
  lemma QuotientCell(sigA: u64, sigB: u64, sigZ: u64, y: real)
    requires TWO63 <= sigB && 2 * sigA < sigB && sigB <= 4 * sigA
    requires QuotientSig(sigA, sigB, sigZ) && y * sigB as real == (sigA * TWO64) as real
    ensures TWO62 <= sigZ < TWO63 && SameCell(0x200, sigZ, y)
  {
    hide SameCell;
    var n: nat := sigA * TWO64;
    var q := n / sigB;
    NormalQuotient(sigA, sigB);
    if sigZ == OrBit(q, n % sigB != 0) {
      JamQuotient(n, sigB, y);
      CellCoarsen(2, 0x100, sigZ, y);
    } else {
      RealMul(q, sigB);
      QuotientSplit(n, sigB, q);
      Squeeze(q as real, sigB as real, (n % sigB) as real, y);
      EstimateCell(q, sigZ, y);
    }
  }

  lemma QuotientSplit(n: int, b: int, q: int)
    requires 0 < b && q == n / b
    ensures n == q * b + n % b
  {
  }

  lemma NormalQuotient(sigA: u64, sigB: u64)
    requires TWO63 <= sigB && 2 * sigA < sigB <= 4 * sigA
    ensures TWO62 <= sigA * TWO64 / sigB < TWO63
  {
    var n, b := sigA * TWO64, sigB as int;
    var q := n / b;
    assert n == b * q + n % b;
    if q < TWO62 {
      MulMono(q, TWO62 - 1, b);
    } else if TWO63 <= q {
      MulMono(TWO63, q, b);
    }
  }

  lemma EstimateCell(q: int, s: int, y: real)
    requires q as real <= y < q as real + 1.0 && q <= s <= q + 2 && s % 0x200 > 2
    requires TWO62 <= q < TWO63
    ensures SameCell(0x200, s, y) && TWO62 <= s < TWO63
  {
  }

  lemma DeliverQuotient(mode: Mode, a: u64, b: u64, z: u64, before: set<Flag>, after: set<Flag>)
    requires IsFinite(a) && IsFinite(b) && !IsZero(b) && 0.0 < QuotientMag(a, b)
    requires z == Signed(SignOf(a) != SignOf(b), Rounded(mode, SignOf(a) != SignOf(b), QuotientMag(a, b)))
    requires after == before + RoundFlags(mode, SignOf(a) != SignOf(b), QuotientMag(a, b))
    ensures Delivers(mode, Quotient(a, b), SignOf(a) != SignOf(b), z, before, after)
  {
    hide Mag, Rounded, RoundFlags;
    NonzeroMag(b);
    SignedQuotient(Mag(Magnitude(a)), Mag(Magnitude(b)));
    DeliverSigned(mode, SignOf(a) != SignOf(b), QuotientMag(a, b), Quotient(a, b), z,
                  SignOf(a) != SignOf(b), before, after);
  }

  lemma SignedQuotient(x: real, y: real)
    requires 0.0 < y
    ensures -x / y == -(x / y) && x / -y == -(x / y) && -x / -y == x / y
  {
    var q := x / y;
    assert q * y == x;
    assert -q * y == -x;
    assert -q * -y == x;
  }
}
