/** Exact real arithmetic on dyadic numbers: powers of two with any integer exponent, and y * 2^e. */
module Dyadic {
  import opened Words

  ghost function TwoTo(e: int): (p: real)
    ensures p > 0.0
    decreases if e < 0 then -e else e
  {
    if e == 0 then 1.0 else if e > 0 then 2.0 * TwoTo(e - 1) else TwoTo(e + 1) / 2.0
  }

  lemma TwoToStep(e: int)
    ensures TwoTo(e + 1) == 2.0 * TwoTo(e)
  {
  }

  lemma TwoToZero()
    ensures TwoTo(0) == 1.0
  {
  }

  lemma Regroup(a: real, b: real, c: real)
    ensures a * (b * c) == b * (a * c) == (a * b) * c
  {
  }

  lemma Double(p: real, q: real, r: real)
    ensures (r == p * q) <==> (2.0 * r == p * (2.0 * q))
  {
    assert p * (2.0 * q) == 2.0 * (p * q);
  }

  lemma {:induction false} TwoToAdd(a: int, b: int)
    ensures TwoTo(a + b) == TwoTo(a) * TwoTo(b)
    decreases if b < 0 then -b else b
  {
    hide TwoTo;
    if b > 0 {
      TwoToAdd(a, b - 1);
      TwoToStep(a + b - 1);
      TwoToStep(b - 1);
      Double(TwoTo(a), TwoTo(b - 1), TwoTo(a + b - 1));
    } else if b < 0 {
      TwoToAdd(a, b + 1);
      TwoToStep(a + b);
      TwoToStep(b);
      Double(TwoTo(a), TwoTo(b), TwoTo(a + b));
    } else {
      TwoToZero();
    }
  }

  lemma {:induction false} TwoToMono(a: int, b: int)
    requires a <= b
    ensures TwoTo(a) <= TwoTo(b)
    decreases b - a
  {
    if a < b {
      TwoToStep(a);
      TwoToMono(a + 1, b);
    }
  }

  lemma {:induction false} TwoToPow2(k: nat)
    ensures TwoTo(k) == Pow2(k) as real
  {
    if k > 0 {
      TwoToPow2(k - 1);
    }
  }

  lemma {:induction false} RealMulNat(a: int, b: nat)
    ensures (a * b) as real == a as real * b as real
  {
    if b > 0 {
      RealMulNat(a, b - 1);
      assert a * b == a * (b - 1) + a;
      assert b as real == (b - 1) as real + 1.0;
    }
  }

  lemma RealMul(a: int, b: int)
    ensures (a * b) as real == a as real * b as real
  {
    if b >= 0 {
      RealMulNat(a, b);
    } else {
      RealMulNat(a, -b);
      assert a * b == -(a * -b);
    }
  }

  lemma Distribute(a: real, p: real)
    ensures (a + 1.0) * p == a * p + p
  {
  }

  lemma RealMulMono(a: real, b: real, c: real)
    requires a <= b && 0.0 <= c
    ensures a * c <= b * c
  {
  }

  lemma RealMulStrict(a: real, b: real, c: real)
    requires a < b && 0.0 < c
    ensures a * c < b * c
  {
  }

  /** Comparison is unchanged by a positive factor. */
  lemma RealCompare(a: real, b: real, c: real)
    requires 0.0 < c
    ensures (a < b) <==> (a * c < b * c)
    ensures (a == b) <==> (a * c == b * c)
  {
    if a < b { RealMulStrict(a, b, c); }
    if b < a { RealMulStrict(b, a, c); }
  }

  // ---------------------------------------------------------------- y * 2^e

  ghost function Ldexp(y: real, e: int): real {
    y * TwoTo(e)
  }

  lemma LdexpOrder(a: real, b: real, e: int)
    ensures (a < b) <==> (Ldexp(a, e) < Ldexp(b, e))
    ensures (a == b) <==> (Ldexp(a, e) == Ldexp(b, e))
  {
    hide TwoTo;
    RealCompare(a, b, TwoTo(e));
  }

  lemma LdexpZero(e: int)
    ensures Ldexp(0.0, e) == 0.0
  {
    hide TwoTo;
  }

  lemma LdexpSum(a: real, b: real, e: int)
    ensures Ldexp(a + b, e) == Ldexp(a, e) + Ldexp(b, e)
    ensures Ldexp(a - b, e) == Ldexp(a, e) - Ldexp(b, e)
  {
    hide TwoTo;
  }

  lemma LdexpTwice(a: real, e: int)
    ensures Ldexp(2.0 * a, e) == 2.0 * Ldexp(a, e) == Ldexp(a, e + 1)
  {
    hide TwoTo;
    TwoToStep(e);
    Regroup(2.0, a, TwoTo(e));
  }

  lemma LdexpShift(y: real, e: int, f: int)
    ensures Ldexp(Ldexp(y, e), f) == Ldexp(y, e + f)
  {
    hide TwoTo;
    TwoToAdd(e, f);
    Regroup(y, TwoTo(e), TwoTo(f));
  }

  lemma LdexpTimes(a: real, e: int, b: real, f: int)
    ensures Ldexp(a, e) * Ldexp(b, f) == Ldexp(a * b, e + f)
  {
    hide TwoTo;
    TwoToAdd(e, f);
    FourFactors(a, TwoTo(e), b, TwoTo(f));
  }

  lemma LdexpIntTimes(m: int, e: int, n: int, f: int)
    ensures Ldexp(m as real, e) * Ldexp(n as real, f) == Ldexp((m * n) as real, e + f)
  {
    hide Ldexp;
    RealMul(m, n);
    LdexpTimes(m as real, e, n as real, f);
    assert m as real * n as real == (m * n) as real;
  }

  lemma FourFactors(a: real, p: real, b: real, q: real)
    ensures (a * p) * (b * q) == (a * b) * (p * q)
  {
    assert (a * p) * (b * q) == a * (p * (b * q));
    assert p * (b * q) == b * (p * q);
    assert a * (b * (p * q)) == (a * b) * (p * q);
  }

  /** Scaling an integer up by 2^k and its exponent down by k. */
  lemma LdexpUp(s: int, k: nat, e: int)
    ensures Ldexp((s * Pow2(k)) as real, e) == Ldexp(s as real, e + k)
  {
    hide TwoTo, Pow2;
    TwoToAdd(k, e);
    TwoToPow2(k);
    RealMul(s, Pow2(k));
    Regroup(s as real, TwoTo(k), TwoTo(e));
  }

  lemma LdexpGrows(y: real, e: int, f: int)
    requires 0.0 <= y && e <= f
    ensures Ldexp(y, e) <= Ldexp(y, f)
  {
    hide TwoTo;
    TwoToMono(e, f);
    RealMulMono(TwoTo(e), TwoTo(f), y);
  }
}
