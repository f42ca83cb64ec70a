/** f64_rem: the exact IEEE remainder. */
module Remainder {
  import opened Words
  import opened Dyadic
  import opened Ieee
  import opened Primitives
  import opened RoundPack
  import opened Operands
  import opened MulAdd
  import opened Divide

  ghost function AbsR(x: real): real {
    if x < 0.0 then -x else x
  }

  /** r = x - n*y where n is the integer nearest x/y, the even one in a tie (IEEE 754-2008 section 5.3.1). */
  ghost predicate IsRemainder(x: real, y: real, n: int, r: real) {
    && r == x - n as real * y
    && 2.0 * AbsR(r) <= AbsR(y)
    && (2.0 * AbsR(r) == AbsR(y) ==> n % 2 == 0)
  }

  // ---------------------------------------------------------------- the integer reduction

  /** q stands for floor(sigA * 2^64 / sigB) or up to two less. */
  ghost predicate Underestimate(sigA: u64, sigB: u64, q: int)
    requires 0 < sigB
  {
    0 <= q && sigA * TWO64 / sigB - 2 <= q <= sigA * TWO64 / sigB
  }

  method EstimateBelow(sigA: u64, sigB: u64) returns (q: u64)
    requires sigA < sigB && TWO63 <= sigB
    ensures Underestimate(sigA, sigB, q)
  {
    assert U128(sigA, 0).Val() == sigA * TWO64;
    q := EstimateDiv128To64(sigA, 0, sigB);
    DivShrinks(sigA * TWO64, sigB);
    q := if 2 < q then q - 2 else 0;
  }

  lemma UnderestimateBounds(sigA: u64, sigB: u64, q: int)
    requires 0 < sigB && Underestimate(sigA, sigB, q)
    ensures 0 <= sigA * TWO64 - sigB * q < 3 * sigB
  {
    var n, b: int := sigA * TWO64, sigB;
    var Q := n / b;
    assert n == b * Q + n % b;
    MulMono(q, Q, b);
    MulMono(Q - 2, q, b);
    assert (Q - 2) * b == b * Q - 2 * b;
  }

  /** One pass of the first loop takes 62 quotient bits off. */
  lemma ReduceStep(sigA: u64, sigB: u64, q: u64)
    requires TWO63 <= sigB && MultipleOf(sigB, 0x800) && MultipleOf(sigA, 0x200) && Underestimate(sigA, sigB, q)
    ensures
      var r := -(sigB / 4 * q) % TWO64;
      && r == sigA * TWO62 - sigB / 4 * q
      && 0 <= r < sigB && MultipleOf(r, 0x200)
  {
    hide MultipleOf, Underestimate;
    UnderestimateBounds(sigA, sigB, q);
    MultipleQuotient(sigA, 0x200);
    MultipleQuotient(sigB, 0x800);
    ReduceWrap(sigA / 0x200, sigB / 0x800, q, sigB / 0x800 * q);
  }

  lemma ReduceWrap(g: int, h: int, q: int, x: int)
    requires x == h * q && 0 <= 0x200 * g * TWO64 - 0x800 * h * q < 3 * (0x800 * h) && 0x800 * h < TWO64
    ensures
      var r := 0x200 * g * TWO62 - 0x200 * h * q;
      && -(0x200 * h * q) % TWO64 == r
      && 0 <= r < 0x800 * h && MultipleOf(r, 0x200)
  {
    assert 0x200 * h * q == 0x200 * x;
    assert 0x800 * h * q == 0x800 * x;
    WrapLinear(g, h, x);
  }

  lemma WrapLinear(g: int, h: int, x: int)
    requires 0 <= 0x200 * g * TWO64 - 0x800 * x < 3 * (0x800 * h) && 0x800 * h < TWO64
    ensures
      var r := 0x200 * g * TWO62 - 0x200 * x;
      && -(0x200 * x) % TWO64 == r
      && 0 <= r < 0x800 * h && MultipleOf(r, 0x200)
  {
    var r := 0x200 * (g * TWO62 - x);
    IsMultiple(r, 0x200, g * TWO62 - x);
    DivUnique(-(0x200 * x), TWO64, -(0x80 * g), r);
  }

  /** What the pass means for the whole dividend: the part taken off is an even multiple of the divisor. */
  lemma ReduceAccount(A: int, N: int, sigA: int, sigB: int, q: int, r: int, D: nat)
    requires 64 < D && A == N * sigB + sigA * Pow2(D) && MultipleOf(N, 2)
    requires MultipleOf(sigB, 4) && r == sigA * TWO62 - sigB / 4 * q
    ensures A == (N + q * Pow2(D - 64)) * sigB + r * Pow2(D - 62)
    ensures MultipleOf(N + q * Pow2(D - 64), 2)
  {
    hide Pow2, MultipleOf;
    MultipleQuotient(sigB, 4);
    assert Pow2(D) == TWO62 * Pow2(D - 62) by { Pow2Add(62, D - 62); Pow2Values(); }
    assert Pow2(D - 62) == 4 * Pow2(D - 64) by { Pow2Add(1, D - 64); Pow2Add(1, D - 63); Pow2Values(); }
    assert Pow2(D - 64) == 2 * Pow2(D - 65) by { Pow2Add(1, D - 65); Pow2Values(); }
    EvenPart(q, Pow2(D - 65));
    MultipleSum(N, q * Pow2(D - 64), 2);
    AccountLinear(A, N, sigA, sigB / 4, q, r, Pow2(D - 64));
  }

  lemma AccountLinear(A: int, N: int, sigA: int, b: int, q: int, r: int, p: int)
    requires A == N * (4 * b) + sigA * (TWO62 * (4 * p)) && r == sigA * TWO62 - b * q
    ensures A == (N + q * p) * (4 * b) + r * (4 * p)
  {
    TakenOff(r, b, q, p);
    Regroup3(sigA, TWO62, 4 * p);
    MulSucc(N, q * p, 4 * b);
    assert r + b * q == sigA * TWO62;
  }

  lemma EvenPart(q: int, h: int)
    ensures MultipleOf(q * (2 * h), 2)
  {
    IsMultiple(q * (2 * h), 2, q * h);
  }

  lemma TakenOff(r: int, b: int, q: int, p: int)
    ensures (r + b * q) * (4 * p) == r * (4 * p) + q * p * (4 * b)
  {
    assert (r + b * q) * (4 * p) == r * (4 * p) + (b * q) * (4 * p);
    assert (b * q) * (4 * p) == q * p * (4 * b);
  }

  /** The last partial reduction, by D quotient bits. */
  lemma ReduceLast(sigA: u64, sigB: u64, e: u64, D: nat)
    requires TWO63 <= sigB && MultipleOf(sigB, 0x800) && MultipleOf(sigA, 0x200) && Underestimate(sigA, sigB, e) && 0 < D <= 64
    ensures
      var q := e / Pow2(64 - D);
      var r := (Shl64(sigA / 2, D - 1) - sigB / 4 * q % TWO64) % TWO64;
      && 4 * r == sigA * Pow2(D) - sigB * q
      && 0 <= r && 4 * r < 3 * sigB && MultipleOf(r, 0x100)
  {
    hide Pow2, Shl64, MultipleOf, Underestimate;
    MultipleQuotient(sigA, 0x200);
    MultipleQuotient(sigB, 0x800);
    var P, T := Pow2(64 - D), Pow2(D - 1);
    var q := e / P;
    assert Pow2(D) == 2 * T by { Pow2Add(1, D - 1); Pow2Values(); }
    assert P * (2 * T) == TWO64 by { Pow2Add(64 - D, D); Pow2Values(); }
    UnderestimateBounds(sigA, sigB, e);
    LastBounds(sigA, sigB, e, P, T, q);
    LastMultiple(sigA / 0x200, sigB / 0x800, q, T);
    LastWrap(sigA / 2, sigB / 4, q, D, T);
  }

  lemma LastBounds(sigA: u64, sigB: u64, e: int, P: int, T: int, q: int)
    requires 0 < P && 0 < T && P * (2 * T) == TWO64 && q == e / P && 0 <= e && 0 < sigB
    requires 0 <= sigA * TWO64 - sigB * e < 3 * sigB
    ensures 0 <= q && 0 <= sigA * (2 * T) - sigB * q < 3 * sigB
  {
    var m := e % P;
    DivShrinks(e, P);
    assert e == P * q + m;
    var x := sigA * (2 * T) - sigB * q;
    assert x * P == sigA * TWO64 - sigB * e + sigB * m by { LastExpand(sigA, sigB, T, P, q, m, e); }
    MulMono(0, m, sigB);
    MulMono(m, P - 1, sigB);
    if x < 0 {
      MulMono(x, -1, P);
    }
    if 3 * sigB <= x {
      MulMono(3 * sigB, x, P);
      MulMono(1, P, sigB);
    }
  }

  lemma LastExpand(sigA: int, sigB: int, T: int, P: int, q: int, m: int, e: int)
    requires P * (2 * T) == TWO64 && e == P * q + m
    ensures (sigA * (2 * T) - sigB * q) * P == sigA * TWO64 - sigB * e + sigB * m
  {
    assert sigA * (2 * T) * P == sigA * (P * (2 * T));
    assert sigB * e == sigB * q * P + sigB * m;
  }

  lemma LastWrap(a: u64, b: u64, q: nat, D: nat, T: int)
    requires 0 < D && T == Pow2(D - 1) && 0 <= a * T - b * q < TWO64
    ensures (Shl64(a, D - 1) - b * q % TWO64) % TWO64 == a * T - b * q
  {
    var u, v := a * T, b * q;
    assert u == TWO64 * (u / TWO64) + u % TWO64;
    assert v == TWO64 * (v / TWO64) + v % TWO64;
    DivUnique(u % TWO64 - v % TWO64, TWO64, v / TWO64 - u / TWO64, u - v);
  }

  lemma LastMultiple(g: int, h: int, q: int, T: int)
    ensures MultipleOf(0x100 * g * T - 0x200 * h * q, 0x100)
    ensures 4 * (0x100 * g * T - 0x200 * h * q) == 0x200 * g * (2 * T) - 0x800 * h * q
  {
    var x, y := g * T, h * q;
    IsMultiple(0x100 * g * T - 0x200 * h * q, 0x100, x - 2 * y);
    assert 0x100 * g * T == 0x100 * x && 0x200 * g * (2 * T) == 0x400 * x;
    assert 0x200 * h * q == 0x200 * y && 0x800 * h * q == 0x800 * y;
  }

  /** The state of the first loop: the dividend is an even multiple of sigB plus sigA * 2^D. */
  ghost predicate Reducing(A: int, N: int, sigA: u64, sigB: u64, D: int) {
    && sigA < sigB && MultipleOf(sigA, 0x200)
    && (0 < D ==> MultipleOf(N, 2) && A == N * sigB + sigA * Pow2(D))
  }

  /** The whole reduction: what is left is below three quarters of the divisor, in quarter units. */
  method Reduce(sigA: u64, sigB: u64, expDiff: int) returns (rem: u64, q: u64, ghost N: int)
    requires TWO63 <= sigB && sigA < 2 * sigB && MultipleOf(sigB, 0x800) && MultipleOf(sigA, 0x400) && -1 <= expDiff
    ensures MultipleOf(N, 2) && 4 * rem < 3 * sigB && MultipleOf(rem, 0x100)
    ensures sigA * Pow2(if expDiff < 0 then 0 else expDiff) == (N + q) * sigB + 4 * rem
  {
    hide Pow2, Reducing, Underestimate, Shl64, MultipleOf;
    ghost var A := sigA * Pow2(if expDiff < 0 then 0 else expDiff);
    var a: u64 := sigA;
    q := if sigB <= a then 1 else 0;
    if q != 0 {
      a := a - sigB;
    }
    var diff := expDiff - 64;
    FirstStep(A, sigA, sigB, q, a, expDiff);
    N := q * Pow2(if expDiff < 0 then 0 else expDiff);
    while 0 < diff
      invariant -65 <= diff && (expDiff <= 0 ==> diff == expDiff - 64 && a == sigA - q * sigB && q <= 1)
      invariant 0 < expDiff ==> -64 < diff
      invariant Reducing(A, N, a, sigB, diff + 64)
    {
      q := EstimateBelow'(A, N, a, sigB, diff + 64);
      LoopStep(A, N, a, sigB, q, diff + 64);
      N := N + q * Pow2(diff);
      a := -(sigB / 4 * q) % TWO64;
      diff := diff - 62;
    }
    diff := diff + 64;
    if 0 < diff {
      q := EstimateBelow'(A, N, a, sigB, diff);
      LastStep(A, N, a, sigB, q, diff);
      q := Shr64(q, 64 - diff);
      rem := (Shl64(a / 2, diff - 1) - sigB / 4 * q % TWO64) % TWO64;
    } else {
      SmallStep(A, sigA, sigB, q, a);
      IsMultiple(0, 2, 0);
      N := 0;
      rem := a / 4;
    }
  }

  method EstimateBelow'(ghost A: int, ghost N: int, sigA: u64, sigB: u64, ghost D: int) returns (q: u64)
    requires TWO63 <= sigB && Reducing(A, N, sigA, sigB, D)
    ensures Underestimate(sigA, sigB, q)
  {
    q := EstimateBelow(sigA, sigB);
  }

  lemma FirstStep(A: int, sigA: u64, sigB: u64, q: int, a: int, D: int)
    requires sigA < 2 * sigB && MultipleOf(sigB, 0x800) && MultipleOf(sigA, 0x400)
    requires A == sigA * Pow2(if D < 0 then 0 else D)
    requires q == (if sigB <= sigA then 1 else 0) && a == sigA - q * sigB
    ensures 0 <= a < TWO64 && Reducing(A, q * Pow2(if D < 0 then 0 else D), a, sigB, D)
  {
    hide Pow2, MultipleOf;
    MultipleQuotient(sigA, 0x400);
    MultipleQuotient(sigB, 0x800);
    if 0 < D {
      assert Pow2(D) == 2 * Pow2(D - 1) by { Pow2Add(1, D - 1); Pow2Values(); }
      EvenPart(q, Pow2(D - 1));
      if q == 1 {
        MulSucc(a, sigB, Pow2(D));
      }
    }
    FirstMultiple(sigA / 0x400, sigB / 0x800, q);
  }

  lemma FirstMultiple(g: int, h: int, q: int)
    requires q in {0, 1}
    ensures MultipleOf(0x400 * g - q * (0x800 * h), 0x200)
  {
    IsMultiple(0x400 * g - q * (0x800 * h), 0x200, 2 * g - 4 * (q * h));
  }

  lemma LoopStep(A: int, N: int, sigA: u64, sigB: u64, q: u64, D: int)
    requires TWO63 <= sigB && MultipleOf(sigB, 0x800) && Reducing(A, N, sigA, sigB, D) && Underestimate(sigA, sigB, q) && 64 < D
    ensures 0 <= -(sigB / 4 * q) % TWO64 < TWO64
    ensures Reducing(A, N + q * Pow2(D - 64), -(sigB / 4 * q) % TWO64, sigB, D - 62)
  {
    hide Pow2, Underestimate, MultipleOf;
    DivisorFour(sigB);
    ReduceStep(sigA, sigB, q);
    ReduceAccount(A, N, sigA, sigB, q, sigA * TWO62 - sigB / 4 * q, D);
  }

  lemma DivisorFour(b: int)
    requires MultipleOf(b, 0x800)
    ensures MultipleOf(b, 4)
  {
    MultipleQuotient(b, 0x800);
    IsMultiple(b, 4, 0x200 * (b / 0x800));
  }

  lemma LastStep(A: int, N: int, sigA: u64, sigB: u64, e: u64, D: int)
    requires TWO63 <= sigB && MultipleOf(sigB, 0x800) && Reducing(A, N, sigA, sigB, D) && Underestimate(sigA, sigB, e) && 0 < D <= 64
    ensures MultipleOf(N, 2)
    ensures
      var q := Shr64(e, 64 - D);
      var r := (Shl64(sigA / 2, D - 1) - sigB / 4 * q % TWO64) % TWO64;
      && A == (N + q) * sigB + 4 * r
      && 0 <= r && 4 * r < 3 * sigB && MultipleOf(r, 0x100)
  {
    hide Pow2, Underestimate, Shl64, MultipleOf;
    ReduceLast(sigA, sigB, e, D);
    MulSucc(N, e / Pow2(64 - D), sigB);
  }

  lemma SmallStep(A: int, sigA: u64, sigB: u64, q: int, a: int)
    requires MultipleOf(sigB, 0x800) && MultipleOf(sigA, 0x400) && A == sigA * Pow2(0)
    requires q in {0, 1} && a == sigA - q * sigB && 0 <= a
    ensures A == (0 + q) * sigB + 4 * (a / 4)
    ensures MultipleOf(a / 4, 0x100)
  {
    hide MultipleOf;
    MultipleQuotient(sigA, 0x400);
    MultipleQuotient(sigB, 0x800);
    SmallMultiple(sigA / 0x400, sigB / 0x800, q);
  }

  lemma SmallMultiple(g: int, h: int, q: int)
    requires q in {0, 1}
    ensures MultipleOf((0x400 * g - q * (0x800 * h)) / 4, 0x100)
    ensures 4 * ((0x400 * g - q * (0x800 * h)) / 4) == 0x400 * g - q * (0x800 * h)
  {
    var k := g - q * (2 * h);
    assert 0x400 * g - q * (0x800 * h) == 4 * (0x100 * k);
    IsMultiple(0x100 * k, 0x100, k);
  }

  // ---------------------------------------------------------------- choosing the nearer multiple

  /** The value of a 64-bit word read as two's complement. */
  function AsSigned(w: u64): int {
    if w < TWO63 then w else w - TWO64
  }

  /** A candidate remainder r (held modulo 2^64) for the quotient m, whose parity q keeps. */
  ghost predicate SameParity(m: int, q: int) {
    m % 2 == q % 2
  }

  ghost predicate Candidate(A: int, m: int, r: int, b: int, sigA: u64, alternate: u64, q: u64) {
    && 0 - b <= r < 2 * b && MultipleOf(r, 0x100)
    && sigA == r % TWO64 && alternate == r + b
    && A == m * (4 * b) + 4 * r && SameParity(m, q)
  }

  /** The second loop and the choice after it: of the two candidates around zero the nearer, the even quotient in a tie. */
  method ChooseNearest(rem: u64, b: u64, quotient: u64, ghost A: int, ghost N: int) returns (sig: u64, ghost n: int)
    requires TWO61 <= b < TWO62 && rem < 3 * b && MultipleOf(rem, 0x100) && MultipleOf(b, 0x100)
    requires MultipleOf(N, 2) && A == (N + quotient) * (4 * b) + 4 * rem
    ensures A == n * (4 * b) + 4 * AsSigned(sig) && MultipleOf(AsSigned(sig), 0x100)
    ensures 0 - b <= 2 * AsSigned(sig) <= b
    ensures 2 * AsSigned(sig) == b || 2 * AsSigned(sig) == 0 - b ==> n % 2 == 0
  {
    hide Candidate, AsSigned, SameParity, MultipleOf;
    var q: u64 := (quotient + 1) % TWO64;
    var alternate: u64 := rem;
    var sigA: u64 := (rem - b) % TWO64;
    ghost var m: int, r: int := N + quotient + 1, rem - b;
    FirstCandidate(A, N, quotient, rem, b);
    while sigA < TWO63
      invariant Candidate(A, m, r, b, sigA, alternate, q)
      decreases r + b
    {
      NextCandidate(A, m, r, b, sigA, alternate, q);
      alternate := sigA;
      q := (q + 1) % TWO64;
      sigA := (sigA - b) % TWO64;
      m, r := m + 1, r - b;
    }
    LastCandidates(A, m, r, b, sigA, alternate, q);
    var sigMean: u64 := (sigA + alternate) % TWO64;
    n := m;
    if TWO63 <= sigMean || (sigMean == 0 && q % 2 == 1) {
      sigA := alternate;
      n := m - 1;
    }
    sig := sigA;
  }

  lemma FirstCandidate(A: int, N: int, quotient: u64, rem: u64, b: u64)
    requires 0 < b && rem < 3 * b && MultipleOf(rem, 0x100) && MultipleOf(b, 0x100)
    requires MultipleOf(N, 2) && A == (N + quotient) * (4 * b) + 4 * rem
    ensures Candidate(A, N + quotient + 1, rem - b, b, (rem - b) % TWO64, rem, (quotient + 1) % TWO64)
  {
    hide SameParity, MultipleOf;
    MulSucc(N + quotient, 1, 4 * b);
    MultipleSum(rem, b, 0x100);
    ParityFirst(N, quotient);
  }

  lemma NextCandidate(A: int, m: int, r: int, b: u64, sigA: u64, alternate: u64, q: u64)
    requires TWO61 <= b < TWO62 && MultipleOf(b, 0x100) && Candidate(A, m, r, b, sigA, alternate, q) && sigA < TWO63
    ensures 0 <= r
    ensures Candidate(A, m + 1, r - b, b, (sigA - b) % TWO64, sigA, (q + 1) % TWO64)
  {
    hide SameParity, MultipleOf;
    RegisterNext(r, b, sigA);
    MulSucc(m, 1, 4 * b);
    ParityNext(m, q);
  }

  lemma ParityFirst(N: int, q: u64)
    requires MultipleOf(N, 2)
    ensures SameParity(N + q + 1, (q + 1) % TWO64)
  {
  }

  lemma ParityLast(m: int, q: u64)
    requires SameParity(m, q)
    ensures if q % 2 == 1 then (m - 1) % 2 == 0 else m % 2 == 0
  {
  }

  lemma ParityNext(m: int, q: u64)
    requires SameParity(m, q)
    ensures SameParity(m + 1, (q + 1) % TWO64)
  {
  }

  lemma RegisterNext(r: int, b: u64, sigA: u64)
    requires TWO61 <= b < TWO62 && 0 - b <= r < 2 * b && sigA == r % TWO64 && sigA < TWO63
    requires MultipleOf(r, 0x100) && MultipleOf(b, 0x100)
    ensures 0 <= r == sigA && (sigA - b) % TWO64 == (r - b) % TWO64 && MultipleOf(r - b, 0x100)
  {
    hide MultipleOf;
    SignWrap(r);
    SignWrap(r - b);
    MultipleSum(r, b, 0x100);
  }

  lemma LastCandidates(A: int, m: int, r: int, b: u64, sigA: u64, alternate: u64, q: u64)
    requires TWO61 <= b < TWO62 && MultipleOf(b, 0x100) && Candidate(A, m, r, b, sigA, alternate, q) && TWO63 <= sigA
    ensures r == AsSigned(sigA) < 0 && AsSigned(alternate) == alternate == r + b
    ensures A == m * (4 * b) + 4 * AsSigned(sigA) && A == (m - 1) * (4 * b) + 4 * AsSigned(alternate)
    ensures MultipleOf(AsSigned(sigA), 0x100) && MultipleOf(AsSigned(alternate), 0x100)
    ensures AsSigned(sigA) == AsSigned(alternate) - b && 0 <= AsSigned(alternate)
    ensures if q % 2 == 1 then (m - 1) % 2 == 0 else m % 2 == 0
    ensures (TWO63 <= (sigA + alternate) % TWO64) <==> 2 * AsSigned(alternate) < b
    ensures ((sigA + alternate) % TWO64 == 0) <==> 2 * AsSigned(alternate) == b
  {
    hide SameParity, MultipleOf;
    RegisterLast(r, b, sigA);
    ParityLast(m, q);
    MulSucc(m, -1, 4 * b);
  }

  lemma RegisterLast(r: int, b: u64, sigA: u64)
    requires TWO61 <= b < TWO62 && 0 - b <= r < 2 * b && sigA == r % TWO64 && TWO63 <= sigA
    requires MultipleOf(r, 0x100) && MultipleOf(b, 0x100)
    ensures r == AsSigned(sigA) < 0 && AsSigned(r + b) == r + b && MultipleOf(r + b, 0x100)
    ensures (TWO63 <= (sigA + (r + b)) % TWO64) <==> 2 * (r + b) < b
    ensures ((sigA + (r + b)) % TWO64 == 0) <==> 2 * (r + b) == b
  {
    hide MultipleOf;
    MultipleSum(r, b, 0x100);
    SignWrap(r);
    MeanWrap(r, b);
  }

  lemma SignWrap(r: int)
    requires -TWO63 <= r < TWO63
    ensures r % TWO64 == if 0 <= r then r else r + TWO64
  {
  }

  lemma MeanWrap(r: int, b: int)
    requires -TWO62 <= -b <= r < 0
    ensures (r % TWO64 + (r + b)) % TWO64 == (2 * r + b) % TWO64 == if 0 <= 2 * r + b then 2 * r + b else 2 * r + b + TWO64
  {
    SignWrap(r);
    SignWrap(2 * r + b);
  }

  // ---------------------------------------------------------------- f64_rem

  method F64Rem(env: Env, a: u64, b: u64) returns (z: u64, ghost n: int)
    modifies env`flags
    ensures IsFinite(a) && IsFinite(b) && !IsZero(b) ==>
              && IsFinite(z) && IsRemainder(Value(a), Value(b), n, Value(z))
              && (IsZero(z) ==> SignOf(z) == SignOf(a))
              && env.flags == old(env.flags)
    ensures IsFinite(a) && IsInf(b) ==> z == a && env.flags == old(env.flags)
    ensures IsNaN(a) || IsNaN(b) ==> z == DEFAULTNAN && env.flags == old(env.flags) + NaNFlags(a, b)
    ensures (IsInf(a) && !IsNaN(b)) || (IsFinite(a) && IsZero(b)) ==>
              z == DEFAULTNAN && env.flags == old(env.flags) + {Invalid}
  {
    hide Ldexp, Mag, Pow2, Clz, NaNFlags, IsRemainder, Operand;
    Fields(a);
    Fields(b);
    n := 0;
    var expA: int, sigA: u64 := ExpField(a), FracField(a);
    var expB: int, sigB: u64 := ExpField(b), FracField(b);
    if expA == 0x7FF {
      if sigA != 0 || (expB == 0x7FF && sigB != 0) {
        z := PropagateNaN(env, a, b);
      } else {
        env.RaiseFlags({Invalid});
        z := DEFAULTNAN;
      }
      return;
    }
    if expB == 0x7FF {
      if sigB != 0 {
        z := PropagateNaN(env, a, b);
      } else {
        z := a;
      }
      return;
    }
    if expB == 0 && sigB == 0 {
      env.RaiseFlags({Invalid});
      z := DEFAULTNAN;
      return;
    }
    if expA == 0 && sigA == 0 {
      z := a;
      ZeroDividend(a, b);
      return;
    }
    z, n := RemNonzero(env, a, b);
  }

  lemma ZeroDividend(a: u64, b: u64)
    requires IsZero(a) && IsFinite(b) && !IsZero(b)
    ensures IsRemainder(Value(a), Value(b), 0, Value(a))
  {
    hide Mag;
    MagZero();
    NonzeroMag(b);
  }

  /** Lines 60 to 101 of the source: two nonzero finite operands. */
  method RemNonzero(env: Env, a: u64, b: u64) returns (z: u64, ghost n: int)
    requires IsFinite(a) && !IsZero(a) && IsFinite(b) && !IsZero(b)
    modifies env`flags
    ensures IsFinite(z) && IsRemainder(Value(a), Value(b), n, Value(z))
    ensures IsZero(z) ==> SignOf(z) == SignOf(a)
    ensures env.flags == old(env.flags)
  {
    hide Ldexp, Mag, Pow2, Clz, IsRemainder, Operand, Rounded, RoundFlags, AsSigned, MultipleOf;
    var expB: int, sigB: u64 := Decode(b);
    var expA: int, sigA: u64 := Decode(a);
    var expDiff := expA - expB;
    sigA := sigA * 0x800;
    sigB := sigB * 0x800;
    if expDiff < 0 {
      if expDiff < -1 {
        SmallDividend(a, b);
        return a, 0;
      }
      sigA := sigA / 2;
    }
    AlignDividend(a, b, sigA, sigB);
    ghost var A := sigA * Pow2(if expDiff < 0 then 0 else expDiff);
    var rem, q, N := Reduce(sigA, sigB, expDiff);
    var sig;
    sig, n := ChooseNearest(rem, sigB / 4, q, A, N);
    ghost var s := AsSigned(sig);
    var signZ := TWO63 <= sig;
    Magnify(sig, sigB / 4);
    if signZ {
      sig := (TWO64 - sig) % TWO64;
    }
    ScaledRemainder(a, b, n, A, s);
    ghost var u := ExactResult(env.mode, a, b, n, s, SignOf(a) != signZ);
    z := NormRoundPackToF64(env, SignOf(a) != signZ, expB, sig);
    SignedRemainder(a, b, n, s, z, u);
    if SignOf(a) != SignOf(b) {
      n := -n;
    }
  }

  /** More than one binade below the divisor, the dividend is its own remainder. */
  lemma SmallDividend(a: u64, b: u64)
    requires IsFinite(a) && !IsZero(a) && IsFinite(b) && !IsZero(b)
    requires Operand(a).exp - Operand(b).exp < -1
    ensures IsRemainder(Value(a), Value(b), 0, Value(a))
  {
    hide Ldexp, Mag, Pow2, Operand;
    NonzeroMag(a);
    NonzeroMag(b);
    var ea, eb := Operand(a).exp - 1075, Operand(b).exp - 1075;
    LdexpOrder(Operand(a).sig as real, (2 * Operand(b).sig) as real, ea);
    LdexpTwice(Operand(b).sig as real, ea);
    LdexpTwice(Operand(b).sig as real, ea + 1);
    LdexpGrows(Operand(b).sig as real, ea + 2, eb);
    assert 2.0 * Mag(Magnitude(a)) < Mag(Magnitude(b));
  }

  lemma AlignDividend(a: u64, b: u64, sigA: u64, sigB: u64)
    requires IsFinite(a) && !IsZero(a) && IsFinite(b) && !IsZero(b)
    requires sigB == Operand(b).sig * 0x800 && -1 <= Operand(a).exp - Operand(b).exp
    requires sigA == if Operand(a).exp < Operand(b).exp then Operand(a).sig * 0x400 else Operand(a).sig * 0x800
    ensures TWO63 <= sigB && sigA < 2 * sigB && MultipleOf(sigB, 0x800) && MultipleOf(sigA, 0x400)
    ensures MultipleOf(sigB / 4, 0x100) && TWO61 <= sigB / 4 < TWO62 && sigB / 4 == Operand(b).sig * 0x200
    ensures
      var D := if Operand(a).exp < Operand(b).exp then 0 else Operand(a).exp - Operand(b).exp;
      && Mag(Magnitude(a)) == Ldexp((sigA * Pow2(D)) as real, Operand(b).exp - 1086)
      && Mag(Magnitude(b)) == Ldexp(sigB as real, Operand(b).exp - 1086)
      && Mag(Magnitude(b)) == Ldexp((Operand(b).sig * 0x200) as real, Operand(b).exp - 1084)
  {
    hide Ldexp, Mag, Pow2, Operand, MultipleOf;
    AlignMultiples(Operand(a).sig, Operand(b).sig);
    var ma: int, ea, mb: int, eb := Operand(a).sig, Operand(a).exp, Operand(b).sig, Operand(b).exp;
    Pow2Values();
    LdexpUp(mb, 11, eb - 1086);
    LdexpUp(mb, 9, eb - 1084);
    assert eb - 1086 + 11 == eb - 1075 && eb - 1084 + 9 == eb - 1075;
    if ea < eb {
      SmallPowers();
      LdexpUp(ma, 10, eb - 1086);
      assert eb - 1086 + 10 == ea - 1075;
    } else {
      LdexpUp(ma * 0x800, ea - eb, eb - 1086);
      LdexpUp(ma, 11, ea - 1086);
      assert eb - 1086 + (ea - eb) == ea - 1086 && ea - 1086 + 11 == ea - 1075;
    }
  }

  lemma AlignMultiples(ma: int, mb: int)
    ensures MultipleOf(mb * 0x800, 0x800) && mb * 0x800 / 4 == mb * 0x200 && MultipleOf(mb * 0x200, 0x100)
    ensures MultipleOf(ma * 0x400, 0x400) && MultipleOf(ma * 0x800, 0x400)
  {
    IsMultiple(mb * 0x800, 0x800, mb);
    IsMultiple(mb * 0x200, 0x100, 2 * mb);
    IsMultiple(ma * 0x400, 0x400, ma);
    IsMultiple(ma * 0x800, 0x400, 2 * ma);
  }

  lemma Magnify(w: u64, b: u64)
    requires b < TWO62 && 0 - b <= 2 * AsSigned(w) <= b
    ensures TWO63 <= w <==> AsSigned(w) < 0
    ensures AsSigned(w) < 0 ==> (TWO64 - w) % TWO64 == -AsSigned(w)
    ensures 0 <= AsSigned(w) ==> w == AsSigned(w)
    ensures -TWO61 < AsSigned(w) < TWO61
  {
  }

  // ---------------------------------------------------------------- exactness of the result

  /** k * 2^(t - 1074) is a double pattern whenever k fits in 53 bits and t is not negative. */
  lemma {:induction false} Representable(k: nat, t: nat) returns (u: nat)
    requires k <= TWO53
    ensures Mag(u) == Ldexp(k as real, t - 1074)
    decreases t
  {
    hide Ldexp, Mag;
    if t == 0 || TWO52 <= k {
      u := t * TWO52 + k;
      PackMag(t, k);
    } else {
      u := Representable(2 * k, t - 1);
      LdexpTwice(k as real, t - 1 - 1074);
    }
  }

  lemma MagInteger(u: nat) returns (i: nat)
    ensures Mag(u) == Ldexp(i as real, -1074)
  {
    hide Ldexp, Pow2;
    i := Sig(u) * Pow2(Exponent(u));
    MulMono(0, Sig(u), Pow2(Exponent(u)));
    LdexpUp(Sig(u), Exponent(u), -1074);
  }

  lemma LdexpScale(n: int, x: real, e: int, p: real)
    requires p == n as real * x
    ensures Ldexp(p, e) == n as real * Ldexp(x, e)
  {
    hide TwoTo;
    Regroup(n as real, x, TwoTo(e));
  }

  /** The scaled remainder is |a| - n*|b|. */
  lemma ScaledRemainder(a: u64, b: u64, n: int, A: int, s: int)
    requires IsFinite(b) && !IsZero(b)
    requires var sigB := Operand(b).sig * 0x800;
             A == n * sigB + 4 * s &&
             Mag(Magnitude(a)) == Ldexp(A as real, Operand(b).exp - 1086) &&
             Mag(Magnitude(b)) == Ldexp(sigB as real, Operand(b).exp - 1086)
    ensures Mag(Magnitude(a)) - n as real * Mag(Magnitude(b)) == Ldexp(s as real, Operand(b).exp - 1084)
  {
    hide Ldexp, Mag, Operand;
    var sigB: int, e := Operand(b).sig * 0x800, Operand(b).exp - 1086;
    var p := (n * sigB) as real;
    MultipleScaled(n, sigB, e);
    LdexpTwice(s as real, e + 1);
    LdexpTwice((2 * s) as real, e);
    LdexpTwice(s as real, e);
    LdexpSum(A as real, p, e);
    assert A as real - p == 2.0 * (2 * s) as real;
    assert Ldexp((2 * s) as real, e) == Ldexp(s as real, e + 1) by { assert (2 * s) as real == 2.0 * s as real; }
  }

  lemma MultipleScaled(n: int, k: int, e: int)
    ensures Ldexp((n * k) as real, e) == n as real * Ldexp(k as real, e)
  {
    hide Ldexp;
    RealMul(n, k);
    LdexpScale(n, k as real, e, (n * k) as real);
  }

  /** The remainder needs no rounding: it is a multiple of both operands' last places and at most half the divisor. */
  lemma ExactResult(mode: Mode, a: u64, b: u64, n: int, s: int, sign: bool) returns (u: nat)
    requires IsFinite(a) && IsFinite(b) && !IsZero(b)
    requires MultipleOf(s, 0x100) && (if s < 0 then -s else s) <= Operand(b).sig * 0x100
    requires Mag(Magnitude(a)) - n as real * Mag(Magnitude(b)) == Ldexp(s as real, Operand(b).exp - 1084)
    ensures u < INF && Mag(u) == Ldexp((if s < 0 then -s else s) as real, Operand(b).exp - 1084)
    ensures 0.0 <= Mag(u) && Rounded(mode, sign, Mag(u)) == u && RoundFlags(mode, sign, Mag(u)) == {}
  {
    hide Ldexp, Mag, Operand, Rounded, RoundFlags, Pow2, MultipleOf;
    var y := if s < 0 then -s else s;
    var mb: int, eb := Operand(b).sig, Operand(b).exp;
    SmallPowers();
    LdexpUp(mb, 8, eb - 1084);
    LdexpOrder((mb * 0x100) as real, y as real, eb - 1084);
    assert eb - 1084 + 8 == eb - 1076;
    if 2 <= eb {
      var k := y / 0x100;
      u := Representable(k, eb - 2);
      LdexpUp(k, 8, eb - 1084);
      assert eb - 2 - 1074 == eb - 1076;
      assert k * 0x100 == y by { MultipleQuotient(s, 0x100); }
    } else {
      u := SubnormalResult(a, b, n, s);
    }
    LdexpGrows(mb as real, eb - 1076, eb - 1075);
    MagOrder(Magnitude(b), u);
    ExactRounds(mode, sign, u);
  }

  lemma SubnormalResult(a: u64, b: u64, n: int, s: int) returns (u: nat)
    requires IsFinite(b) && !IsZero(b) && Operand(b).exp < 2
    requires Mag(Magnitude(a)) - n as real * Mag(Magnitude(b)) == Ldexp(s as real, Operand(b).exp - 1084)
    requires Ldexp((if s < 0 then -s else s) as real, Operand(b).exp - 1084) <= Ldexp(Operand(b).sig as real, Operand(b).exp - 1076)
    ensures Mag(u) == Ldexp((if s < 0 then -s else s) as real, Operand(b).exp - 1084)
  {
    hide Ldexp, Mag, Operand;
    var e := Operand(b).exp - 1084;
    var ia := MagInteger(Magnitude(a));
    var ib := MagInteger(Magnitude(b));
    var j := ia - n * ib;
    IntegerDifference(ia, ib, n);
    assert Ldexp(j as real, -1074) == Ldexp(s as real, e);
    LdexpAbs(j, -1074);
    LdexpAbs(s, e);
    var k := if j < 0 then -j else j;
    LdexpGrows(Operand(b).sig as real, Operand(b).exp - 1076, -1074);
    LdexpOrder(Operand(b).sig as real, k as real, -1074);
    u := Representable(k, 0);
  }

  lemma IntegerDifference(ia: int, ib: int, n: int)
    ensures Ldexp((ia - n * ib) as real, -1074) == Ldexp(ia as real, -1074) - n as real * Ldexp(ib as real, -1074)
  {
    hide Ldexp;
    var p := (n * ib) as real;
    MultipleScaled(n, ib, -1074);
    LdexpSum(ia as real, p, -1074);
    assert (ia - n * ib) as real == ia as real - p;
  }

  lemma LdexpAbs(j: int, e: int)
    ensures Ldexp((if j < 0 then -j else j) as real, e) == AbsR(Ldexp(j as real, e))
    ensures j == 0 <==> Ldexp(j as real, e) == 0.0
    ensures j < 0 <==> Ldexp(j as real, e) < 0.0
  {
    hide Ldexp;
    LdexpZero(e);
    LdexpOrder(j as real, 0.0, e);
    LdexpSum(0.0, j as real, e);
    assert 0.0 - j as real == (-j) as real;
  }

  /** Restoring the signs of the operands. */
  lemma SignedRemainder(a: u64, b: u64, n: int, s: int, z: u64, u: nat)
    requires IsFinite(a) && IsFinite(b) && !IsZero(b) && u < INF
    requires Mag(Magnitude(a)) - n as real * Mag(Magnitude(b)) == Ldexp(s as real, Operand(b).exp - 1084)
    requires Mag(u) == Ldexp((if s < 0 then -s else s) as real, Operand(b).exp - 1084)
    requires Mag(Magnitude(b)) == Ldexp((Operand(b).sig * 0x200) as real, Operand(b).exp - 1084)
    requires 2 * (if s < 0 then -s else s) <= Operand(b).sig * 0x200
    requires 2 * (if s < 0 then -s else s) == Operand(b).sig * 0x200 ==> n % 2 == 0
    requires z == Signed(SignOf(a) != (s < 0), u)
    ensures IsFinite(z) && IsRemainder(Value(a), Value(b), if SignOf(a) != SignOf(b) then -n else n, Value(z))
    ensures IsZero(z) ==> SignOf(z) == SignOf(a)
  {
    hide Ldexp, Mag, Operand;
    var r := Ldexp(s as real, Operand(b).exp - 1084);
    HalfTheDivisor(s, Operand(b).sig * 0x200, Operand(b).exp - 1084);
    NonzeroMag(b);
    RemainderSign(s, Operand(b).exp - 1084, u);
    assert Value(z) == WithSign(SignOf(a), r);
    ApplySigns(Mag(Magnitude(a)), Mag(Magnitude(b)), n, r, SignOf(a), SignOf(b));
  }

  lemma HalfTheDivisor(s: int, k: int, e: int)
    requires 2 * (if s < 0 then -s else s) <= k
    ensures 2.0 * AbsR(Ldexp(s as real, e)) <= Ldexp(k as real, e)
    ensures 2.0 * AbsR(Ldexp(s as real, e)) == Ldexp(k as real, e) ==> 2 * (if s < 0 then -s else s) == k
  {
    hide Ldexp;
    var y := if s < 0 then -s else s;
    LdexpAbs(s, e);
    LdexpTwice(y as real, e);
    LdexpOrder((2 * y) as real, k as real, e);
    LdexpOrder(k as real, (2 * y) as real, e);
  }

  lemma RemainderSign(s: int, e: int, u: nat)
    requires Mag(u) == Ldexp((if s < 0 then -s else s) as real, e)
    ensures u == 0 <==> s == 0
    ensures Ldexp(s as real, e) == WithSign(s < 0, Mag(u))
  {
    hide Ldexp, Mag;
    LdexpAbs(s, e);
    MagZero();
    MagOrder(0, u);
  }

  lemma ApplySigns(x: real, y: real, n: int, r: real, signX: bool, signY: bool)
    requires r == x - n as real * y && 0.0 < y && 2.0 * AbsR(r) <= y && (2.0 * AbsR(r) == y ==> n % 2 == 0)
    ensures IsRemainder(WithSign(signX, x), WithSign(signY, y), if signX != signY then -n else n, WithSign(signX, r))
  {
    var p := n as real * y;
    assert (-n) as real * y == -p && n as real * -y == -p && (-n) as real * -y == p;
  }
}
