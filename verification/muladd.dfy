/** softfloat_mulAddF64: fused multiply-add. */
module MulAdd {
  import opened Words
  import opened Dyadic
  import opened Ieee
  import opened Primitives
  import opened RoundPack
  import opened Operands
  import opened Multiply
  import opened AddSub

  const TWO20: int := 0x10_0000
  const TWO105: int := 0x200_0000_0000_0000_0000_0000_0000
  const TWO125: int := 0x2000_0000_0000_0000_0000_0000_0000_0000
  const TWO126: int := 0x4000_0000_0000_0000_0000_0000_0000_0000

  ghost function WithSign(sign: bool, x: real): real {
    if sign then -x else x
  }

  /** A 126-bit aligned magnitude: bits 20 to 125, its value counted in units of 2^(exp - 1148). */
  ghost predicate AlignedWide(p: U128, exp: int, x: real) {
    && TWO125 <= p.Val() < TWO126 && MultipleOf(p.Val(), TWO20)
    && x == Ldexp(p.Val() as real, exp - 1148)
  }

  // ---------------------------------------------------------------- jamming wide magnitudes

  lemma EvenBlocks(v: int)
    requires MultipleOf(v, TWO20)
    ensures MultipleOf(v, 2)
  {
    IsMultiple(v, 2, v / TWO20 * 0x8_0000);
  }

  lemma WidePowers()
    ensures Pow2(54) < TWO105 && Pow2(105) == TWO105 && Pow2(125) == TWO125 && Pow2(126) == TWO126
  {
    hide Pow2;
    Pow2Values();
    assert Pow2(64) * Pow2(41) == Pow2(105) by { Pow2Add(64, 41); }
    assert Pow2(41) == 0x200_0000_0000 by { Pow2Add(32, 9); }
    assert Pow2(125) == TWO125 by { Pow2Add(64, 61); }
    assert Pow2(126) == TWO126 by { Pow2Add(64, 62); }
    assert Pow2(54) == 2 * TWO53 by { Pow2Add(53, 1); }
  }

  /** Shifting an aligned magnitude right either loses nothing, or leaves it far below the other operand. */
  lemma ShiftWide(p: U128, k: int)
    requires 0 < k && p.Val() < TWO126 && MultipleOf(p.Val(), TWO20)
    ensures
      var j := Shift128RightJam(p.v64, p.v0, k).Val();
      && j < TWO125
      && SameCell(2, j, Ldexp(p.Val() as real, -k))
      && (j as real == Ldexp(p.Val() as real, -k) || j <= TWO105)
  {
    hide Ldexp, Pow2, SameCell, Shift128RightJam, MultipleOf;
    Shift128Exact(p.v64, p.v0, k);
    Shift128Jam(p.v64, p.v0, k);
    Pow2Mono(1, k);
    Pow2Values();
    QuotientSmall(p.Val(), Pow2(k), 2, TWO125);
    if k <= 20 {
      ExactShift(p.Val(), k);
    } else {
      Pow2Mono(21, k);
      assert Pow2(21) == 0x20_0000 by { Pow2Add(20, 1); }
      QuotientSmall(p.Val(), Pow2(k), 0x20_0000, TWO105);
    }
  }

  lemma QuotientSmall(x: nat, d: int, d0: int, m: int)
    requires 2 <= d0 <= d && x < d0 * m && m % 2 == 0
    ensures OrBit(x / d, x % d != 0) < m
  {
    var q := x / d;
    assert x == d * q + x % d;
    if m <= q {
      MulMono(m, q, d);
      MulMono(d0, d, m);
    }
  }

  lemma ExactShift(x: nat, k: int)
    requires 0 < k <= 20 && MultipleOf(x, TWO20)
    ensures OrBit(x / Pow2(k), x % Pow2(k) != 0) as real == Ldexp(x as real, -k)
  {
    hide Ldexp, Pow2;
    Pow2Add(k, 20 - k);
    Pow2Values();
    var q := x / TWO20 * Pow2(20 - k);
    assert x == q * Pow2(k) by { Regroup3(x / TWO20, Pow2(20 - k), Pow2(k)); }
    DivUnique(x, Pow2(k), q, 0);
    LdexpUp(q, k, -k);
    LdexpId(q as real);
  }

  /** T and y round alike: they are equal, or T is large and in the cell of y. */
  lemma WideRounds(t: nat, y: real, e: int)
    requires 0 < t && SameCell(2, t, y) && (t as real == y || TWO105 <= t)
    ensures RoundsAs(Ldexp(t as real, e), Ldexp(y, e))
  {
    hide Ldexp, Pow2, SameCell, Rounded, RoundFlags;
    if t as real == y {
      LdexpOrder(0.0, y, e);
      LdexpZero(e);
    } else {
      WidePowers();
      Pow2Values();
      JamRoundsAs(t, y, e);
    }
  }

  /** Keeping only the high word of a wide result, with a sticky bit for the low one. */
  lemma NarrowRounds(p: U128, e: int)
    requires TWO61 <= p.v64
    ensures RoundsAs(Ldexp(OrBit(p.v64, p.v0 != 0) as real, e), Ldexp(p.Val() as real, e - 64))
  {
    hide Ldexp, Pow2, SameCell, RoundsAs;
    HighWordJam(p);
    Pow2Values();
    Pow2Mono(54, 61);
    LdexpShift(p.Val() as real, -64, e);
    assert -64 + e == e - 64;
    JamRoundsAs(OrBit(p.v64, p.v0 != 0), Ldexp(p.Val() as real, -64), e);
  }

  // ---------------------------------------------------------------- like signs

  /** |a*b| + |c| for like signs: align the smaller, add, keep one word. */
  method AddAligned(expProd: int, sigProd: U128, expC: int, sigC: u64, ghost pm: real, ghost cm: real)
    returns (expZ: int, sigZ: u64)
    requires AlignedWide(sigProd, expProd, pm) && AlignedWide(U128(sigC, 0), expC, cm) && MultipleOf(sigC, 2)
    ensures TWO62 <= sigZ < TWO63
    ensures expZ in {expProd, expC, expProd - 1, expC - 1}
    ensures RoundsAs(Ldexp(sigZ as real, expZ - 1084), pm + cm)
  {
    hide Ldexp, Pow2, SameCell, RoundsAs, AlignedWide, MultipleOf, Shift64RightJam, Shift128RightJam, Add128;
    var expDiff := expProd - expC;
    if expDiff <= 0 {
      expZ := expC;
      var high := sigProd.v64;
      if expDiff != 0 {
        high := Shift64RightJam(high, -expDiff);
      }
      ProductBelow(expProd, sigProd, expC, sigC, pm, cm, high);
      sigZ := OrBit(sigC + high, sigProd.v0 != 0);
    } else {
      expZ := expProd;
      var sigC128 := Shift128RightJam(sigC, 0, expDiff);
      ProductAbove(expProd, sigProd, expC, sigC, pm, cm);
      var sigZ128 := Add128(sigProd, sigC128);
      sigZ := OrBit(sigZ128.v64, sigZ128.v0 != 0);
    }
    if sigZ < TWO62 {
      LdexpTwice(sigZ as real, expZ - 1 - 1084);
      expZ := expZ - 1;
      sigZ := sigZ * 2;
    }
  }

  lemma ProductBelow(expProd: int, sigProd: U128, expC: int, sigC: u64, pm: real, cm: real, high: int)
    requires AlignedWide(sigProd, expProd, pm) && AlignedWide(U128(sigC, 0), expC, cm) && MultipleOf(sigC, 2)
    requires expProd <= expC
    requires high == if expProd == expC then sigProd.v64 else Shift64RightJam(sigProd.v64, expC - expProd)
    ensures 0 <= high < TWO62
    ensures TWO61 <= OrBit(sigC + high, sigProd.v0 != 0) < TWO63
    ensures RoundsAs(Ldexp(OrBit(sigC + high, sigProd.v0 != 0) as real, expC - 1084), pm + cm)
  {
    hide Ldexp, Pow2, SameCell, RoundsAs, Shift64RightJam, MultipleOf;
    var k := expC - expProd;
    var low := OrBit(high, sigProd.v0 != 0);
    var y := Ldexp(sigProd.Val() as real, -64 - k);
    TwoWordJam(sigProd, k, high);
    OrBitEven(sigC, high, sigProd.v0 != 0);
    JamOffset(sigC, low, y);
    LdexpSum(sigC as real, y, expC - 1084);
    LdexpShift(sigProd.Val() as real, -64 - k, expC - 1084);
    assert -64 - k + (expC - 1084) == expProd - 1148;
    Pow2Values();
    LdexpUp(sigC, 64, expC - 1148);
    assert expC - 1148 + 64 == expC - 1084;
    Pow2Mono(54, 61);
    JamRoundsAs(sigC + low, sigC as real + y, expC - 1084);
  }

  /** Shifting the high word with jamming and then or-ing in the low word is one sticky shift of both. */
  lemma TwoWordJam(p: U128, k: int, high: int)
    requires 0 <= k && p.v64 < TWO62
    requires high == if k == 0 then p.v64 else Shift64RightJam(p.v64, k)
    ensures 0 <= high < TWO62
    ensures SameCell(2, OrBit(high, p.v0 != 0), Ldexp(p.Val() as real, -64 - k))
  {
    hide Ldexp, Pow2, SameCell, Shift64RightJam;
    if k == 0 {
      HighWordJam(p);
    } else {
      JamHalves(p.v64, k);
      Shift64Exact(p.v64, k);
      SplitHigh(p.v64, p.v0, Pow2(k));
      assert Pow2(64 + k) == Pow2(k) * TWO64 by { Pow2Add(k, 64); Pow2Values(); }
      ShiftedBack(p.Val(), 64 + k);
      JamQuotient(p.Val(), Pow2(64 + k), Ldexp(p.Val() as real, -(64 + k)));
      assert -(64 + k) == -64 - k;
      OrBitTwice(p.v64 / Pow2(k), p.v64 % Pow2(k) != 0, p.v0 != 0);
    }
  }

  lemma OrBitEven(c: int, x: int, b: bool)
    requires MultipleOf(c, 2)
    ensures OrBit(c + x, b) == c + OrBit(x, b)
  {
  }

  lemma OrBitTwice(x: int, b: bool, c: bool)
    ensures OrBit(OrBit(x, b), c) == OrBit(x, b || c)
  {
  }

  lemma ProductAbove(expProd: int, sigProd: U128, expC: int, sigC: u64, pm: real, cm: real)
    requires AlignedWide(sigProd, expProd, pm) && AlignedWide(U128(sigC, 0), expC, cm) && expC < expProd
    ensures
      var t := Add128(sigProd, Shift128RightJam(sigC, 0, expProd - expC));
      && TWO61 <= OrBit(t.v64, t.v0 != 0) < TWO63
      && RoundsAs(Ldexp(OrBit(t.v64, t.v0 != 0) as real, expProd - 1084), pm + cm)
  {
    hide Ldexp, Pow2, SameCell, RoundsAs, MultipleOf, Shift128RightJam, Add128;
    var k := expProd - expC;
    var c := U128(sigC, 0);
    var j := Shift128RightJam(sigC, 0, k);
    var t := Add128(sigProd, j);
    var y := Ldexp(c.Val() as real, -k);
    ShiftWide(c, k);
    Add128Exact(sigProd, j);
    assert t.Val() == sigProd.Val() + j.Val();
    EvenBlocks(sigProd.Val());
    JamOffset(sigProd.Val(), j.Val(), y);
    LdexpSum(sigProd.Val() as real, y, expProd - 1148);
    LdexpShift(c.Val() as real, -k, expProd - 1148);
    assert -k + (expProd - 1148) == expC - 1148;
    WideRounds(t.Val(), sigProd.Val() as real + y, expProd - 1148);
    NarrowRounds(t, expProd - 1084);
    assert expProd - 1084 - 64 == expProd - 1148;
    RoundsAsTrans(Ldexp(OrBit(t.v64, t.v0 != 0) as real, expProd - 1084), Ldexp(t.Val() as real, expProd - 1148), pm + cm);
  }

  // ---------------------------------------------------------------- unlike signs

  /**
   The difference of |a*b| and |c|: flip says that |c| is the larger, cancelled that they are equal.
   */
  method SubAligned(expProd: int, sigProd: U128, expC: int, sigC: u64, ghost pm: real, ghost cm: real)
    returns (cancelled: bool, flip: bool, expZ: int, sigZ: u64)
    requires AlignedWide(sigProd, expProd, pm) && AlignedWide(U128(sigC, 0), expC, cm)
    ensures cancelled <==> pm == cm
    ensures !cancelled ==> (flip <==> pm < cm) && TWO62 <= sigZ < TWO63
    ensures !cancelled ==> -130 <= expZ - (if expProd < expC then expC else expProd) <= 1
    ensures !cancelled ==> RoundsAs(Ldexp(sigZ as real, expZ - 1084), if flip then cm - pm else pm - cm)
  {
    hide Ldexp, Pow2, SameCell, RoundsAs, AlignedWide, MultipleOf, Shift128RightJam, Sub128;
    var expDiff := expProd - expC;
    var sigZ128: U128;
    cancelled, flip, sigZ := false, false, 0;
    if expDiff < 0 {
      flip := true;
      expZ := expC;
      WideDifference(expC, U128(sigC, 0), expProd, sigProd, cm, pm);
      var shifted := Shift128RightJam(sigProd.v64, sigProd.v0, -expDiff);
      sigZ128 := Sub128(U128(sigC, 0), shifted);
    } else if expDiff == 0 {
      expZ := expProd;
      sigZ128 := Sub128(sigProd, U128(sigC, 0));
      EqualExponents(expProd, sigProd, U128(sigC, 0), pm, cm);
      if sigZ128.v64 == 0 && sigZ128.v0 == 0 {
        cancelled := true;
        return;
      }
      if TWO63 <= sigZ128.v64 {
        flip := true;
        sigZ128 := Sub128(U128(0, 0), sigZ128);
      }
    } else {
      expZ := expProd;
      WideDifference(expProd, sigProd, expC, U128(sigC, 0), pm, cm);
      var sigC128 := Shift128RightJam(sigC, 0, expDiff);
      sigZ128 := Sub128(sigProd, sigC128);
    }
    ghost var wide := Ldexp(sigZ128.Val() as real, expZ - 1148);
    expZ, sigZ := NormaliseWide(expZ, sigZ128);
    RoundsAsTrans(Ldexp(sigZ as real, expZ - 1084), wide, if flip then cm - pm else pm - cm);
  }

  /** Normalise a wide difference to bit 62 of one word, jamming what does not fit. */
  method NormaliseWide(exp: int, p: U128) returns (expZ: int, sigZ: u64)
    requires 0 < p.Val() < TWO126
    ensures TWO62 <= sigZ < TWO63 && exp - 130 <= expZ <= exp + 1
    ensures RoundsAs(Ldexp(sigZ as real, expZ - 1084), Ldexp(p.Val() as real, exp - 1148))
  {
    hide Ldexp, Pow2, RoundsAs, Clz, ShortShift128Left, ShortShift64RightJam;
    expZ := exp;
    var sigZ128 := p;
    if sigZ128.v64 == 0 {
      expZ := expZ - 64;
      sigZ128 := U128(sigZ128.v0, 0);
    }
    RaisedWord(p, exp);
    var n := CountLeadingZeros64(sigZ128.v64);
    var shiftCount := n as int - 1;
    expZ := expZ - shiftCount;
    NormalisedWide(sigZ128, n, expZ);
    if shiftCount < 0 {
      sigZ := ShortShift64RightJam(sigZ128.v64, -shiftCount);
    } else {
      sigZ128 := ShortShift128Left(sigZ128, shiftCount);
      sigZ := sigZ128.v64;
    }
    sigZ := OrBit(sigZ, sigZ128.v0 != 0);
  }

  /** Subtracting the jammed smaller magnitude rounds like the exact difference, however much cancels. */
  lemma WideDifference(expBig: int, big: U128, expSmall: int, small: U128, bm: real, sm: real)
    requires AlignedWide(big, expBig, bm) && AlignedWide(small, expSmall, sm) && expSmall < expBig
    ensures sm < bm
    ensures
      var t := Sub128(big, Shift128RightJam(small.v64, small.v0, expBig - expSmall));
      && 0 < t.Val() < TWO126
      && RoundsAs(Ldexp(t.Val() as real, expBig - 1148), bm - sm)
  {
    hide Ldexp, Pow2, SameCell, RoundsAs, MultipleOf, Shift128RightJam, Sub128;
    var k := expBig - expSmall;
    var j := Shift128RightJam(small.v64, small.v0, k);
    var t := Sub128(big, j);
    var y := Ldexp(small.Val() as real, -k);
    ShiftWide(small, k);
    Sub128Exact(big, j);
    EvenBlocks(big.Val());
    JamOffset(big.Val(), j.Val(), y);
    LdexpSum(big.Val() as real, y, expBig - 1148);
    LdexpShift(small.Val() as real, -k, expBig - 1148);
    assert -k + (expBig - 1148) == expSmall - 1148;
    JamBelow(big.Val(), j.Val(), y);
    LdexpOrder(y, big.Val() as real, expBig - 1148);
    WideRounds(t.Val(), big.Val() as real - y, expBig - 1148);
  }

  lemma JamBelow(b: int, j: int, y: real)
    requires SameCell(2, j, y) && j < b && MultipleOf(b, 2)
    ensures y < b as real
  {
  }

  lemma EqualExponents(exp: int, p: U128, c: U128, pm: real, cm: real)
    requires AlignedWide(p, exp, pm) && AlignedWide(c, exp, cm)
    ensures
      var d := Sub128(p, c);
      && (pm == cm <==> d.v64 == 0 && d.v0 == 0)
      && (pm < cm <==> TWO63 <= d.v64)
      && (pm != cm ==>
            var t := if TWO63 <= d.v64 then Sub128(U128(0, 0), d) else d;
            && 0 < t.Val() < TWO126
            && RoundsAs(Ldexp(t.Val() as real, exp - 1148), if pm < cm then cm - pm else pm - cm))
  {
    hide Ldexp, Pow2, RoundsAs, Sub128;
    var e := exp - 1148;
    var d := Sub128(p, c);
    Sub128Exact(p, c);
    Sub128Exact(U128(0, 0), d);
    LdexpOrder(p.Val() as real, c.Val() as real, e);
    LdexpSum(p.Val() as real, c.Val() as real, e);
    LdexpSum(c.Val() as real, p.Val() as real, e);
    if pm < cm {
      RoundsAsSelf(cm - pm);
    } else if cm < pm {
      RoundsAsSelf(pm - cm);
    }
  }

  /** Moving a value that fits in the low word up by a word keeps it. */
  lemma RaisedWord(p: U128, exp: int)
    requires 0 < p.Val() < TWO126
    ensures
      var q := if p.v64 == 0 then U128(p.v0, 0) else p;
      var e := if p.v64 == 0 then exp - 64 else exp;
      && q.v64 != 0 && (TWO62 <= q.v64 ==> q.v0 == 0)
      && Ldexp(q.Val() as real, e - 1148) == Ldexp(p.Val() as real, exp - 1148)
  {
    hide Ldexp, Pow2;
    Pow2Values();
    LdexpUp(p.v0, 64, exp - 64 - 1148);
    assert exp - 64 - 1148 + 64 == exp - 1148;
  }

  /** The last step: normalise to bit 62 of the high word and keep a sticky bit. exp is already adjusted. */
  lemma NormalisedWide(p: U128, n: nat, exp: int)
    requires p.v64 != 0 && n == Clz(p.v64) && (TWO62 <= p.v64 ==> p.v0 == 0)
    ensures n < 64 && (n == 0 || n == 1 ==> p.v0 == 0)
    ensures
      var s := if n == 0 then ShortShift64RightJam(p.v64, 1) else ShortShift128Left(p, n - 1).v64;
      var low := if n == 0 then p.v0 else ShortShift128Left(p, n - 1).v0;
      && TWO62 <= OrBit(s, low != 0) < TWO63
      && RoundsAs(Ldexp(OrBit(s, low != 0) as real, exp - 1084), Ldexp(p.Val() as real, exp + n - 1 - 1148))
  {
    hide Ldexp, Pow2, RoundsAs, Clz, ShortShift128Left, Shl64, ShortShift64RightJam;
    SmallPowers();
    if n == 0 {
      HalvedWord(p, exp);
    } else {
      NormalisedHigh(p.v64, n);
      assert Pow2(n - 1) * Pow2(64 - n) == TWO63 by { Pow2Add(n - 1, 64 - n); Pow2Values(); }
      RoomAbove(p.v64, Pow2(n - 1), Pow2(64 - n));
      WideProduct(p, Pow2(n - 1));
      ShortShift128Exact(p, n - 1);
      var q := ShortShift128Left(p, n - 1);
      HighOf(p, q, Pow2(n - 1));
      NarrowRounds(q, exp - 1084);
      LdexpUp(p.Val(), n - 1, exp - 1148);
      assert exp - 1148 + (n - 1) == exp + n - 1 - 1148 && exp - 1084 - 64 == exp - 1148;
    }
  }

  lemma NormalisedHigh(a: u64, n: nat)
    requires n == Clz(a) && a != 0 && 0 < n
    ensures n < 64 && TWO62 <= a * Pow2(n - 1) < TWO63
    ensures n == 1 ==> TWO62 <= a
  {
    hide Clz, Pow2;
    assert Pow2(n) == 2 * Pow2(n - 1) by { Pow2Add(1, n - 1); Pow2Values(); }
    HalvedScale(a, Pow2(n), Pow2(n - 1));
    assert Pow2(0) == 1 by { SmallPowers(); }
  }

  lemma HalvedScale(a: int, P: int, p: int)
    requires P == 2 * p && TWO63 <= a * P < TWO64
    ensures TWO62 <= a * p < TWO63
    ensures p == 1 ==> TWO62 <= a
  {
    assert a * P == 2 * (a * p);
  }

  lemma WideProduct(p: U128, q: int)
    requires 0 < q && p.v64 * q + q <= TWO63
    ensures p.Val() * q < TWO128
  {
    PairTimes(p.v64, p.v0, q);
    MulMono(p.v0, TWO64 - 1, q);
  }

  lemma HighOf(p: U128, q: U128, f: int)
    requires 0 < f && q.Val() == p.Val() * f && TWO62 <= p.v64 * f < TWO63
    requires p.v64 * f + f <= TWO63
    ensures TWO62 <= q.v64 < TWO63
  {
    PairTimes(p.v64, p.v0, f);
    MulMono(0, p.v0, f);
    MulMono(p.v0, TWO64 - 1, f);
  }

  lemma HalvedWord(p: U128, exp: int)
    requires TWO63 <= p.v64 && p.v0 == 0
    ensures TWO62 <= ShortShift64RightJam(p.v64, 1) < TWO63
    ensures RoundsAs(Ldexp(ShortShift64RightJam(p.v64, 1) as real, exp - 1084), Ldexp(p.Val() as real, exp - 1 - 1148))
  {
    hide Ldexp, SameCell, RoundsAs;
    var a := p.v64;
    var y := Ldexp(a as real, -1);
    Pow2Values();
    ShiftedBack(a, 1);
    JamQuotient(a, 2, y);
    Pow2Mono(54, 62);
    JamRoundsAs(ShortShift64RightJam(a, 1), y, exp - 1084);
    LdexpShift(a as real, -1, exp - 1084);
    LdexpUp(a, 64, exp - 1 - 1148);
    assert exp - 1 - 1148 + 64 == -1 + (exp - 1084);
  }

  // ---------------------------------------------------------------- softfloat_mulAddF64

  /** The two bits of `op`: negate c, negate the product. */
  predicate SubC(op: nat) { op % 2 == 1 }

  predicate SubProd(op: nat) { op / 2 % 2 == 1 }

  predicate SignProd(op: nat, a: u64, b: u64) {
    (SignOf(a) != SignOf(b)) != SubProd(op)
  }

  predicate SignC(op: nat, c: u64) {
    SignOf(c) != SubC(op)
  }

  /** (+-) a*b (+-) c, exactly. */
  ghost function Fused(op: nat, a: u64, b: u64, c: u64): real
    requires IsFinite(a) && IsFinite(b) && IsFinite(c)
  {
    WithSign(SubProd(op), Value(a) * Value(b)) + WithSign(SubC(op), Value(c))
  }

  /** fmadd, fmsub, fnmsub and fnmadd, by number. */
  ghost function Operation(op: nat, p: real, c: real): real {
    if op == 0 then p + c else if op == 1 then p - c else if op == 2 then c - p else -p - c
  }

  /** What the four operations compute, and the sign of each product: softfloat_mulAdd_subC is 1, softfloat_mulAdd_subProd 2. */
  lemma FourOperations(op: nat, a: u64, b: u64, c: u64)
    requires IsFinite(a) && IsFinite(b) && IsFinite(c)
    ensures op % 4 == 0 ==> Fused(op, a, b, c) == Value(a) * Value(b) + Value(c)
    ensures op % 4 == 1 ==> Fused(op, a, b, c) == Value(a) * Value(b) - Value(c)
    ensures op % 4 == 2 ==> Fused(op, a, b, c) == Value(c) - Value(a) * Value(b)
    ensures op % 4 == 3 ==> Fused(op, a, b, c) == -(Value(a) * Value(b)) - Value(c)
  {
    hide Value;
    OperationBits(op);
  }

  lemma OperationBits(op: nat)
    ensures op % 2 == 1 <==> op % 4 == 1 || op % 4 == 3
    ensures op / 2 % 2 == 1 <==> op % 4 == 2 || op % 4 == 3
  {
    var q, r := op / 4, op % 4;
    DivUnique(op, 2, 2 * q + r / 2, r % 2);
    DivUnique(op / 2, 2, q, r / 2);
  }

  /** The signs the operands enter with. */
  lemma OperationSigns(op: nat, a: u64, b: u64, c: u64)
    ensures SignProd(op, a, b) <==> (SignOf(a) != SignOf(b)) != (op % 4 == 2 || op % 4 == 3)
    ensures SignC(op, c) <==> SignOf(c) != (op % 4 == 1 || op % 4 == 3)
    ensures SubC(op) <==> op % 4 == 1 || op % 4 == 3
  {
    OperationBits(op);
  }

  /** The one finite case where the code returns c without the negation `op` asked for: a zero product. */
  predicate ForgetsNegation(op: nat, a: u64, b: u64, c: u64) {
    SubC(op) && (IsZero(a) || IsZero(b)) && (!IsZero(c) || SignProd(op, a, b) == SignC(op, c))
  }

  /** In that case c is not the result asked for, so the exclusion is exact. */
  lemma ForgottenNegationIsWrong(mode: Mode, op: nat, a: u64, b: u64, c: u64, flags: set<Flag>)
    requires IsFinite(a) && IsFinite(b) && IsFinite(c) && ForgetsNegation(op, a, b, c)
    ensures !Delivers(mode, Fused(op, a, b, c), ZeroSumSign(mode, SignProd(op, a, b), SignC(op, c)), c, flags, flags)
  {
    hide Mag, Rounded, RoundFlags;
    MagZero();
    MagOrder(0, Magnitude(c));
    assert Value(a) * Value(b) == 0.0 by { assert Value(a) == 0.0 || Value(b) == 0.0; }
  }

  /** For instance 0 * 1 - 1, for which 1 is returned. */
  lemma ForgottenNegationOfOne(mode: Mode, flags: set<Flag>)
    ensures
      var one: u64 := 0x3FF0_0000_0000_0000;
      && IsFinite(0) && IsFinite(one) && ForgetsNegation(1, 0, one, one) && Fused(1, 0, one, one) == -1.0
      && !Delivers(mode, Fused(1, 0, one, one), ZeroSumSign(mode, SignProd(1, 0, one), SignC(1, one)), one, flags, flags)
  {
    var one: u64 := 0x3FF0_0000_0000_0000;
    ForgottenNegationIsWrong(mode, 1, 0, one, one, flags);
    hide Delivers;
    OneIsOne(one);
    MagZero();
  }

  lemma OneIsOne(one: u64)
    requires one == 0x3FF0_0000_0000_0000
    ensures Mag(Magnitude(one)) == 1.0
  {
    LdexpUp(1, 52, -52);
    LdexpId(1.0);
    Pow2Values();
  }

  /** An infinite addend returned as it is has the right sign exactly if it is not to be subtracted. */
  lemma InfiniteAddend(op: nat, c: u64)
    ensures IsInf(c) ==> (c == Signed(SignC(op, c), INF) <==> !SubC(op))
  {
  }

  method F64MulAdd(env: Env, op: nat, a: u64, b: u64, c: u64) returns (z: u64)
    modifies env`flags
    ensures IsFinite(a) && IsFinite(b) && IsFinite(c) && !ForgetsNegation(op, a, b, c) ==>
              && Delivers(env.mode, Fused(op, a, b, c), ZeroSumSign(env.mode, SignProd(op, a, b), SignC(op, c)),
                          z, old(env.flags), env.flags)
              && Fused(op, a, b, c) == Operation(op % 4, Value(a) * Value(b), Value(c))
    ensures IsFinite(a) && IsFinite(b) && IsFinite(c) && ForgetsNegation(op, a, b, c) ==>
              z == c && env.flags == old(env.flags)
    ensures IsNaN(a) || IsNaN(b) || (IsNaN(c) && !InfTimesZero(a, b)) ==>
              z == DEFAULTNAN && env.flags == old(env.flags) + NaNFlags(a, b) + NaNFlags(0, c)
    ensures InfTimesZero(a, b) ==> z == DEFAULTNAN && env.flags == old(env.flags) + {Invalid}
    ensures !IsNaN(a) && !IsNaN(b) && !IsZero(a) && !IsZero(b) && (IsInf(a) || IsInf(b)) ==>
              (IsFinite(c) || (IsInf(c) && SignC(op, c) == SignProd(op, a, b)) ==>
                 z == Signed(SignProd(op, a, b), INF) && env.flags == old(env.flags))
              && (IsInf(c) && SignC(op, c) != SignProd(op, a, b) ==>
                 z == DEFAULTNAN && env.flags == old(env.flags) + {Invalid})
    ensures IsFinite(a) && IsFinite(b) && IsInf(c) ==>
              z == c && env.flags == old(env.flags) && (z == Signed(SignC(op, c), INF) <==> !SubC(op))
  {
    hide Ldexp, Mag, Pow2, Clz, Rounded, RoundFlags, Delivers, NaNFlags, Fused, Operand, IsSignalingNaN;
    NumbersAreQuiet(a, b);
    InfiniteAddend(op, c);
    if IsFinite(a) && IsFinite(b) && IsFinite(c) {
      FourOperations(op, a, b, c);
    }
    Fields(a);
    Fields(b);
    Fields(c);
    var expA: int, sigA: u64 := ExpField(a), FracField(a);
    var expB: int, sigB: u64 := ExpField(b), FracField(b);
    var expC: int, sigC: u64 := ExpField(c), FracField(c);
    var signC := SignC(op, c);
    var signProd := SignProd(op, a, b);
    DefaultQuiet(c);
    if expA == 0x7FF {
      if sigA != 0 || (expB == 0x7FF && sigB != 0) {
        z := PropagateNaN(env, a, b);
        z := PropagateNaN(env, z, c);
      } else {
        z := InfProdArg(env, signProd, expB != 0 || sigB != 0, signC, c);
      }
      return;
    }
    if expB == 0x7FF {
      if sigB != 0 {
        z := PropagateNaN(env, a, b);
        z := PropagateNaN(env, z, c);
      } else {
        z := InfProdArg(env, signProd, expA != 0 || sigA != 0, signC, c);
      }
      return;
    }
    if expC == 0x7FF {
      if sigC != 0 {
        z := PropagateNaN(env, 0, c);
      } else {
        z := c;
      }
      return;
    }
    if (expA == 0 && sigA == 0) || (expB == 0 && sigB == 0) {
      z := c;
      if expC == 0 && sigC == 0 && signProd != signC {
        z := Pack(env.mode == Min, 0, 0);
      }
      if !ForgetsNegation(op, a, b, c) {
        ZeroProductSum(env.mode, op, a, b, c, z, env.flags);
      }
      return;
    }
    z := MulAddNonzero(env, op, a, b, c);
  }

  predicate InfTimesZero(a: u64, b: u64) {
    (IsInf(a) && IsZero(b)) || (IsZero(a) && IsInf(b))
  }

  lemma NumbersAreQuiet(a: u64, b: u64)
    ensures !IsNaN(a) && !IsNaN(b) ==> NaNFlags(a, b) == {}
  {
    NumberIsQuiet(a);
    NumberIsQuiet(b);
  }

  lemma NumberIsQuiet(a: u64)
    ensures !IsNaN(a) ==> !IsSignalingNaN(a)
  {
    if IsSignalingNaN(a) {
      var t, q := a / TWO63, a / 0x8_0000_0000_0000;
      assert q == t * 0x1000 + q % 0x1000;
      DivUnique(a, TWO63, t, a % TWO63);
    }
  }

  /** Only a NaN signals, and the values produced here never do. */
  lemma DefaultQuiet(c: u64)
    ensures !IsSignalingNaN(DEFAULTNAN) && !IsSignalingNaN(0) && forall sign :: !IsSignalingNaN(Signed(sign, INF))
    ensures NaNFlags(DEFAULTNAN, c) == NaNFlags(0, c) && forall sign :: NaNFlags(Signed(sign, INF), c) == NaNFlags(0, c)
  {
  }

  /** The labels infProdArg and invalid: an infinite factor. */
  method InfProdArg(env: Env, signProd: bool, magBits: bool, signC: bool, c: u64) returns (z: u64)
    modifies env`flags
    ensures IsNaN(c) && magBits ==> z == DEFAULTNAN && env.flags == old(env.flags) + NaNFlags(0, c)
    ensures !magBits ==> z == DEFAULTNAN && env.flags == old(env.flags) + {Invalid}
    ensures magBits && (IsFinite(c) || (IsInf(c) && signProd == signC)) ==>
              z == Signed(signProd, INF) && env.flags == old(env.flags)
    ensures magBits && IsInf(c) && signProd != signC ==> z == DEFAULTNAN && env.flags == old(env.flags) + {Invalid}
  {
    Fields(c);
    DefaultQuiet(c);
    if magBits {
      z := Pack(signProd, 0x7FF, 0);
      if ExpField(c) != 0x7FF {
        return;
      }
      if FracField(c) != 0 {
        z := PropagateNaN(env, z, c);
        return;
      }
      if signProd == signC {
        return;
      }
    }
    env.RaiseFlags({Invalid});
    z := PropagateNaN(env, DEFAULTNAN, c);
  }

  lemma ZeroProductSum(mode: Mode, op: nat, a: u64, b: u64, c: u64, z: u64, flags: set<Flag>)
    requires IsFinite(a) && IsFinite(b) && IsFinite(c) && (IsZero(a) || IsZero(b)) && !ForgetsNegation(op, a, b, c)
    requires z == if IsZero(c) && SignProd(op, a, b) != SignC(op, c) then Pack(mode == Min, 0, 0) else c
    ensures Delivers(mode, Fused(op, a, b, c), ZeroSumSign(mode, SignProd(op, a, b), SignC(op, c)), z, flags, flags)
  {
    hide Mag, Rounded, RoundFlags, Delivers;
    MagZero();
    PackExact(mode == Min, 0, 0);
    assert Value(a) * Value(b) == 0.0 by { assert Value(a) == 0.0 || Value(b) == 0.0; }
    assert Fused(op, a, b, c) == WithSign(SubC(op), Value(c));
    if IsZero(c) {
      ZeroDelivered(mode, Fused(op, a, b, c), ZeroSumSign(mode, SignProd(op, a, b), SignC(op, c)), z, flags);
    } else {
      DeliverExact(mode, c, flags);
      NonzeroDelivered(mode, c, ZeroSumSign(mode, SignProd(op, a, b), SignC(op, c)), flags);
    }
  }

  lemma ZeroDelivered(mode: Mode, r: real, zeroSign: bool, z: u64, flags: set<Flag>)
    requires r == 0.0 && z == Signed(zeroSign, 0)
    ensures Delivers(mode, r, zeroSign, z, flags, flags)
  {
  }

  lemma NonzeroDelivered(mode: Mode, c: u64, zeroSign: bool, flags: set<Flag>)
    requires IsFinite(c) && !IsZero(c) && Delivers(mode, Value(c), SignOf(c), c, flags, flags)
    ensures Delivers(mode, Value(c), zeroSign, c, flags, flags)
  {
    hide Mag, Rounded, RoundFlags;
    MagZero();
    MagOrder(0, Magnitude(c));
  }

  /** Lines 64 to 159 of the source, for two nonzero factors. */
  method MulAddNonzero(env: Env, op: nat, a: u64, b: u64, c: u64) returns (z: u64)
    requires IsFinite(a) && !IsZero(a) && IsFinite(b) && !IsZero(b) && IsFinite(c)
    modifies env`flags
    ensures Delivers(env.mode, Fused(op, a, b, c), ZeroSumSign(env.mode, SignProd(op, a, b), SignC(op, c)),
                     z, old(env.flags), env.flags)
  {
    hide Ldexp, Mag, Pow2, Clz, Rounded, RoundFlags, Delivers, Fused, Operand, AlignedWide, ShortShift128Left, RoundsAs;
    Fields(a);
    Fields(b);
    Fields(c);
    var expA: int, sigA: u64 := Decode(a);
    var expB: int, sigB: u64 := Decode(b);
    var expC: int, sigC: u64 := ExpField(c), FracField(c);
    var signC := SignC(op, c);
    var signProd := SignProd(op, a, b);
    var expProd := expA + expB - 0x3FE;
    var sigProd := Mul64To128(sigA * 0x400, sigB * 0x400);
    AlignProduct(a, b, sigProd);
    if sigProd.v64 < TWO61 {
      expProd := expProd - 1;
      sigProd := ShortShift128Left(sigProd, 1);
    }
    ghost var pm, cm := ProductMag(a, b), Mag(Magnitude(c));
    if expC == 0 && sigC == 0 {
      ProductAlone(sigProd, expProd, pm);
      var sigZ: u64 := OrBit(sigProd.v64 * 2, sigProd.v0 != 0);
      z := RoundSum(env, signProd, expProd - 1, sigZ, pm);
      DeliverProductAlone(env.mode, op, a, b, c, z, old(env.flags), env.flags);
      return;
    }
    expC, sigC := Decode(c);
    sigC := sigC * 0x200;
    AlignAddend(c);
    var expZ: int, sigZ: u64;
    if signProd == signC {
      expZ, sigZ := AddAligned(expProd, sigProd, expC, sigC, pm, cm);
      z := RoundSum(env, signProd, expZ, sigZ, pm + cm);
      DeliverFused(env.mode, op, a, b, c, signProd, pm + cm, z, old(env.flags), env.flags);
    } else {
      var cancelled, flip;
      cancelled, flip, expZ, sigZ := SubAligned(expProd, sigProd, expC, sigC, pm, cm);
      if cancelled {
        z := Pack(env.mode == Min, 0, 0);
        DeliverCancelled(env.mode, op, a, b, c, z, env.flags);
        return;
      }
      z := RoundSum(env, signProd != flip, expZ, sigZ, if flip then cm - pm else pm - cm);
      DeliverFused(env.mode, op, a, b, c, signProd != flip, if flip then cm - pm else pm - cm, z, old(env.flags), env.flags);
    }
  }

  /** The decoding steps every operand goes through. */
  method Decode(w: u64) returns (exp: int, sig: u64)
    requires IsFinite(w) && !IsZero(w)
    ensures ExpSig(exp, sig) == Operand(w)
  {
    hide Mag, Ldexp, Pow2, Clz;
    Fields(w);
    exp, sig := ExpField(w), FracField(w);
    if exp == 0 {
      SubnormalOperand(w);
      var n := NormSubnormalF64Sig(sig);
      exp, sig := n.exp, n.sig;
    }
    sig := WithHidden(sig);
  }

  method RoundSum(env: Env, sign: bool, exp: int, sig: u64, ghost x: real) returns (z: u64)
    requires TWO62 <= sig < TWO63 && -0x8000 <= exp < 0x8000 && RoundsAs(Ldexp(sig as real, exp - 1084), x)
    modifies env`flags
    ensures 0.0 < x
    ensures z == Signed(sign, Rounded(env.mode, sign, x))
    ensures env.flags == old(env.flags) + RoundFlags(env.mode, sign, x)
  {
    hide Ldexp, Rounded, RoundFlags;
    z := RoundPackToF64(env, sign, exp, sig);
  }

  lemma AlignProduct(a: u64, b: u64, p: U128)
    requires IsFinite(a) && !IsZero(a) && IsFinite(b) && !IsZero(b)
    requires p.Val() == Operand(a).sig * 0x400 * (Operand(b).sig * 0x400)
    ensures
      var e := Operand(a).exp + Operand(b).exp - 0x3FE;
      if p.v64 < TWO61 then AlignedWide(ShortShift128Left(p, 1), e - 1, ProductMag(a, b))
      else AlignedWide(p, e, ProductMag(a, b))
  {
    hide Ldexp, Mag, Pow2, Operand, ShortShift128Left, AlignedWide, ProductMag;
    var ma: int, mb: int := Operand(a).sig, Operand(b).sig;
    var e := Operand(a).exp + Operand(b).exp - 0x3FE;
    FactorsRange(ma, mb);
    ProductScaled(a, b, p, e);
    ShiftAligned(p, e, ProductMag(a, b), ma * mb);
  }

  lemma ProductScaled(a: u64, b: u64, p: U128, e: int)
    requires IsFinite(a) && !IsZero(a) && IsFinite(b) && !IsZero(b)
    requires p.Val() == Operand(a).sig * Operand(b).sig * TWO20 && e == Operand(a).exp + Operand(b).exp - 0x3FE
    ensures ProductMag(a, b) == Ldexp(p.Val() as real, e - 1148)
  {
    hide Ldexp, Mag, Pow2, Operand;
    var ma: int, mb: int := Operand(a).sig, Operand(b).sig;
    Pow2Values();
    LdexpIntTimes(ma, Operand(a).exp - 1075, mb, Operand(b).exp - 1075);
    LdexpUp(ma * mb, 20, e - 1148);
    assert e - 1148 + 20 == Operand(a).exp - 1075 + (Operand(b).exp - 1075);
  }

  lemma BlocksTwice(v: int, m: int)
    requires v == m * TWO20
    ensures MultipleOf(v, TWO20) && MultipleOf(2 * v, TWO20)
  {
    IsMultiple(v, TWO20, m);
    IsMultiple(2 * v, TWO20, 2 * m);
  }

  lemma ShiftAligned(p: U128, e: int, x: real, m: int)
    requires p.Val() == m * TWO20 && TWO125 <= 2 * p.Val() < 2 * TWO126 && x == Ldexp(p.Val() as real, e - 1148)
    ensures if p.v64 < TWO61 then AlignedWide(ShortShift128Left(p, 1), e - 1, x) else AlignedWide(p, e, x)
  {
    hide Ldexp, Pow2, ShortShift128Left, MultipleOf;
    BlocksTwice(p.Val(), m);
    if p.v64 < TWO61 {
      Pow2Values();
      ShortShift128Exact(p, 1);
      LdexpUp(p.Val(), 1, e - 1 - 1148);
      assert e - 1 - 1148 + 1 == e - 1148;
    }
  }

  lemma FactorsRange(ma: int, mb: int)
    requires TWO52 <= ma < TWO53 && TWO52 <= mb < TWO53
    ensures ma * 0x400 * (mb * 0x400) == ma * mb * TWO20
    ensures TWO125 <= 2 * (ma * mb * TWO20) < 2 * TWO126
  {
    MulMono(TWO52, ma, mb);
    MulMono(ma, TWO53, mb);
  }

  lemma AlignAddend(c: u64)
    requires IsFinite(c) && !IsZero(c)
    ensures AlignedWide(U128(Operand(c).sig * 0x200, 0), Operand(c).exp, Mag(Magnitude(c)))
    ensures MultipleOf(Operand(c).sig * 0x200, 2)
  {
    hide Ldexp, Mag, Operand, AlignedWide, MultipleOf;
    AddendAligned(Operand(c).sig, Operand(c).exp, Mag(Magnitude(c)));
  }

  lemma AddendAligned(m: nat, e: int, x: real)
    requires TWO52 <= m < TWO53 && x == Ldexp(m as real, e - 1075)
    ensures AlignedWide(U128(m * 0x200, 0), e, x) && MultipleOf(m * 0x200, 2)
  {
    hide Ldexp, Pow2, MultipleOf;
    IsMultiple(m * 0x200, 2, m * 0x100);
    BlocksTwice(U128(m * 0x200, 0).Val(), m * TWO53);
    assert Pow2(73) == 0x200_0000_0000_0000_0000 by { Pow2Add(64, 9); Pow2Values(); }
    LdexpUp(m, 73, e - 1148);
    assert e - 1148 + 73 == e - 1075;
  }

  /** With a zero addend the product is doubled; the bit shifted out of the low word stays in the sticky bit. */
  lemma ProductAlone(p: U128, exp: int, x: real)
    requires AlignedWide(p, exp, x)
    ensures TWO62 <= OrBit(p.v64 * 2, p.v0 != 0) < TWO63
    ensures RoundsAs(Ldexp(OrBit(p.v64 * 2, p.v0 != 0) as real, exp - 1 - 1084), x)
  {
    hide Ldexp, Pow2, RoundsAs, SameCell;
    var s := OrBit(p.v64 * 2, p.v0 != 0);
    var y := Ldexp(p.Val() as real, -63);
    Pow2Values();
    ShiftedBack(p.Val(), 63);
    DoubledCell(p, y);
    LdexpShift(p.Val() as real, -63, exp - 1 - 1084);
    assert -63 + (exp - 1 - 1084) == exp - 1148;
    Pow2Mono(54, 62);
    JamRoundsAs(s, y, exp - 1 - 1084);
  }

  lemma DoubledCell(p: U128, y: real)
    requires y * TWO63 as real == p.Val() as real
    ensures SameCell(2, OrBit(p.v64 * 2, p.v0 != 0), y)
  {
  }

  lemma FusedSigns(op: nat, a: u64, b: u64, c: u64)
    requires IsFinite(a) && IsFinite(b) && IsFinite(c)
    ensures Fused(op, a, b, c) == WithSign(SignProd(op, a, b), ProductMag(a, b)) + WithSign(SignC(op, c), Mag(Magnitude(c)))
  {
    hide Mag, Magnitude, SubProd, SubC;
    SignedProduct(SignOf(a), SignOf(b), Mag(Magnitude(a)), Mag(Magnitude(b)), ProductMag(a, b));
    SignTwice(SubProd(op), SignOf(a) != SignOf(b), ProductMag(a, b));
    SignTwice(SubC(op), SignOf(c), Mag(Magnitude(c)));
  }

  lemma SignTwice(outer: bool, inner: bool, x: real)
    ensures WithSign(outer, WithSign(inner, x)) == WithSign(outer != inner, x)
  {
  }

  lemma SignedProduct(signA: bool, signB: bool, x: real, y: real, p: real)
    requires p == x * y
    ensures WithSign(signA, x) * WithSign(signB, y) == WithSign(signA != signB, p)
  {
  }

  lemma DeliverFused(mode: Mode, op: nat, a: u64, b: u64, c: u64, sign: bool, x: real, z: u64,
                     before: set<Flag>, after: set<Flag>)
    requires IsFinite(a) && IsFinite(b) && IsFinite(c) && 0.0 < x
    requires WithSign(sign, x) == WithSign(SignProd(op, a, b), ProductMag(a, b)) + WithSign(SignC(op, c), Mag(Magnitude(c)))
    requires z == Signed(sign, Rounded(mode, sign, x)) && after == before + RoundFlags(mode, sign, x)
    ensures Delivers(mode, Fused(op, a, b, c), ZeroSumSign(mode, SignProd(op, a, b), SignC(op, c)), z, before, after)
  {
    hide Mag, Rounded, RoundFlags, Delivers, Fused;
    FusedSigns(op, a, b, c);
    DeliverSigned(mode, sign, x, Fused(op, a, b, c), z, ZeroSumSign(mode, SignProd(op, a, b), SignC(op, c)), before, after);
  }

  lemma DeliverProductAlone(mode: Mode, op: nat, a: u64, b: u64, c: u64, z: u64, before: set<Flag>, after: set<Flag>)
    requires IsFinite(a) && IsFinite(b) && IsZero(c) && 0.0 < ProductMag(a, b)
    requires z == Signed(SignProd(op, a, b), Rounded(mode, SignProd(op, a, b), ProductMag(a, b)))
    requires after == before + RoundFlags(mode, SignProd(op, a, b), ProductMag(a, b))
    ensures Delivers(mode, Fused(op, a, b, c), ZeroSumSign(mode, SignProd(op, a, b), SignC(op, c)), z, before, after)
  {
    hide Mag, Rounded, RoundFlags, Delivers, Fused, ProductMag;
    MagZero();
    DeliverFused(mode, op, a, b, c, SignProd(op, a, b), ProductMag(a, b), z, before, after);
  }

  lemma DeliverCancelled(mode: Mode, op: nat, a: u64, b: u64, c: u64, z: u64, flags: set<Flag>)
    requires IsFinite(a) && IsFinite(b) && IsFinite(c) && SignProd(op, a, b) != SignC(op, c)
    requires ProductMag(a, b) == Mag(Magnitude(c)) && z == Pack(mode == Min, 0, 0)
    ensures Delivers(mode, Fused(op, a, b, c), ZeroSumSign(mode, SignProd(op, a, b), SignC(op, c)), z, flags, flags)
  {
    hide Mag, Rounded, RoundFlags, Delivers, Fused;
    FusedSigns(op, a, b, c);
    PackExact(mode == Min, 0, 0);
    ZeroDelivered(mode, Fused(op, a, b, c), mode == Min, z, flags);
  }
}
