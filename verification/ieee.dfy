/**
 The reference meaning of binary64 arithmetic, independent of any algorithm.

 A nonnegative double is a natural number u, its bit pattern without the sign.
 Patterns are ordered like the values they denote, so "the next double" is
 u + 1, and the carry from one binade into the next (or from the largest
 finite double to infinity) is ordinary addition.  `Mag` extends the value of
 a pattern past the finite range, as IEEE 754-2008 section 4.3 asks: a result
 is first rounded as though the exponent range were unbounded.
 */
module Ieee {
  import opened Words
  import opened Dyadic

  datatype Mode = NearestEven | MinMag | Min | Max | NearestMaxMag

  datatype Flag = Inexact | Underflow | Overflow | DivByZero | Invalid

  const INF: int := 0x7FF0_0000_0000_0000
  const MAXFINITE: int := 0x7FEF_FFFF_FFFF_FFFF
  const DEFAULTNAN: int := 0xFFFF_FFFF_FFFF_FFFF

  // ---------------------------------------------------------------- bit patterns

  /** Integer significand and exponent of a pattern: value = Sig * 2^(Exponent - 1074). */
  function Sig(u: nat): nat {
    if u < TWO52 then u else TWO52 + u % TWO52
  }

  function Exponent(u: nat): nat {
    if u < TWO52 then 0 else u / TWO52 - 1
  }

  ghost function Mag(u: nat): real {
    Ldexp(Sig(u) as real, Exponent(u) - 1074)
  }

  predicate SignOf(w: u64) { w >= TWO63 }

  function Magnitude(w: u64): (u: nat)
    ensures u < TWO63
  {
    w % TWO63
  }

  predicate IsNaN(w: u64) { Magnitude(w) > INF }

  predicate IsInf(w: u64) { Magnitude(w) == INF }

  predicate IsFinite(w: u64) { Magnitude(w) < INF }

  predicate IsZero(w: u64) { Magnitude(w) == 0 }

  /** The real number a finite double denotes. */
  ghost function Value(w: u64): real
    requires IsFinite(w)
  {
    if SignOf(w) then -Mag(Magnitude(w)) else Mag(Magnitude(w))
  }

  function Signed(sign: bool, u: nat): (w: u64)
    requires u < TWO63
    ensures SignOf(w) == sign && Magnitude(w) == u
  {
    if sign then TWO63 + u else u
  }

  /** A pattern assembled by adding an exponent field and a significand that still has its leading bit. */
  lemma PackMag(exp: nat, m: nat)
    requires m <= TWO53
    requires exp == 0 || TWO52 <= m
    ensures Mag(exp * TWO52 + m) == Ldexp(m as real, exp - 1074)
  {
    hide Ldexp;
    var u := exp * TWO52 + m;
    if m < TWO52 {
    } else if m < TWO53 {
      DivUnique(u, TWO52, exp + 1, m - TWO52);
    } else {
      DivUnique(u, TWO52, exp + 2, 0);
      LdexpTwice(TWO52 as real, exp - 1074);
    }
  }

  /** The next pattern is one unit in the last place above. */
  lemma NextMag(u: nat)
    ensures Mag(u + 1) == Ldexp((Sig(u) + 1) as real, Exponent(u) - 1074)
    ensures Mag(u) < Mag(u + 1)
    ensures Sig(u) < TWO53
  {
    hide Ldexp;
    PackMag(Exponent(u), Sig(u) + 1);
    assert Exponent(u) * TWO52 + Sig(u) == u;
    LdexpOrder(Sig(u) as real, (Sig(u) + 1) as real, Exponent(u) - 1074);
  }

  lemma {:induction false} MagIncreasing(u: nat, v: nat)
    requires u < v
    ensures Mag(u) < Mag(v)
    decreases v - u
  {
    NextMag(u);
    if u + 1 < v {
      MagIncreasing(u + 1, v);
    }
  }

  lemma MagOrder(u: nat, v: nat)
    ensures (u < v) <==> (Mag(u) < Mag(v))
    ensures (u == v) <==> (Mag(u) == Mag(v))
  {
    if u < v { MagIncreasing(u, v); }
    if v < u { MagIncreasing(v, u); }
  }

  // ---------------------------------------------------------------- rounding

  /** u is the largest pattern whose value does not exceed x. */
  ghost predicate IsFloor(u: nat, x: real) {
    Mag(u) <= x < Mag(u + 1)
  }

  lemma FloorUnique(u: nat, v: nat, x: real)
    requires IsFloor(u, x) && IsFloor(v, x)
    ensures u == v
  {
    hide Mag;
    if u < v {
      MagOrder(v, u + 1);
    } else if v < u {
      MagOrder(u, v + 1);
    }
  }

  lemma {:induction false} FloorBelow(x: real, top: nat) returns (u: nat)
    requires 0.0 <= x < Mag(top)
    ensures IsFloor(u, x)
  {
    hide Mag;
    MagZero();
    if Mag(top - 1) <= x {
      u := top - 1;
    } else {
      u := FloorBelow(x, top - 1);
    }
  }

  lemma {:induction false} MagLinear(u: nat)
    ensures Ldexp(u as real, -1074) <= Mag(u)
  {
    hide Ldexp, Mag;
    if u > 0 {
      var e := Exponent(u - 1) - 1074;
      MagLinear(u - 1);
      NextMag(u - 1);
      FloorBounds(u - 1);
      LdexpGrows(1.0, -1074, e);
      LdexpSum((u - 1) as real, 1.0, -1074);
      LdexpSum(Sig(u - 1) as real, 1.0, e);
    } else {
      MagZero();
      LdexpZero(-1074);
    }
  }

  lemma MagZero()
    ensures Mag(0) == 0.0
  {
    hide Ldexp;
    LdexpZero(-1074);
  }

  lemma FloorExists(x: real)
    requires 0.0 <= x
    ensures exists u: nat :: IsFloor(u, x)
  {
    hide Ldexp, Mag;
    var y := Ldexp(x, 1074);
    LdexpShift(x, 1074, -1074);
    LdexpOrder(0.0, x, 1074);
    LdexpZero(1074);
    assert Ldexp(x, 0) == x by { LdexpId(x); }
    var n: nat := y.Floor + 1;
    LdexpOrder(y, n as real, -1074);
    MagLinear(n);
    var u := FloorBelow(x, n);
  }

  lemma LdexpId(x: real)
    ensures Ldexp(x, 0) == x
  {
  }

  ghost function FloorPattern(x: real): (u: nat)
    requires 0.0 <= x
    ensures IsFloor(u, x)
  {
    FloorExists(x);
    var u: nat :| IsFloor(u, x);
    u
  }

  /** Between neighbours lo and hi, does the magnitude x round to hi?  odd: the last place of lo is odd. */
  ghost predicate RoundsUp(mode: Mode, sign: bool, odd: bool, lo: real, hi: real, x: real) {
    x != lo &&
    match mode
    case NearestEven => 2.0 * x > lo + hi || (2.0 * x == lo + hi && odd)
    case NearestMaxMag => 2.0 * x >= lo + hi
    case MinMag => false
    case Min => sign
    case Max => !sign
  }

  /** The magnitude x rounded with an unbounded exponent range. */
  ghost function RoundUnbounded(mode: Mode, sign: bool, x: real): nat
    requires 0.0 <= x
  {
    var u := FloorPattern(x);
    if RoundsUp(mode, sign, u % 2 == 1, Mag(u), Mag(u + 1), x) then u + 1 else u
  }

  predicate OverflowsToMax(mode: Mode, sign: bool) {
    mode == MinMag || (mode == Min && !sign) || (mode == Max && sign)
  }

  /** The magnitude pattern of the correctly rounded result (IEEE 754-2008 sections 4.3 and 7.4). */
  ghost function Rounded(mode: Mode, sign: bool, x: real): (z: nat)
    requires 0.0 <= x
    ensures z <= INF
  {
    var u := RoundUnbounded(mode, sign, x);
    if u < INF then u
    else if OverflowsToMax(mode, sign) then MAXFINITE
    else INF
  }

  /** The exceptions rounding must signal (sections 7.4 to 7.6; tininess is detected before rounding). */
  ghost function RoundFlags(mode: Mode, sign: bool, x: real): set<Flag>
    requires 0.0 <= x
  {
    var u := RoundUnbounded(mode, sign, x);
    if u >= INF then {Overflow, Inexact}
    else if Mag(u) == x then {}
    else if x < Mag(TWO52) then {Underflow, Inexact}
    else {Inexact}
  }

  /**
   w is the exact result r rounded once, and exactly the flags rounding must signal were
   added; an exact zero takes the given sign and is silent.
   */
  ghost predicate Delivers(mode: Mode, r: real, zeroSign: bool, w: u64, before: set<Flag>, after: set<Flag>) {
    if r == 0.0 then
      w == Signed(zeroSign, 0) && after == before
    else
      var x := if r < 0.0 then -r else r;
      w == Signed(r < 0.0, Rounded(mode, r < 0.0, x)) && after == before + RoundFlags(mode, r < 0.0, x)
  }

  /** x and y cannot be told apart by rounding, in any mode and under either sign. */
  ghost predicate RoundsAs(x: real, y: real) {
    && 0.0 < x && 0.0 < y
    && forall mode: Mode, sign: bool :: Rounded(mode, sign, x) == Rounded(mode, sign, y) && RoundFlags(mode, sign, x) == RoundFlags(mode, sign, y)
  }

  /** A representable magnitude is returned unchanged, and silently. */
  lemma ExactRounds(mode: Mode, sign: bool, u: nat)
    requires u < INF
    ensures 0.0 <= Mag(u)
    ensures Rounded(mode, sign, Mag(u)) == u
    ensures RoundFlags(mode, sign, Mag(u)) == {}
  {
    hide Ldexp, Mag;
    MagZero();
    MagOrder(0, u);
    NextMag(u);
    FloorUnique(u, FloorPattern(Mag(u)), Mag(u));
  }

  // ---------------------------------------------------------------- jamming

  /**
   s stands for y up to granularity g: both are the same multiple of g, or both lie
   strictly between the same two neighbouring multiples.  This is what a sticky bit keeps.
   */
  ghost predicate SameCell(g: int, s: int, y: real)
    requires g > 0
  {
    if s % g == 0 then y == s as real
    else (s - s % g) as real < y < (s - s % g + g) as real
  }

  /** Numbers in the same cell compare alike with every multiple of the granularity. */
  lemma CellCompare(g: int, s: int, y: real, k: int)
    requires g > 0 && SameCell(g, s, y)
    ensures (s as real < (k * g) as real) <==> (y < (k * g) as real)
    ensures (s as real == (k * g) as real) <==> (y == (k * g) as real)
  {
    var c := s / g;
    assert s == c * g + s % g;
    if c < k {
      MulMono(c + 1, k, g);
      assert (c + 1) * g == c * g + g;
    } else {
      MulMono(k, c, g);
    }
    CellSide(g, s, y, c * g, k * g);
  }

  lemma CellSide(g: int, s: int, y: real, lo: int, p: int)
    requires g > 0 && SameCell(g, s, y) && lo == s - s % g && (p <= lo || lo + g <= p)
    ensures (s as real < p as real) <==> (y < p as real)
    ensures (s as real == p as real) <==> (y == p as real)
  {
  }

  lemma CellCoarsen(g: int, h: int, s: int, y: real)
    requires g > 0 && h > 0 && SameCell(g, s, y)
    ensures g * h > 0 && SameCell(g * h, s, y)
  {
    assert g * h > 0;
    var G := g * h;
    var c := s / G;
    assert s == c * G + s % G;
    assert c * G == (c * h) * g;
    assert c * G + G == (c * h + h) * g;
    CellCompare(g, s, y, c * h);
    CellCompare(g, s, y, c * h + h);
  }

  lemma AsMultiple(g: nat, k: int, e: int, h: int) returns (m: int)
    requires g + e <= h
    ensures Ldexp(k as real, h) == Ldexp((m * Pow2(g)) as real, e)
  {
    hide Ldexp, Pow2;
    LdexpUp(k, h - g - e, g + e);
    m := k * Pow2(h - g - e);
    LdexpUp(m, g, e);
  }

  /** After scaling by 2^e, s and y still fall on the same side of every multiple of 2^(g+e). */
  lemma SameSide(g: nat, s: int, y: real, e: int, k: int, h: int)
    requires SameCell(Pow2(g), s, y) && g + e <= h
    ensures (Ldexp(s as real, e) < Ldexp(k as real, h)) <==> (Ldexp(y, e) < Ldexp(k as real, h))
    ensures (Ldexp(s as real, e) == Ldexp(k as real, h)) <==> (Ldexp(y, e) == Ldexp(k as real, h))
  {
    hide Ldexp, Pow2;
    var m := AsMultiple(g, k, e, h);
    CellCompare(Pow2(g), s, y, m);
    LdexpOrder(s as real, (m * Pow2(g)) as real, e);
    LdexpOrder(y, (m * Pow2(g)) as real, e);
  }

  /** If x is at least 2^(53+q), then half a unit in the last place of its floor is at least 2^q. */
  lemma CoarseFloor(u: nat, x: real, q: int)
    requires IsFloor(u, x) && Ldexp(1.0, 53 + q) <= x
    ensures q < Exponent(u) - 1074
  {
    hide Ldexp, Pow2, Mag;
    var t := Exponent(u) - 1074;
    NextMag(u);
    Pow2Values();
    LdexpUp(1, 53, t);
    LdexpOrder(TWO53 as real, (Sig(u) + 1) as real, t);
    if t <= q {
      LdexpGrows(1.0, 53 + t, 53 + q);
    }
  }

  /** The values and the midpoint that rounding compares with, as multiples of powers of two. */
  lemma FloorBounds(u: nat)
    ensures Mag(u) == Ldexp(Sig(u) as real, Exponent(u) - 1074)
    ensures Mag(u + 1) == Ldexp((Sig(u) + 1) as real, Exponent(u) - 1074)
    ensures Mag(u) + Mag(u + 1) == 2.0 * Ldexp((2 * Sig(u) + 1) as real, Exponent(u) - 1075)
  {
    hide Ldexp;
    NextMag(u);
    var t := Exponent(u) - 1075;
    LdexpSum(Sig(u) as real, (Sig(u) + 1) as real, t + 1);
    LdexpTwice((2 * Sig(u) + 1) as real, t);
  }

  /** Rounding compares x only with its floor, the next pattern and their midpoint; s and y agree on all three. */
  lemma JamSameFloor(g: nat, s: nat, y: real, e: int) returns (u: nat)
    requires SameCell(Pow2(g), s, y) && Pow2(53 + g) <= s
    ensures 0.0 < Ldexp(s as real, e) && 0.0 < Ldexp(y, e)
    ensures Mag(u) <= Ldexp(s as real, e) < Mag(u + 1)
    ensures Mag(u) <= Ldexp(y, e) < Mag(u + 1)
    ensures (Ldexp(s as real, e) == Mag(u)) <==> (Ldexp(y, e) == Mag(u))
    ensures (2.0 * Ldexp(s as real, e) < Mag(u) + Mag(u + 1)) <==> (2.0 * Ldexp(y, e) < Mag(u) + Mag(u + 1))
    ensures (2.0 * Ldexp(s as real, e) == Mag(u) + Mag(u + 1)) <==> (2.0 * Ldexp(y, e) == Mag(u) + Mag(u + 1))
  {
    hide Ldexp, Pow2, Mag, SameCell, Sig, Exponent;
    var x := Ldexp(s as real, e);
    LdexpOrder(0.0, s as real, e);
    LdexpZero(e);
    LdexpZero(g + e);
    LdexpUp(1, 53 + g, e);
    LdexpOrder(s as real, Pow2(53 + g) as real, e);
    SameSide(g, s, y, e, 0, g + e);
    u := FloorPattern(x);
    CoarseFloor(u, x, g + e);
    var t := Exponent(u) - 1074;
    FloorBounds(u);
    SameSide(g, s, y, e, Sig(u), t);
    SameSide(g, s, y, e, Sig(u) + 1, t);
    SameSide(g, s, y, e, 2 * Sig(u) + 1, t - 1);
  }

  lemma SameRounding(mode: Mode, sign: bool, u: nat, x: real, y: real)
    requires 0.0 <= x && 0.0 <= y && IsFloor(u, x) && IsFloor(u, y)
    requires (x == Mag(u)) <==> (y == Mag(u))
    requires (2.0 * x < Mag(u) + Mag(u + 1)) <==> (2.0 * y < Mag(u) + Mag(u + 1))
    requires (2.0 * x == Mag(u) + Mag(u + 1)) <==> (2.0 * y == Mag(u) + Mag(u + 1))
    ensures Rounded(mode, sign, x) == Rounded(mode, sign, y)
    ensures RoundFlags(mode, sign, x) == RoundFlags(mode, sign, y)
  {
    hide Mag;
    FloorUnique(u, FloorPattern(x), x);
    FloorUnique(u, FloorPattern(y), y);
    assert RoundUnbounded(mode, sign, x) == RoundUnbounded(mode, sign, y);
    MagOrder(u, TWO52);
    MagOrder(u + 1, TWO52);
  }

  /**
   The backbone: a significand s with at least two bits below the last one kept
   (53 + g bits, the lowest g of them possibly jammed) rounds exactly like the number it
   stands for, at every scale, in every mode, and signals the same exceptions.
   */
  lemma JamInvisible(mode: Mode, sign: bool, g: nat, s: nat, y: real, e: int)
    requires SameCell(Pow2(g), s, y) && Pow2(53 + g) <= s
    ensures 0.0 < Ldexp(s as real, e) && 0.0 < Ldexp(y, e)
    ensures Rounded(mode, sign, Ldexp(s as real, e)) == Rounded(mode, sign, Ldexp(y, e))
    ensures RoundFlags(mode, sign, Ldexp(s as real, e)) == RoundFlags(mode, sign, Ldexp(y, e))
  {
    hide Ldexp, Pow2, Mag, SameCell;
    var u := JamSameFloor(g, s, y, e);
    SameRounding(mode, sign, u, Ldexp(s as real, e), Ldexp(y, e));
  }

  lemma JamRoundsAs(s: nat, y: real, e: int)
    requires SameCell(2, s, y) && Pow2(54) <= s
    ensures RoundsAs(Ldexp(s as real, e), Ldexp(y, e))
  {
    hide Ldexp, Pow2, SameCell, Rounded, RoundFlags;
    Pow2Values();
    forall mode: Mode, sign: bool
      ensures 0.0 < Ldexp(s as real, e) && 0.0 < Ldexp(y, e)
      ensures Rounded(mode, sign, Ldexp(s as real, e)) == Rounded(mode, sign, Ldexp(y, e))
      ensures RoundFlags(mode, sign, Ldexp(s as real, e)) == RoundFlags(mode, sign, Ldexp(y, e))
    {
      JamInvisible(mode, sign, 1, s, y, e);
    }
    JamInvisible(NearestEven, false, 1, s, y, e);
  }

  lemma RoundsAsTrans(x: real, y: real, z: real)
    requires RoundsAs(x, y) && RoundsAs(y, z)
    ensures RoundsAs(x, z)
  {
    hide Rounded, RoundFlags;
  }

  lemma RoundsAsSelf(x: real)
    requires 0.0 < x
    ensures RoundsAs(x, x)
  {
  }
}
