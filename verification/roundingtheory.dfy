/** What `Rounded` and the remainder relation mean: they pick the best representable answer, and only one. */
module RoundingTheory {
  import opened Words
  import opened Dyadic
  import opened Ieee
  import opened Remainder

  ghost function Distance(x: real, u: nat): real {
    AbsR(x - Mag(u))
  }

  /** In the nearest modes no pattern is closer, and ties go to the even pattern or to the larger magnitude. */
  lemma NearestIsClosest(mode: Mode, sign: bool, x: real, v: nat)
    requires 0.0 <= x && (mode == NearestEven || mode == NearestMaxMag)
    ensures
      var z := RoundUnbounded(mode, sign, x);
      && Distance(x, z) <= Distance(x, v)
      && (Distance(x, z) == Distance(x, v) && v != z ==> if mode == NearestEven then z % 2 == 0 else v < z)
  {
    hide Mag, Ldexp;
    var u := FloorPattern(x);
    NextMag(u);
    MagOrder(v, u);
    MagOrder(u + 1, v);
  }

  /** The directed modes give the closest pattern that does not cross x on the forbidden side. */
  lemma DirectedIsTight(mode: Mode, sign: bool, x: real, v: nat)
    requires 0.0 <= x && mode != NearestEven && mode != NearestMaxMag
    ensures
      var z := RoundUnbounded(mode, sign, x);
      if mode == MinMag || mode == (if sign then Max else Min)
      then Mag(z) <= x && (Mag(v) <= x ==> v <= z)
      else x <= Mag(z) && (x <= Mag(v) ==> z <= v)
  {
    hide Mag, Ldexp;
    var u := FloorPattern(x);
    NextMag(u);
    MagOrder(u, v);
    MagOrder(v, u + 1);
    MagOrder(u, u + 1);
  }

  /** Rounding never reverses an order. */
  lemma RoundingIsMonotone(mode: Mode, sign: bool, x: real, y: real)
    requires 0.0 <= x <= y
    ensures RoundUnbounded(mode, sign, x) <= RoundUnbounded(mode, sign, y)
    ensures Rounded(mode, sign, x) <= Rounded(mode, sign, y)
  {
    hide Mag, Ldexp;
    var u, v := FloorPattern(x), FloorPattern(y);
    MagOrder(v + 1, u);
    MagOrder(u, v + 1);
  }

  /** Some values, to fix the scale: one, minus one, the least and the largest double. */
  lemma SomeValues()
    ensures Value(0x3FF0_0000_0000_0000) == 1.0 && Value(0xBFF0_0000_0000_0000) == -1.0
    ensures Value(1) == Ldexp(1.0, -1074) && Value(MAXFINITE) == Ldexp(0x1F_FFFF_FFFF_FFFF as real, 971)
    ensures Mag(TWO52) == Ldexp(1.0, -1022) && Mag(INF) == Ldexp(1.0, 1024)
  {
    hide Mag, Ldexp;
    PackMag(0, 1);
    PackMag(2045, TWO53 - 1);
    BinadeStart(0);
    BinadeStart(1022);
    BinadeStart(2046);
    LdexpId(1.0);
    assert Mag(0x3FF0_0000_0000_0000) == 1.0;
  }

  /** The first pattern of a binade. */
  lemma BinadeStart(exp: nat)
    ensures Mag(exp * TWO52 + TWO52) == Ldexp(1.0, exp - 1022)
  {
    hide Mag, Ldexp;
    PackMag(exp, TWO52);
    assert Pow2(52) == TWO52 by { Pow2Values(); }
    hide Pow2;
    LdexpUp(1, 52, exp - 1074);
  }

  /**
   The exceptions of sections 7.4 to 7.6: overflow if the value rounded without an upper limit reaches 2^1024, inexact if what is
   delivered is not the value, underflow if besides the value lies below 2^-1022.
   */
  lemma FlagsAreExact(mode: Mode, sign: bool, x: real)
    requires 0.0 <= x
    ensures
      var flags, u := RoundFlags(mode, sign, x), RoundUnbounded(mode, sign, x);
      && (Overflow in flags <==> Ldexp(1.0, 1024) <= Mag(u))
      && (Inexact in flags <==> Mag(u) != x || Ldexp(1.0, 1024) <= Mag(u))
      && (Underflow in flags <==> Mag(u) != x && x < Ldexp(1.0, -1022))
      && DivByZero !in flags && Invalid !in flags
  {
    SomeValues();
    hide Ldexp, Mag;
    var u := RoundUnbounded(mode, sign, x);
    MagOrder(u, INF);
    TinyStaysTiny(mode, sign, x);
  }

  /** A value below the least normal one rounds to that at most. */
  lemma TinyStaysTiny(mode: Mode, sign: bool, x: real)
    requires 0.0 <= x
    ensures x < Mag(TWO52) ==> RoundUnbounded(mode, sign, x) <= TWO52
  {
    hide Mag, Ldexp;
    var u := FloorPattern(x);
    MagOrder(u, TWO52);
    MagOrder(TWO52, u);
  }

  /** Beyond the largest double: infinity, or the largest double if the mode does not round away from zero. */
  lemma OverflowResult(mode: Mode, sign: bool, x: real)
    requires 0.0 <= x && Ldexp(1.0, 1024) <= Mag(RoundUnbounded(mode, sign, x))
    ensures Rounded(mode, sign, x) ==
            match mode
            case NearestEven => INF
            case NearestMaxMag => INF
            case MinMag => MAXFINITE
            case Min => if sign then INF else MAXFINITE
            case Max => if sign then MAXFINITE else INF
  {
    SomeValues();
    hide Ldexp, Mag;
    MagOrder(RoundUnbounded(mode, sign, x), INF);
  }

  /** What an operation delivers is a double nearest to the exact result, if it is finite and the mode is a nearest one. */
  lemma DeliveredIsNearest(mode: Mode, r: real, zeroSign: bool, w: u64, v: u64, before: set<Flag>, after: set<Flag>)
    requires Delivers(mode, r, zeroSign, w, before, after) && IsFinite(w) && IsFinite(v) && (mode == NearestEven || mode == NearestMaxMag)
    ensures AbsR(r - Value(w)) <= AbsR(r - Value(v))
  {
    hide Mag, RoundUnbounded, RoundFlags;
    var x := if r < 0.0 then -r else r;
    MagZero();
    if r != 0.0 {
      NearestIsClosest(mode, r < 0.0, x, Magnitude(v));
      NearestIsClosest(mode, r < 0.0, x, 0);
      MagOrder(0, Magnitude(v));
    }
  }

  /** In the directed modes it lies on the side the mode asks for. */
  lemma DeliveredIsDirected(mode: Mode, r: real, zeroSign: bool, w: u64, before: set<Flag>, after: set<Flag>)
    requires Delivers(mode, r, zeroSign, w, before, after) && IsFinite(w)
    ensures mode == Min ==> Value(w) <= r
    ensures mode == Max ==> r <= Value(w)
    ensures mode == MinMag ==> AbsR(Value(w)) <= AbsR(r)
  {
    hide Mag, RoundUnbounded, RoundFlags;
    var x := if r < 0.0 then -r else r;
    MagZero();
    if r != 0.0 && mode != NearestEven && mode != NearestMaxMag {
      var u := RoundUnbounded(mode, r < 0.0, x);
      DirectedIsTight(mode, r < 0.0, x, 0);
      MagOrder(MAXFINITE, u);
      MagOrder(0, Magnitude(w));
    }
  }

  /** The remainder relation has at most one solution. */
  lemma RemainderUnique(x: real, y: real, m: int, r: real, n: int, s: real)
    requires y != 0.0 && IsRemainder(x, y, m, r) && IsRemainder(x, y, n, s)
    ensures m == n && r == s
  {
    var k, d := MultipleApart(m, n, y, r, s, x);
    if k != 0 {
      HalfwayApart(r, s, AbsR(y), d);
    }
  }

  /** Two remainders at least |y| apart must both be exactly half of it. */
  lemma HalfwayApart(r: real, s: real, w: real, d: real)
    requires AbsR(s - r) == d && w <= d && 2.0 * AbsR(r) <= w && 2.0 * AbsR(s) <= w
    ensures d == w && 2.0 * AbsR(r) == w && 2.0 * AbsR(s) == w
  {
  }

  lemma MultipleApart(m: int, n: int, y: real, r: real, s: real, x: real) returns (k: nat, d: real)
    requires y != 0.0 && r == x - m as real * y && s == x - n as real * y
    ensures k == (if m < n then n - m else m - n) && d == AbsR(s - r)
    ensures (k == 0 ==> d == 0.0) && (1 <= k ==> AbsR(y) <= d) && (d == AbsR(y) ==> k == 1)
  {
    k, d := if m < n then n - m else m - n, AbsR(s - r);
    var j := (m - n) as real;
    assert j == m as real - n as real;
    assert s - r == j * y;
    CountMultiples(k, AbsR(y), d);
  }

  lemma CountMultiples(k: nat, w: real, d: real)
    requires 0.0 < w && d == k as real * w
    ensures (k == 0 ==> d == 0.0) && (1 <= k ==> w <= d) && (d == w ==> k == 1)
  {
    RealCompare(k as real, 1.0, w);
  }
}
