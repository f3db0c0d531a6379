/** The binary64 arithmetic behind the comparison of an int64 with a double:
    section 4.3.1 of IEEE 754-2008 (round to nearest, ties to even) with a significand
    of 53 bits, the subnormal range and overflow to infinity. A finite double is its
    real value, so the two zeros are one value. */
module Doubles {

  /** 2^53: a significand is smaller than this. */
  const SIGNIFICAND: int := 0x20_0000_0000_0000
  const HALF_SIGNIFICAND: int := 0x10_0000_0000_0000

  const INT64_MIN: int := -0x8000_0000_0000_0000
  const INT64_MAX: int := 0x7fff_ffff_ffff_ffff
  const INT32_MIN: int := -0x8000_0000
  const INT32_MAX: int := 0x7fff_ffff

  type Int64 = i: int | INT64_MIN <= i <= INT64_MAX
  type Int32 = i: int | INT32_MIN <= i <= INT32_MAX

  datatype Double = Fin(v: real) | PosInf | NegInf | NaN

  /** The comparisons of C++ on doubles: false as soon as one side is NaN. */
  predicate Lt(a: Double, b: Double) {
    !a.NaN? && !b.NaN? && !a.PosInf? && !b.NegInf? &&
    (a.Fin? && b.Fin? ==> a.v < b.v)
  }

  predicate Eq(a: Double, b: Double) {
    !a.NaN? && a == b
  }

  predicate Le(a: Double, b: Double) {
    Lt(a, b) || Eq(a, b)
  }

  function Neg(a: Double): Double {
    match a
    case Fin(v) => Fin(-v)
    case PosInf => NegInf
    case NegInf => PosInf
    case NaN => NaN
  }

  function Abs(a: Double): Double {
    match a
    case Fin(v) => Fin(if v < 0.0 then -v else v)
    case NegInf => PosInf
    case _ => a
  }

  /** x * 2^n, by doubling n times. */
  function Doubled(x: real, n: nat): real {
    if n == 0 then x else 2.0 * Doubled(x, n - 1)
  }

  /** x / 2^n. */
  function Halved(x: real, n: nat): real {
    if n == 0 then x else Halved(x, n - 1) / 2.0
  }

  /** The integer nearest to t, the even one when two are equally near. */
  function NearestEven(t: real): (q: int) {
    var f := t.Floor;
    var d := t - f as real;
    if d < 0.5 || (d == 0.5 && f % 2 == 0) then f else f + 1
  }

  /** No integer is nearer to t than NearestEven(t), and at a tie it is the even one. */
  lemma NearestEvenSpec(t: real, z: int)
    ensures var q := NearestEven(t);
            && RAbs(q as real - t) <= RAbs(z as real - t)
            && (z != q && RAbs(q as real - t) == RAbs(z as real - t) ==> q % 2 == 0 && z % 2 != 0)
  {
  }

  function RAbs(x: real): real {
    if x < 0.0 then -x else x
  }

  /** Rounds a magnitude counted in units of the finest spacing: the spacing doubles, at most
      k times, until fewer than 54 bits are needed. The result is in the same unit. */
  function RoundUnits(t: real, k: nat): Double
    requires t >= 0.0
    decreases k, t
  {
    if t < SIGNIFICAND as real then
      var q := NearestEven(t);
      if k == 0 && q == SIGNIFICAND then PosInf else Fin(q as real)
    else if k == 0 then PosInf
    else
      var r := RoundUnits(t / 2.0, k - 1);
      if r.Fin? then Fin(2.0 * r.v) else r
  }

  lemma {:induction false} DoubledSign(x: real, n: nat)
    requires x >= 0.0
    ensures Doubled(x, n) >= x
  {
    if n > 0 { DoubledSign(x, n - 1); }
  }

  /** The spacing of the subnormals is 2^-1074; it doubles 2045 times to the one just below
      2^1024. The exponents are given by bounds, so that the verifier reasons about the powers
      and does not multiply them out. */
  type FinestExponent = n: nat | 1073 < n < 1075 witness 1074
  type SpacingRange = n: nat | 2044 < n < 2046 witness 2045

  const FINEST: FinestExponent
  const DOUBLINGS: SpacingRange

  /** The double a real number is rounded to. */
  function Round(x: real): Double {
    if x < 0.0 then Neg(RoundPositive(-x)) else RoundPositive(x)
  }

  function RoundPositive(x: real): Double
    requires x >= 0.0
  {
    DoubledSign(x, FINEST);
    var r := RoundUnits(Doubled(x, FINEST), DOUBLINGS);
    if r.Fin? then Fin(Halved(r.v, FINEST)) else r
  }

  /** static_cast<double> of an int64: convertFromInt of section 5.4.1. */
  function ToDouble(i: Int64): Double {
    Round(i as real)
  }

  /** t has a significand of 53 bits and exponent j. */
  ghost predicate OnGrid(t: real, n: int, j: nat) {
    0 <= n < SIGNIFICAND && t == Doubled(n as real, j)
  }

  /** A finite double: a significand of 53 bits times a power of two in range. */
  ghost predicate Representable(x: real) {
    exists n: int, j: nat :: j <= DOUBLINGS && Significand(x, n, j)
  }

  ghost predicate Significand(x: real, n: int, j: nat) {
    OnGrid(Doubled(RAbs(x), FINEST), n, j)
  }

  // ----- rounding in units: monotone, exact, nearest

  lemma {:induction false} RoundUnitsAtLeast(t: real, k: nat)
    requires t >= HALF_SIGNIFICAND as real
    ensures Le(Fin(HALF_SIGNIFICAND as real), RoundUnits(t, k))
    decreases k
  {
    if t >= SIGNIFICAND as real && k > 0 {
      RoundUnitsAtLeast(t / 2.0, k - 1);
    }
  }

  lemma RoundUnitsBelow(t: real, k: nat)
    requires 0.0 <= t < SIGNIFICAND as real
    ensures 0 <= NearestEven(t) <= SIGNIFICAND
    ensures RoundUnits(t, k) == if k == 0 && NearestEven(t) == SIGNIFICAND then PosInf else Fin(NearestEven(t) as real)
  {
  }

  lemma RoundUnitsAbove(t: real, k: nat)
    requires SIGNIFICAND as real <= t
    ensures k == 0 ==> RoundUnits(t, k) == PosInf
    ensures k > 0 ==> var r := RoundUnits(t / 2.0, k - 1);
                      RoundUnits(t, k) == if r.Fin? then Fin(2.0 * r.v) else r
  {
  }

  lemma NearestEvenMonotone(s: real, t: real)
    requires s <= t
    ensures NearestEven(s) <= NearestEven(t)
  {
  }

  lemma {:induction false} RoundUnitsMonotone(s: real, t: real, k: nat)
    requires 0.0 <= s <= t
    ensures Le(RoundUnits(s, k), RoundUnits(t, k))
    decreases k
  {
    if t < SIGNIFICAND as real {
      RoundUnitsBelow(s, k);
      RoundUnitsBelow(t, k);
      NearestEvenMonotone(s, t);
    } else {
      RoundUnitsAbove(t, k);
      if s < SIGNIFICAND as real {
        RoundUnitsBelow(s, k);
        if k > 0 { RoundUnitsAtLeast(t / 2.0, k - 1); }
      } else {
        RoundUnitsAbove(s, k);
        if k > 0 {
          RoundUnitsMonotone(s / 2.0, t / 2.0, k - 1);
        }
      }
    }
  }

  /** A value on one of the grids is not changed. */
  lemma {:induction false} RoundUnitsExact(t: real, k: nat, n: int, j: nat)
    requires j <= k && OnGrid(t, n, j)
    ensures t >= 0.0 && RoundUnits(t, k) == Fin(t)
    decreases k
  {
    WholeGrid(t, n, j);
    if t >= SIGNIFICAND as real {
      HalveGrid(t, n, j);
      RoundUnitsExact(t / 2.0, k - 1, n, j - 1);
    }
  }

  lemma {:induction false} WholeGrid(t: real, n: int, j: nat)
    requires OnGrid(t, n, j)
    ensures t >= 0.0 && t == t.Floor as real
    decreases j
  {
    if j > 0 {
      WholeGrid(t / 2.0, n, j - 1);
      assert t == (2 * (t / 2.0).Floor) as real;
    }
  }

  lemma HalveGrid(t: real, n: int, j: nat)
    requires OnGrid(t, n, j) && t >= SIGNIFICAND as real
    ensures j > 0 && OnGrid(t / 2.0, n, j - 1)
  {
  }

  /** No value d on a grid is nearer to t than the value t is rounded to. The second form of
      the requires is what is left of d once the spacing outgrew it. */
  lemma {:induction false} RoundUnitsNearest(t: real, k: nat, d: real, n: int, j: nat)
    requires t >= 0.0 && RoundUnits(t, k).Fin?
    requires OnGrid(d, n, j) || d <= HALF_SIGNIFICAND as real <= t
    ensures RAbs(RoundUnits(t, k).v - t) <= RAbs(d - t)
    decreases k
  {
    if t < SIGNIFICAND as real {
      if OnGrid(d, n, j) {
        WholeGrid(d, n, j);
        NearestEvenSpec(t, d.Floor);
      } else {
        NearestEvenSpec(t, HALF_SIGNIFICAND);
      }
    } else if OnGrid(d, n, j) && j > 0 {
      assert OnGrid(d / 2.0, n, j - 1);
      RoundUnitsNearest(t / 2.0, k - 1, d / 2.0, n, j - 1);
    } else {
      RoundUnitsNearest(t / 2.0, k - 1, d / 2.0, n, j);
    }
  }

  // ----- the conversion of section 4.3.1, for every real

  lemma {:induction false} HalvedDoubled(x: real, n: nat)
    ensures Halved(Doubled(x, n), n) == x
  {
    if n > 0 {
      HalvedDoubled(x, n - 1);
      HalvedTwice(Doubled(x, n - 1), n - 1);
    }
  }

  lemma {:induction false} HalvedTwice(x: real, n: nat)
    ensures Halved(2.0 * x, n) == 2.0 * Halved(x, n)
  {
    if n > 0 { HalvedTwice(x, n - 1); }
  }

  lemma {:induction false} HalvedMonotone(a: real, b: real, n: nat)
    requires a <= b
    ensures Halved(a, n) <= Halved(b, n)
  {
    if n > 0 { HalvedMonotone(a, b, n - 1); }
  }

  lemma {:induction false} DoubledMonotone(a: real, b: real, n: nat)
    requires a <= b
    ensures Doubled(a, n) <= Doubled(b, n)
  {
    if n > 0 { DoubledMonotone(a, b, n - 1); }
  }

  lemma {:induction false} HalvedDistance(a: real, b: real, n: nat)
    ensures RAbs(Halved(a, n) - Halved(b, n)) == Halved(RAbs(a - b), n)
  {
    if n > 0 { HalvedDistance(a, b, n - 1); }
  }

  lemma RoundPositiveMonotone(x: real, y: real)
    requires 0.0 <= x <= y
    ensures Le(RoundPositive(x), RoundPositive(y))
  {
    var s, t := Doubled(x, FINEST), Doubled(y, FINEST);
    DoubledSign(x, FINEST);
    DoubledMonotone(x, y, FINEST);
    RoundUnitsMonotone(s, t, DOUBLINGS);
    var a, b := RoundUnits(s, DOUBLINGS), RoundUnits(t, DOUBLINGS);
    if a.Fin? && b.Fin? { HalvedMonotone(a.v, b.v, FINEST); }
  }

  lemma RoundPositiveExact(x: real, n: int, j: nat)
    requires x >= 0.0 && j <= DOUBLINGS && Significand(x, n, j)
    ensures RoundPositive(x) == Fin(x)
  {
    RoundUnitsExact(Doubled(x, FINEST), DOUBLINGS, n, j);
    HalvedDoubled(x, FINEST);
  }

  lemma RoundZero()
    ensures Round(0.0) == Fin(0.0)
  {
    DoubledZero(FINEST);
    assert Significand(0.0, 0, 0);
    RoundPositiveExact(0.0, 0, 0);
  }

  lemma {:induction false} DoubledZero(n: nat)
    ensures Doubled(0.0, n) == 0.0
  {
    if n > 0 { DoubledZero(n - 1); }
  }

  lemma RoundPositiveSign(x: real)
    requires x >= 0.0
    ensures Le(Fin(0.0), RoundPositive(x))
  {
    RoundZero();
    RoundPositiveMonotone(0.0, x);
  }

  /** Rounding never turns an order around. */
  lemma RoundMonotone(x: real, y: real)
    requires x <= y
    ensures Le(Round(x), Round(y))
  {
    if y < 0.0 {
      RoundPositiveMonotone(-y, -x);
    } else if x >= 0.0 {
      RoundPositiveMonotone(x, y);
    } else {
      RoundPositiveSign(-x);
      RoundPositiveSign(y);
    }
  }

  /** A double is its own rounding. */
  lemma RoundExact(x: real)
    requires Representable(x)
    ensures Round(x) == Fin(x)
  {
    var n: int, j: nat :| j <= DOUBLINGS && Significand(x, n, j);
    assert Significand(RAbs(x), n, j);
    RoundPositiveExact(RAbs(x), n, j);
  }

  lemma RoundOdd(x: real)
    ensures Round(-x) == Neg(Round(x))
  {
    RoundZero();
  }

  lemma RoundPositiveNearest(x: real, d: real, n: int, j: nat)
    requires x >= 0.0 && d >= 0.0 && RoundPositive(x).Fin? && Significand(d, n, j)
    ensures RAbs(RoundPositive(x).v - x) <= RAbs(d - x)
  {
    var t, e := Doubled(x, FINEST), Doubled(d, FINEST);
    DoubledSign(x, FINEST);
    RoundUnitsNearest(t, DOUBLINGS, e, n, j);
    var r := RoundUnits(t, DOUBLINGS).v;
    HalvedDistance(r, t, FINEST);
    HalvedDistance(e, t, FINEST);
    HalvedDoubled(x, FINEST);
    HalvedDoubled(d, FINEST);
    HalvedMonotone(RAbs(r - t), RAbs(e - t), FINEST);
  }

  /** Round to nearest: no double is nearer to x than Round(x). */
  lemma RoundNearest(x: real, d: real)
    requires Round(x).Fin? && Representable(d)
    ensures RAbs(Round(x).v - x) <= RAbs(d - x)
  {
    var n: int, j: nat :| j <= DOUBLINGS && Significand(d, n, j);
    assert Significand(RAbs(d), n, j);
    RoundPositiveNearest(RAbs(x), RAbs(d), n, j);
  }

  lemma {:induction false} RoundUnitsOnGrid(t: real, k: nat) returns (n: int, j: nat)
    requires t >= 0.0 && RoundUnits(t, k).Fin?
    ensures j <= k && OnGrid(RoundUnits(t, k).v, n, j)
    decreases k
  {
    if t < SIGNIFICAND as real {
      RoundUnitsBelow(t, k);
      n, j := NearestEven(t), 0;
      if n == SIGNIFICAND {
        n, j := HALF_SIGNIFICAND, 1;
        assert Doubled(n as real, 1) == 2.0 * Doubled(n as real, 0);
      }
    } else {
      n, j := RoundUnitsOnGrid(t / 2.0, k - 1);
      j := j + 1;
    }
  }

  lemma {:induction false} DoubledHalved(t: real, n: nat)
    ensures Doubled(Halved(t, n), n) == t
  {
    if n > 0 {
      DoubledHalved(t, n - 1);
      DoubledHalf(Halved(t, n - 1), n - 1);
    }
  }

  lemma {:induction false} DoubledHalf(x: real, n: nat)
    ensures 2.0 * Doubled(x / 2.0, n) == Doubled(x, n)
  {
    if n > 0 { DoubledHalf(x, n - 1); }
  }

  /** What a real is rounded to is a double. */
  lemma RoundRepresentable(x: real)
    requires Round(x).Fin?
    ensures Representable(Round(x).v)
  {
    var m := RAbs(x);
    DoubledSign(m, FINEST);
    var n, j := RoundUnitsOnGrid(Doubled(m, FINEST), DOUBLINGS);
    DoubledHalved(RoundUnits(Doubled(m, FINEST), DOUBLINGS).v, FINEST);
    RoundPositiveSign(m);
    assert Significand(Round(x).v, n, j);
  }

  lemma {:induction false} RoundUnitsOverflow(t: real, k: nat)
    requires t >= 0.0
    ensures RoundUnits(t, k) == PosInf <==> t >= Doubled(SIGNIFICAND as real - 0.5, k)
    ensures RoundUnits(t, k).Fin? || RoundUnits(t, k) == PosInf
    decreases k
  {
    if t < SIGNIFICAND as real {
      RoundUnitsBelow(t, k);
      if k > 0 { DoubledSign(SIGNIFICAND as real - 0.5, k - 1); }
    } else {
      RoundUnitsAbove(t, k);
      if k > 0 { RoundUnitsOverflow(t / 2.0, k - 1); }
    }
  }

  /** Overflow: infinite exactly from half a spacing above the largest double on. */
  lemma RoundOverflow(x: real)
    ensures Round(x).Fin? <==> Doubled(RAbs(x), FINEST) < Doubled(SIGNIFICAND as real - 0.5, DOUBLINGS)
    ensures !Round(x).Fin? ==> Round(x) == if x < 0.0 then NegInf else PosInf
  {
    DoubledSign(RAbs(x), FINEST);
    RoundUnitsOverflow(Doubled(RAbs(x), FINEST), DOUBLINGS);
  }

  // ----- the conversion of an int64

  lemma {:induction false} RoundUnitsShift(t: real, f: nat, k: nat)
    requires 0.0 <= t < SIGNIFICAND as real && (f > 0 ==> HALF_SIGNIFICAND as real <= t)
    requires f < k || (f == k && NearestEven(t) < SIGNIFICAND)
    ensures Doubled(t, f) >= t
    ensures RoundUnits(Doubled(t, f), k) == Fin(Doubled(NearestEven(t) as real, f))
    decreases f
  {
    DoubledSign(t, f);
    if f > 0 {
      if f > 1 { RoundUnitsShift(t, f - 1, k - 1); } else { RoundUnitsBelow(t, k - 1); }
      DoubledSign(t, f - 1);
      RoundUnitsAbove(Doubled(t, f), k);
    } else {
      RoundUnitsBelow(t, k);
    }
  }

  lemma {:induction false} DoubledSum(x: real, m: nat, n: nat)
    ensures Doubled(Doubled(x, m), n) == Doubled(x, m + n)
  {
    if n > 0 { DoubledSum(x, m, n - 1); }
  }

  lemma RoundInUnits(x: real, t: real, f: nat)
    requires x >= 0.0 && Doubled(x, FINEST) == Doubled(t, f)
    requires 0.0 <= t < SIGNIFICAND as real && (f > 0 ==> HALF_SIGNIFICAND as real <= t)
    requires f < DOUBLINGS || (f == DOUBLINGS && NearestEven(t) < SIGNIFICAND)
    ensures Round(x) == Fin(Halved(Doubled(NearestEven(t) as real, f), FINEST))
  {
    RoundUnitsShift(t, f, DOUBLINGS);
  }

  lemma {:induction false} BinadeOf(u: real, k: nat) returns (t: real, f: nat)
    requires u >= 0.0 && RoundUnits(u, k).Fin?
    ensures f <= k && u == Doubled(t, f)
    ensures 0.0 <= t < SIGNIFICAND as real && (f > 0 ==> HALF_SIGNIFICAND as real <= t)
    ensures f < k || NearestEven(t) < SIGNIFICAND
    decreases k
  {
    if u < SIGNIFICAND as real {
      t, f := u, 0;
      RoundUnitsBelow(u, k);
    } else {
      RoundUnitsAbove(u, k);
      t, f := BinadeOf(u / 2.0, k - 1);
      assert Doubled(t, f + 1) == 2.0 * Doubled(t, f);
      f := f + 1;
    }
  }

  /** Ties to even, for every magnitude that does not overflow: x is t units of the spacing of its
      binade, which is 2^f times the finest, and is rounded by rounding t. Below the normal
      numbers the spacing is the finest itself. */
  lemma RoundBinade(x: real) returns (t: real, f: nat)
    requires x >= 0.0 && Round(x).Fin?
    ensures f <= DOUBLINGS && Doubled(x, FINEST) == Doubled(t, f)
    ensures 0.0 <= t < SIGNIFICAND as real && (f > 0 ==> HALF_SIGNIFICAND as real <= t)
    ensures Round(x) == Fin(Halved(Doubled(NearestEven(t) as real, f), FINEST))
  {
    DoubledSign(x, FINEST);
    t, f := BinadeOf(Doubled(x, FINEST), DOUBLINGS);
    RoundInUnits(x, t, f);
  }

  lemma RoundShifted(t: real, e: nat)
    requires HALF_SIGNIFICAND as real <= t < SIGNIFICAND as real && e + FINEST < DOUBLINGS
    ensures Round(Doubled(t, e)) == Fin(Doubled(NearestEven(t) as real, e))
  {
    DoubledSign(t, e);
    DoubledSum(t, e, FINEST);
    RoundInUnits(Doubled(t, e), t, e + FINEST);
    DoubledSum(NearestEven(t) as real, e, FINEST);
    HalvedDoubled(Doubled(NearestEven(t) as real, e), FINEST);
  }

  lemma {:induction false} DoubledTimes(x: real, n: nat)
    ensures Doubled(x, n) == x * Doubled(1.0, n)
  {
    if n > 0 {
      DoubledTimes(x, n - 1);
      assert 2.0 * (x * Doubled(1.0, n - 1)) == x * (2.0 * Doubled(1.0, n - 1));
    }
  }

  lemma TwoToTenEleven()
    ensures Doubled(1.0, 10) == 1024.0 && Doubled(1.0, 11) == 2048.0
  {
  }

  lemma TwoTo63()
    ensures Round(TWO_63) == Fin(TWO_63) && Round(-TWO_63) == Fin(-TWO_63)
  {
    var t := HALF_SIGNIFICAND as real;
    TwoToTenEleven();
    DoubledTimes(t, 11);
    assert NearestEven(t) == HALF_SIGNIFICAND;
    RoundShifted(t, 11);
    RoundOdd(TWO_63);
  }

  lemma IntegerSignificand(m: int)
    requires 0 <= m <= SIGNIFICAND
    ensures Representable(m as real)
  {
    if m < SIGNIFICAND {
      assert Significand(m as real, m, FINEST);
    } else {
      DoubledSum(HALF_SIGNIFICAND as real, 1, FINEST);
      assert Doubled(HALF_SIGNIFICAND as real, 1) == m as real;
      assert Significand(m as real, HALF_SIGNIFICAND, FINEST + 1);
    }
  }

  /** An int64 within 2^53, every int32 among them, is converted exactly. */
  lemma ToDoubleExact(i: Int64)
    requires -SIGNIFICAND <= i <= SIGNIFICAND
    ensures ToDouble(i) == Fin(i as real)
  {
    var m := if i < 0 then -i else i;
    IntegerSignificand(m);
    RoundExact(m as real);
    RoundOdd(m as real);
  }

  /** Converting int64 to double keeps the order and stays within [-2^63, 2^63]. */
  lemma ToDoubleMonotone(i: Int64, j: Int64)
    requires i <= j
    ensures ToDouble(i).Fin? && ToDouble(j).Fin?
    ensures -TWO_63 <= ToDouble(i).v <= ToDouble(j).v <= TWO_63
  {
    TwoTo63();
    RoundMonotone(i as real, j as real);
    RoundMonotone(-TWO_63, i as real);
    RoundMonotone(j as real, TWO_63);
  }

  const TWO_63: real := 0x8000_0000_0000_0000 as real

  /** numeric_limits<int64_t>::max() is no double: as one it is 2^63. */
  lemma ToDoubleMax()
    ensures ToDouble(INT64_MAX) == Fin(TWO_63)
    ensures ToDouble(INT64_MIN) == Fin(-TWO_63)
  {
    TwoTo63();
    TwoToTenEleven();
    var t := INT64_MAX as real / 1024.0;
    assert NearestEven(t) == SIGNIFICAND;
    DoubledTimes(t, 10);
    DoubledTimes(SIGNIFICAND as real, 10);
    RoundShifted(t, 10);
  }

  /** 2^53 + 1 is the first integer that is not converted exactly: the tie goes to 2^53. */
  lemma ToDoubleTie()
    ensures ToDouble(SIGNIFICAND + 1) == Fin(SIGNIFICAND as real)
  {
    var t := HALF_SIGNIFICAND as real + 0.5;
    assert NearestEven(t) == HALF_SIGNIFICAND;
    RoundShifted(t, 1);
    assert Doubled(t, 1) == (SIGNIFICAND + 1) as real;
  }

  // ----- rounded arithmetic

  function Add(a: Double, b: Double): Double {
    match (a, b)
    case (NaN, _) => NaN
    case (_, NaN) => NaN
    case (PosInf, NegInf) => NaN
    case (NegInf, PosInf) => NaN
    case (Fin(x), Fin(y)) => Round(x + y)
    case (Fin(_), _) => b
    case _ => a
  }

  function Sub(a: Double, b: Double): Double {
    Add(a, Neg(b))
  }

  function Product(x: real, y: real): real {
    x * y
  }

  /** a times a positive constant. */
  function Times(a: Double, c: real): Double
    requires c > 0.0
  {
    if a.Fin? then Round(Product(a.v, c)) else a
  }

  /** A rounded result is zero only when the exact one is nearer to zero than 2^-1074. */
  lemma RoundNonzero(x: real)
    requires Doubled(RAbs(x), FINEST) >= 1.0
    ensures Round(x) != Fin(0.0)
  {
    var t := Doubled(RAbs(x), FINEST);
    assert OnGrid(1.0, 1, 0);
    RoundUnitsExact(1.0, DOUBLINGS, 1, 0);
    RoundUnitsMonotone(1.0, t, DOUBLINGS);
    var r := RoundUnits(t, DOUBLINGS);
    if r.Fin? {
      HalvedMonotone(1.0, r.v, FINEST);
      HalvedPositive(FINEST);
    }
  }

  lemma {:induction false} HalvedPositive(n: nat)
    ensures Halved(1.0, n) > 0.0
  {
    if n > 0 { HalvedPositive(n - 1); }
  }

  function Trunc(d: Double): Double {
    if d.Fin? then Fin(if d.v < 0.0 then -((-d.v).Floor as real) else d.v.Floor as real) else d
  }

  lemma {:induction false} DoubledDifference(x: real, y: real, n: nat)
    ensures Doubled(x - y, n) == Doubled(x, n) - Doubled(y, n)
  {
    if n > 0 { DoubledDifference(x, y, n - 1); }
  }

  lemma {:induction false} DoubledWhole(z: int, n: nat)
    ensures Doubled(z as real, n) == Doubled(z as real, n).Floor as real
  {
    if n > 0 {
      DoubledWhole(z, n - 1);
      assert Doubled(z as real, n) == (2 * Doubled(z as real, n - 1).Floor) as real;
    }
  }

  /** A fraction of a double is a whole number of units. */
  lemma FractionUnits(m: real, n: int, j: nat)
    requires m >= 0.0 && Significand(m, n, j) && m != m.Floor as real
    ensures Doubled(m - m.Floor as real, FINEST) >= 1.0
  {
    var z := m.Floor;
    var a, b := Doubled(m, FINEST), Doubled(z as real, FINEST);
    WholeGrid(a, n, j);
    DoubledWhole(z, FINEST);
    DoubledDifference(m, z as real, FINEST);
    DoubledSign(m - z as real, FINEST);
    assert a - b == (a.Floor - b.Floor) as real;
  }

  /** From 2^53 on every double is an integer. */
  lemma LargeIsWhole(m: real)
    requires m >= SIGNIFICAND as real && Representable(m)
    ensures m == m.Floor as real
  {
    var n: int, j: nat :| j <= DOUBLINGS && Significand(m, n, j);
    DoubledMonotone(SIGNIFICAND as real, m, FINEST);
    if j < FINEST {
      DoubledSum(SIGNIFICAND as real, j, FINEST - j);
      DoubledSign(SIGNIFICAND as real, j);
      DoubledSign(Doubled(SIGNIFICAND as real, j), FINEST - j);
      DoubledStrictlyMonotone(n as real, SIGNIFICAND as real, j);
    } else {
      DoubledSum(n as real, j - FINEST, FINEST);
      HalvedDoubled(Doubled(n as real, j - FINEST), FINEST);
      HalvedDoubled(m, FINEST);
      DoubledWhole(n, j - FINEST);
    }
  }

  lemma {:induction false} DoubledStrictlyMonotone(a: real, b: real, n: nat)
    requires a < b
    ensures Doubled(a, n) < Doubled(b, n)
  {
    if n > 0 { DoubledStrictlyMonotone(a, b, n - 1); }
  }

  lemma {:induction false} HalvedSum(x: real, m: nat, n: nat)
    ensures Halved(Halved(x, m), n) == Halved(x, m + n)
  {
    if n > 0 { HalvedSum(x, m, n - 1); }
  }

  lemma {:induction false} HalvedTimes(x: real, n: nat)
    ensures Halved(x, n) == x * Halved(1.0, n)
  {
    if n > 0 { HalvedTimes(x, n - 1); }
  }

  lemma {:induction false} DoubledOfHalved(x: real, m: nat, k: nat)
    requires k <= m
    ensures Doubled(Halved(x, k), m) == Doubled(x, m - k)
  {
    if k > 0 {
      DoubledHalf(Halved(x, k - 1), m - 1);
      DoubledOfHalved(x, m - 1, k - 1);
    }
  }

  /** A double from 2^k units on is a double again when it is halved k times. */
  lemma HalvedRepresentable(v: real, k: nat)
    requires v >= 0.0 && Representable(v) && k <= FINEST
    requires Doubled(v, FINEST) >= Doubled(SIGNIFICAND as real, k)
    ensures Halved(v, k) >= 0.0 && Representable(Halved(v, k))
  {
    var n: int, j: nat :| j <= DOUBLINGS && Significand(v, n, j);
    if j < k {
      DoubledStrictlyMonotone(n as real, SIGNIFICAND as real, j);
      DoubledSum(SIGNIFICAND as real, j, k - j);
      DoubledSign(SIGNIFICAND as real, j);
      DoubledSign(Doubled(SIGNIFICAND as real, j), k - j);
    }
    HalvedSign(v, k);
    DoubledOfHalved(v, FINEST, k);
    DoubledSum(v, FINEST - k, k);
    DoubledSum(n as real, j - k, k);
    DoubledInjective(Doubled(v, FINEST - k), Doubled(n as real, j - k), k);
    assert Significand(Halved(v, k), n, j - k);
  }

  lemma {:induction false} HalvedSign(x: real, n: nat)
    requires x >= 0.0
    ensures 0.0 <= Halved(x, n) <= x
  {
    if n > 0 { HalvedSign(x, n - 1); }
  }

  lemma {:induction false} DoubledInjective(a: real, b: real, n: nat)
    requires Doubled(a, n) == Doubled(b, n)
    ensures a == b
  {
    if n > 0 { DoubledInjective(a, b, n - 1); }
  }

  function Fraction(x: real): real {
    if x < 0.0 then -(-x - (-x).Floor as real) else x - x.Floor as real
  }

  lemma SubTrunc(x: real)
    ensures Sub(Fin(x), Trunc(Fin(x))) == Round(Fraction(x))
    ensures Fraction(x) == 0.0 <==> x == x.Floor as real
  {
    var z := (-x).Floor;
    if x < 0.0 && -x == z as real {
      assert x == (-z) as real;
    }
    if x < 0.0 && x == x.Floor as real {
      assert -x == (-x.Floor) as real;
    }
  }

  /** Subtracting the truncated value tells whether a double is an integer. */
  lemma FractionIsZero(x: real)
    requires Representable(x)
    ensures Sub(Fin(x), Trunc(Fin(x))) == Fin(0.0) <==> x == x.Floor as real
  {
    SubTrunc(x);
    if Fraction(x) == 0.0 {
      RoundZero();
    } else {
      var n: int, j: nat :| j <= DOUBLINGS && Significand(x, n, j);
      assert Significand(RAbs(x), n, j);
      FractionUnits(RAbs(x), n, j);
      RoundNonzero(Fraction(x));
    }
  }
}
