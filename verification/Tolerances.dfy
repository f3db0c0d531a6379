/** How tolerant the equality of Reals is: which doubles are almost equal (src/sl3/value.cpp). */
module Tolerances {
  import opened Doubles
  import opened ValueOrders
  import opened Values

  lemma AlmostEqualSymmetric(x: Double, y: Double, ulp: nat)
    requires ulp > 0
    ensures AlmostEqual(x, y, ulp) <==> AlmostEqual(y, x, ulp)
  {
  }

  /** A double is almost equal to itself exactly when it is finite: infinity minus infinity is NaN. */
  lemma AlmostEqualReflexive(x: Double, ulp: nat)
    requires ulp > 0
    ensures AlmostEqual(x, x, ulp) <==> x.Fin?
  {
    RoundZero();
    HalvedPositive(FINEST - 52);
  }

  /** Two doubles whose sum overflows are almost equal, however far they are apart: the tolerance
      is infinite then, and the distance is not. */
  lemma SumOverflows(x: real, y: real, ulp: nat)
    requires ulp > 0 && Representable(x) && Representable(y) && !Round(x + y).Fin?
    ensures AlmostEqual(Fin(x), Fin(y), ulp)
  {
    RoundExact(x);
    RoundExact(y);
    RoundOdd(x);
    RoundOdd(y);
    if x < 0.0 <= y || y < 0.0 <= x {
      RoundMonotone(if x < y then x else y, x + y);
      RoundMonotone(x + y, if x < y then y else x);
    } else if x < 0.0 {
      RoundMonotone(x, x - y);
      RoundMonotone(x - y, -y);
    } else {
      RoundMonotone(-y, x - y);
      RoundMonotone(x - y, x);
    }
    assert Round(x - y).Fin?;
    RoundOverflow(x + y);
  }

  // ----- how far almost equal doubles may be apart

  /** Rounding does not get past a double. */
  lemma RoundAtMost(x: real, c: real)
    requires 0.0 <= x && Representable(c)
    ensures x <= c ==> Round(x).Fin? && 0.0 <= Round(x).v <= c
    ensures c <= x ==> Le(Fin(c), Round(x))
  {
    RoundExact(c);
    RoundPositiveSign(x);
    if x <= c { RoundMonotone(x, c); } else { RoundMonotone(c, x); }
  }

  lemma EpsilonIsHalved(x: real)
    ensures Product(x, EPSILON) == Halved(x, 52)
  {
    HalvedTimes(x, 52);
    HalvedSum(1.0, 26, 26);
    HalvedSum(1.0, 13, 13);
    HalvedTimes(Halved(1.0, 26), 26);
    HalvedTimes(Halved(1.0, 13), 13);
    assert Halved(1.0, 13) == 1.0 / 8192.0;
  }

  lemma TimesAtMost(a: real, factor: real, c: real)
    requires factor > 0.0 && 0.0 <= Product(a, factor) <= c && Representable(c)
    ensures var t := Times(Fin(a), factor); t.Fin? && 0.0 <= t.v <= c
  {
    RoundAtMost(Product(a, factor), c);
  }

  /** The tolerance for a sum, when c is a double of at least its 2^-52 part and doubles again. */
  lemma ToleranceAtMost(sum: real, c: real)
    requires 0.0 <= sum && Halved(sum, 52) <= c && Representable(c) && Representable(2.0 * c)
    ensures var t := Times(Times(Fin(sum), EPSILON), 2.0); t.Fin? && t.v <= 2.0 * c
  {
    EpsilonIsHalved(sum);
    HalvedSign(sum, 52);
    TimesAtMost(sum, EPSILON, c);
    TimesAtMost(Times(Fin(sum), EPSILON).v, 2.0, 2.0 * c);
  }

  lemma SumAtMost(x: real, y: real, most: real)
    requires Representable(most) && RAbs(x) <= most && RAbs(y) <= most && Round(x + y).Fin?
    ensures RAbs(Round(x + y).v) <= 3.0 * most
  {
    RoundOdd(x + y);
    RoundNearest(RAbs(x + y), most);
  }

  /** Below this, 2^-1020, the spacing of doubles is no longer relative. */
  const TINY: real := Halved(1.0, FINEST - 54)

  /** Doubles that are almost equal are apart by less than the 2^-49 part of the larger one, or by
      less than 2^-1020; unless their sum overflows. */
  lemma AlmostEqualIsNear(x: real, y: real)
    requires Representable(x) && Representable(y) && Round(x + y).Fin? && AlmostEqual(Fin(x), Fin(y), 2)
    ensures var most := if RAbs(x) < RAbs(y) then RAbs(y) else RAbs(x);
            RAbs(x - y) < Halved(most, 49) || RAbs(x - y) < TINY
  {
    var most := if RAbs(x) < RAbs(y) then RAbs(y) else RAbs(x);
    RepresentableNeg(x);
    RepresentableNeg(y);
    SumAtMost(x, y, most);
    RoundOdd(x - y);
    var sum := RAbs(Round(x + y).v);
    TinyIsDouble();
    if RAbs(x - y) >= TINY {
      RoundAtMost(RAbs(x - y), TINY);
      HalvedMonotone(sum, 4.0 * most, 52);
      QuarterHalved(most);
      if Doubled(most, FINEST) >= Doubled(SIGNIFICAND as real, 50) {
        LargeTolerance(x, y, most, sum);
      } else {
        SmallTolerance(most);
        ToleranceAtMost(sum, TINY / 2.0);
      }
    }
  }

  lemma QuarterHalved(x: real)
    ensures Halved(4.0 * x, 52) == Halved(x, 50)
  {
    HalvedTwice(x, 51);
    HalvedTwice(2.0 * x, 52);
    HalvedTwice(x, 52);
  }

  lemma TinyIsDouble()
    ensures TINY > MIN_NORMAL > 0.0 && Representable(TINY) && Representable(TINY / 2.0)
  {
    HalvedPositive(FINEST - 52);
    assert Halved(1.0, FINEST - 52) == Halved(1.0, FINEST - 53) / 2.0;
    assert Halved(1.0, FINEST - 53) == Halved(1.0, FINEST - 54) / 2.0;
    PowerIsDouble(54);
    PowerIsDouble(53);
  }

  lemma PowerIsDouble(k: nat)
    requires k <= FINEST
    ensures Representable(Halved(1.0, FINEST - k))
  {
    HalvedSign(1.0, FINEST - k);
    DoubledOfHalved(1.0, FINEST, FINEST - k);
    assert Significand(Halved(1.0, FINEST - k), 1, k);
  }

  lemma SmallTolerance(most: real)
    requires most >= 0.0 && Doubled(most, FINEST) < Doubled(SIGNIFICAND as real, 50)
    ensures Halved(most, 50) <= TINY / 2.0
  {
    HalvedDoubled(most, FINEST);
    HalvedMonotone(Doubled(most, FINEST), Doubled(SIGNIFICAND as real, 50), FINEST);
    HalvedMonotone(most, Halved(Doubled(SIGNIFICAND as real, 50), FINEST), 50);
    HalvedSum(Doubled(SIGNIFICAND as real, 50), FINEST, 50);
    HalvedSum(Doubled(SIGNIFICAND as real, 50), 50, FINEST);
    HalvedDoubled(SIGNIFICAND as real, 50);
    HalvedSum(SIGNIFICAND as real, 53, FINEST - 53);
    HalvedSignificand();
  }

  lemma HalvedSignificand()
    ensures Halved(SIGNIFICAND as real, 53) == 1.0
  {
    EpsilonIsHalved(SIGNIFICAND as real);
  }

  lemma LargeTolerance(x: real, y: real, most: real, sum: real)
    requires most >= 0.0 && Representable(most) && Doubled(most, FINEST) >= Doubled(SIGNIFICAND as real, 50)
    requires 0.0 <= sum && Halved(sum, 52) <= Halved(most, 50)
    requires Lt(Abs(Sub(Fin(x), Fin(y))), Times(Times(Fin(sum), EPSILON), 2.0))
    ensures RAbs(x - y) < Halved(most, 49)
  {
    HalvedRepresentable(most, 50);
    DoubledSign(SIGNIFICAND as real, 49);
    HalvedRepresentable(most, 49);
    ToleranceAtMost(sum, Halved(most, 50));
    RoundOdd(x - y);
    RoundAtMost(RAbs(x - y), Halved(most, 49));
  }

  /** So 1 and 2 are not almost equal. */
  lemma OneAndTwoDiffer()
    ensures !AlmostEqual(Fin(1.0), Fin(2.0), 2)
  {
    IntegerSignificand(1);
    IntegerSignificand(2);
    IntegerSignificand(3);
    RoundExact(3.0);
    if AlmostEqual(Fin(1.0), Fin(2.0), 2) {
      AlmostEqualIsNear(1.0, 2.0);
      HalvedSign(1.0, FINEST - 54);
      HalvedSign(1.0, 48);
      HalvedTwice(1.0, 48);
    }
  }

  // ----- and how near they are at least

  /** The spacing of the binade with exponent j. */
  function Spacing(j: nat): real {
    Halved(Doubled(1.0, j), FINEST)
  }

  lemma SpacingIsPositive(j: nat)
    ensures Spacing(j) > 0.0
  {
    DoubledSign(1.0, j);
    HalvedTimes(Doubled(1.0, j), FINEST);
    HalvedPositive(FINEST);
    assert Doubled(1.0, j) * Halved(1.0, FINEST) >= Halved(1.0, FINEST) by {
      MulAtLeast(Doubled(1.0, j), Halved(1.0, FINEST));
    }
  }

  lemma MulAtLeast(a: real, b: real)
    requires a >= 1.0 && b > 0.0
    ensures a * b >= b
  {
  }

  /** n units of that spacing. */
  lemma InSpacings(x: real, n: int, j: nat)
    requires Doubled(x, FINEST) == Doubled(n as real, j)
    ensures x == Product(n as real, Spacing(j))
  {
    HalvedDoubled(x, FINEST);
    DoubledTimes(n as real, j);
    HalvedTimes(Doubled(n as real, j), FINEST);
    HalvedTimes(Doubled(1.0, j), FINEST);
  }

  lemma SpacingsAreDouble(n: int, j: nat)
    requires 0 <= n < SIGNIFICAND && j <= DOUBLINGS
    ensures Product(n as real, Spacing(j)) >= 0.0 && Representable(Product(n as real, Spacing(j)))
  {
    var x := Halved(Doubled(n as real, j), FINEST);
    DoubledSign(n as real, j);
    HalvedSign(Doubled(n as real, j), FINEST);
    DoubledHalved(Doubled(n as real, j), FINEST);
    InSpacings(x, n, j);
    assert Significand(x, n, j);
  }

  lemma SumOfSpacings(x: real, y: real, n: int, k: int, j: nat)
    requires HALF_SIGNIFICAND <= n && 0 <= k
    requires x == Product(n as real, Spacing(j)) && y == Product((n + k) as real, Spacing(j))
    ensures RAbs(x - y) == Product(k as real, Spacing(j))
    ensures x + y >= Product(SIGNIFICAND as real, Spacing(j))
  {
    SpacingIsPositive(j);
    assert (n + k) as real == n as real + k as real;
    var q := Spacing(j);
    assert y == n as real * q + k as real * q;
    assert k as real * q >= 0.0;
    MulMonotone(HALF_SIGNIFICAND as real, n as real, q);
  }

  lemma MulMonotone(a: real, b: real, q: real)
    requires a <= b && q > 0.0
    ensures a * q <= b * q
  {
  }

  lemma TimesAtLeast(a: Double, factor: real, c: real, d: real)
    requires factor > 0.0 && Le(Fin(c), a) && !a.NaN? && 0.0 <= c && Representable(d) && d <= Product(c, factor) && 0.0 <= d
    ensures Le(Fin(d), Times(a, factor))
  {
    if a.Fin? {
      MulMonotone(c, a.v, factor);
      RoundAtMost(Product(a.v, factor), d);
    }
  }

  lemma TwiceTheSpacing(j: nat)
    ensures Spacing(j + 1) == 2.0 * Spacing(j)
  {
    HalvedTwice(Doubled(1.0, j), FINEST);
  }

  lemma EpsilonOfSpacings(q: real)
    ensures Product(Product(SIGNIFICAND as real, q), EPSILON) == Product(2.0, q)
  {
    assert Product(SIGNIFICAND as real, q) == SIGNIFICAND as real * q;
  }

  /** The tolerance of a sum of 2^53 spacings is at least 4. */
  lemma ToleranceAtLeast(sum: real, j: nat)
    requires j <= DOUBLINGS && sum >= Product(SIGNIFICAND as real, Spacing(j)) && sum >= 0.0
    ensures Le(Fin(Product(4.0, Spacing(j))), Times(Times(Fin(sum), EPSILON), 2.0))
  {
    var q := Spacing(j);
    SpacingIsPositive(j);
    SpacingsAreDouble(2, j);
    SpacingsAreDouble(4, j);
    EpsilonOfSpacings(q);
    TimesAtLeast(Fin(sum), EPSILON, Product(SIGNIFICAND as real, q), Product(2.0, q));
    TimesIsNumber(Fin(sum), EPSILON);
    TimesAtLeast(Times(Fin(sum), EPSILON), 2.0, Product(2.0, q), Product(4.0, q));
  }

  lemma TimesIsNumber(a: Double, factor: real)
    requires factor > 0.0 && !a.NaN?
    ensures !Times(a, factor).NaN?
  {
    if a.Fin? && Product(a.v, factor) >= 0.0 { RoundPositiveSign(Product(a.v, factor)); }
    if a.Fin? && Product(a.v, factor) < 0.0 { RoundPositiveSign(-Product(a.v, factor)); }
  }

  lemma SumAtLeast(x: real, j: nat)
    requires x >= Product(SIGNIFICAND as real, Spacing(j)) && x >= 0.0 && j <= DOUBLINGS && Round(x).Fin?
    ensures Round(x).v >= Product(SIGNIFICAND as real, Spacing(j)) >= 0.0
  {
    var c := Product(SIGNIFICAND as real, Spacing(j));
    if j < DOUBLINGS {
      TwiceTheSpacing(j);
      SpacingsAreDouble(HALF_SIGNIFICAND, j + 1);
      assert c == Product(HALF_SIGNIFICAND as real, Spacing(j + 1));
      RoundAtMost(x, c);
    } else {
      LargestOverflows(x);
    }
  }

  lemma LargestOverflows(x: real)
    requires x >= Product(SIGNIFICAND as real, Spacing(DOUBLINGS)) && x >= 0.0
    ensures !Round(x).Fin?
  {
    var y := Halved(Doubled(SIGNIFICAND as real, DOUBLINGS), FINEST);
    DoubledHalved(Doubled(SIGNIFICAND as real, DOUBLINGS), FINEST);
    InSpacings(y, SIGNIFICAND, DOUBLINGS);
    DoubledMonotone(y, x, FINEST);
    DoubledMonotone(SIGNIFICAND as real - 0.5, SIGNIFICAND as real, DOUBLINGS);
    RoundOverflow(x);
  }

  /** Doubles of one binade that are at most three spacings apart are almost equal, normal or not. */
  lemma NeighboursAreAlmostEqual(x: real, y: real, n: int, k: int, j: nat)
    requires HALF_SIGNIFICAND <= n <= n + k < SIGNIFICAND && k <= 3 && j <= DOUBLINGS
    requires Doubled(x, FINEST) == Doubled(n as real, j) && Doubled(y, FINEST) == Doubled((n + k) as real, j)
    ensures AlmostEqual(Fin(x), Fin(y), 2)
  {
    var q := Spacing(j);
    InSpacings(x, n, j);
    InSpacings(y, n + k, j);
    SpacingsAreDouble(n, j);
    SpacingsAreDouble(n + k, j);
    SpacingsAreDouble(k, j);
    SpacingIsPositive(j);
    SumOfSpacings(x, y, n, k, j);
    if Round(x + y).Fin? {
      SumAtLeast(x + y, j);
      ToleranceAtLeast(Round(x + y).v, j);
      RoundOdd(x - y);
      RoundExact(RAbs(x - y));
      assert Product(k as real, q) < Product(4.0, q);
    } else {
      SumOverflows(x, y, 2);
    }
  }
}
