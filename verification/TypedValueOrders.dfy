/** dbval_type_lt breaks ties of the values by type, with a tolerant equality on top of an
    exact order. */
module TypedValueOrders {
  import opened Tolerances
  import opened TypedValues
  import opened Doubles
  import opened Orders
  import opened ValueOrders
  import opened Values

  predicate DbValLt(a: DbVal, b: DbVal) {
    ValueLt(a.val, b.val)
  }

  predicate DbValTypeEq(a: DbVal, b: DbVal) {
    a.dbtype == b.dbtype && ValueTypeEq(a.val, b.val)
  }

  predicate DbValTypeLt(a: DbVal, b: DbVal) {
    if ValueTypeLt(a.val, b.val) then true
    else if ValueTypeEq(a.val, b.val) then TypeRank(a.dbtype) < TypeRank(b.dbtype)
    else false
  }

  // ----- the tolerant equality

  lemma TypeEqCases(a: Val, b: Val)
    ensures ValueTypeEq(a, b) && a != b ==> a.RealVal? && b.RealVal?
    ensures ValueTypeEq(a, a) <==> (a.RealVal? ==> a.d.Fin?)
  {
    if a.RealVal? { AlmostEqualReflexive(a.d, 2); }
  }

  /** The tolerance is for finite Reals only; everything else is equal when it is the same. */
  lemma TypeEqExactly(a: DbVal, b: DbVal)
    ensures DbValTypeEq(a, b) <==>
            && a.dbtype == b.dbtype
            && if a.val.RealVal? && b.val.RealVal? then AlmostEqual(a.val.d, b.val.d, 2) else a.val == b.val
  {
  }

  /** dbval_type_eq and dbval_type_lt both hold exactly for different Reals that are almost equal. */
  lemma EqualAndLess(a: DbVal, b: DbVal)
    requires Ordered(a.val) && Ordered(b.val)
    ensures DbValTypeEq(a, b) && (DbValTypeLt(a, b) || DbValTypeLt(b, a)) <==>
            a.dbtype == b.dbtype && a.val.RealVal? && b.val.RealVal? && a.val != b.val && AlmostEqual(a.val.d, b.val.d, 2)
  {
    TypeEqCases(a.val, b.val);
    TypeLtTotal(a.val, b.val);
  }

  // ----- the order

  ghost const ORDERED_DBVALS: iset<DbVal> := iset d: DbVal | Ordered(d.val)

  ghost predicate TolerantPair(a: DbVal, b: DbVal) {
    && a.val.RealVal? && b.val.RealVal? && Lt(a.val.d, b.val.d) && AlmostEqual(a.val.d, b.val.d, 2)
    && TypeRank(b.dbtype) < TypeRank(a.dbtype)
  }

  /** A Variant Real just below a typed Real that is almost equal to it. */
  ghost predicate TolerantInversion(s: iset<DbVal>) {
    exists a, b :: a in s && b in s && TolerantPair(a, b)
  }

  /** The order without tolerance: by value, then by type. */
  ghost predicate ExactLt(a: DbVal, b: DbVal) {
    || ValueTypeLt(a.val, b.val)
    || (a.val == b.val && (a.val.RealVal? ==> a.val.d.Fin?) && TypeRank(a.dbtype) < TypeRank(b.dbtype))
  }

  lemma ExactUnlessTolerant(a: DbVal, b: DbVal)
    requires Ordered(a.val) && Ordered(b.val) && !TolerantPair(b, a)
    ensures DbValTypeLt(a, b) <==> ExactLt(a, b)
  {
    TypeEqCases(a.val, b.val);
    TypeLtTotal(a.val, b.val);
    if a.val.RealVal? && b.val.RealVal? { AlmostEqualSymmetric(a.val.d, b.val.d, 2); }
  }

  lemma ExactLtOrder(a: DbVal, b: DbVal, c: DbVal)
    requires Ordered(a.val) && Ordered(b.val) && Ordered(c.val)
    ensures !ExactLt(a, a)
    ensures ExactLt(a, b) && ExactLt(b, c) ==> ExactLt(a, c)
    ensures !ExactLt(a, b) && !ExactLt(b, a) && !ExactLt(b, c) && !ExactLt(c, b) ==> !ExactLt(a, c) && !ExactLt(c, a)
  {
    TypeLtTotal(a.val, b.val);
    TypeLtTotal(b.val, c.val);
    TypeLtTotal(a.val, c.val);
    if ValueTypeLt(a.val, b.val) && ValueTypeLt(b.val, c.val) { TypeLtTransitive(a.val, b.val, c.val); }
  }

  /** The exact domain of dbval_type_lt: a strict weak order on a set without NaN exactly when
      the tolerant tie test never contradicts the exact order there. */
  lemma DbValTypeLtStrictWeakIff(s: iset<DbVal>)
    requires s <= ORDERED_DBVALS
    ensures StrictWeakOrder(DbValTypeLt, s) <==> !TolerantInversion(s)
  {
    if TolerantInversion(s) {
      var a, b :| a in s && b in s && TolerantPair(a, b);
      AlmostEqualSymmetric(a.val.d, b.val.d, 2);
      assert DbValTypeLt(a, b) && DbValTypeLt(b, a) && !DbValTypeLt(a, a);
    } else {
      forall a, b | a in s && b in s
        ensures DbValTypeLt(a, b) <==> ExactLt(a, b)
      {
        ExactUnlessTolerant(a, b);
      }
      forall a, b, c | a in s && b in s && c in s
        ensures !ExactLt(a, a)
        ensures ExactLt(a, b) && ExactLt(b, c) ==> ExactLt(a, c)
        ensures !ExactLt(a, b) && !ExactLt(b, a) && !ExactLt(b, c) && !ExactLt(c, b) ==> !ExactLt(a, c) && !ExactLt(c, a)
      {
        ExactLtOrder(a, b, c);
      }
    }
  }

  /** So it is on values of one type, and on values whose different Reals are apart. */
  lemma DbValTypeLtStrictWeak(s: iset<DbVal>)
    requires s <= ORDERED_DBVALS
    requires || (forall a, b :: a in s && b in s ==> a.dbtype == b.dbtype)
             || (forall a, b :: a in s && b in s && a.val.RealVal? && b.val.RealVal? && a.val != b.val
                                ==> !AlmostEqual(a.val.d, b.val.d, 2))
    ensures StrictWeakOrder(DbValTypeLt, s)
  {
    DbValTypeLtStrictWeakIff(s);
  }

  /** It is not one on all rule-abiding values: 0 as a Variant and 2^-1074 as a Real are less
      than each other. */
  lemma DbValTypeLtNotAsymmetric()
    ensures var a := DbVal(Variant, RealVal(Fin(0.0)));
            var b := DbVal(Real, RealVal(Fin(Halved(1.0, FINEST))));
            FollowsRule(a) && FollowsRule(b) && IsDouble(b.val.d) && DbValTypeLt(a, b) && DbValTypeLt(b, a)
  {
    var tiny := Halved(1.0, FINEST);
    HalvedPositive(FINEST);
    DoubledHalved(1.0, FINEST);
    assert Significand(tiny, 1, 0);
    RoundExact(tiny);
    HalvedDecreases(FINEST - 52, 52);
  }

  lemma {:induction false} HalvedDecreases(n: nat, m: nat)
    requires m > 0
    ensures 0.0 < Halved(1.0, n + m) < Halved(1.0, n)
  {
    HalvedPositive(n);
    if m > 1 { HalvedDecreases(n, m - 1); }
  }
}
