/** Which of the value comparisons are orders, on which values, and how they relate. */
module ValueOrders {
  import opened Doubles
  import opened Orders
  import opened Values

  predicate Ordered(v: Val) {
    v.RealVal? ==> !v.d.NaN?
  }

  ghost const ALL_ORDERED: iset<Val> := iset v: Val | Ordered(v)

  // ----- bytes

  lemma {:induction false} LexTotal(a: Bytes, b: Bytes)
    ensures !LexLt(a, a)
    ensures LexLt(a, b) ==> !LexLt(b, a)
    ensures LexLt(a, b) || LexLt(b, a) || a == b
  {
    if a != [] {
      LexTotal(a[1..], if b == [] then b else b[1..]);
      if b != [] {
        assert a[0] == b[0] && a[1..] == b[1..] ==> a == b by {
          assert a == [a[0]] + a[1..] && b == [b[0]] + b[1..];
        }
      }
    }
  }

  lemma {:induction false} LexTransitive(a: Bytes, b: Bytes, c: Bytes)
    requires LexLt(a, b) && LexLt(b, c)
    ensures LexLt(a, c)
  {
    if a != [] && a[0] == b[0] == c[0] {
      LexTransitive(a[1..], b[1..], c[1..]);
    }
  }

  /** a and b agree before position k, and there a ends first or has the smaller byte. */
  ghost predicate DifferAt(a: Bytes, b: Bytes, k: nat) {
    k <= |a| && k < |b| && a[..k] == b[..k] && (k < |a| ==> a[k] < b[k])
  }

  /** The first difference decides. */
  lemma {:induction false} LexLtIsFirstDifference(a: Bytes, b: Bytes)
    ensures LexLt(a, b) <==> exists k: nat :: DifferAt(a, b, k)
  {
    if b == [] {
    } else if a == [] {
      assert DifferAt(a, b, 0);
    } else if a[0] != b[0] {
      if a[0] < b[0] { assert DifferAt(a, b, 0); }
      forall k: nat | DifferAt(a, b, k) ensures k == 0 {}
    } else {
      LexLtIsFirstDifference(a[1..], b[1..]);
      if LexLt(a[1..], b[1..]) {
        var k: nat :| DifferAt(a[1..], b[1..], k);
        assert a[..k + 1] == [a[0]] + a[1..][..k] && b[..k + 1] == [b[0]] + b[1..][..k];
        assert DifferAt(a, b, k + 1);
      }
      forall k: nat | DifferAt(a, b, k) ensures k > 0 && DifferAt(a[1..], b[1..], k - 1) {
        assert a[1..][..k - 1] == a[..k][1..] && b[1..][..k - 1] == b[..k][1..];
      }
    }
  }

  // ----- value_type_lt: a total order on everything but NaN

  lemma TypeLtTotal(a: Val, b: Val)
    requires Ordered(a) && Ordered(b)
    ensures !ValueTypeLt(a, a)
    ensures ValueTypeLt(a, b) ==> !ValueTypeLt(b, a)
    ensures ValueTypeLt(a, b) || ValueTypeLt(b, a) || a == b
  {
    if a.TextVal? && b.TextVal? { LexTotal(a.text, b.text); }
    if a.TextVal? { LexTotal(a.text, a.text); }
    if a.BlobVal? && b.BlobVal? { LexTotal(a.blob, b.blob); }
    if a.BlobVal? { LexTotal(a.blob, a.blob); }
    if a.IntVal? { ToDoubleMonotone(a.i, a.i); }
    if b.IntVal? { ToDoubleMonotone(b.i, b.i); }
  }

  lemma ToDoubleOrder(i: Int64, j: Int64)
    ensures ToDouble(i).Fin? && ToDouble(j).Fin?
    ensures i <= j ==> ToDouble(i).v <= ToDouble(j).v
    ensures j <= i ==> ToDouble(j).v <= ToDouble(i).v
  {
    if i <= j { ToDoubleMonotone(i, j); } else { ToDoubleMonotone(j, i); }
  }

  predicate Numeric(v: Val) {
    v.IntVal? || v.RealVal?
  }

  /** NaN does not harm transitivity. */
  lemma TypeLtTransitive(a: Val, b: Val, c: Val)
    requires ValueTypeLt(a, b) && ValueTypeLt(b, c)
    ensures ValueTypeLt(a, c)
  {
    if a.TextVal? && b.TextVal? && c.TextVal? { LexTransitive(a.text, b.text, c.text); }
    if a.BlobVal? && b.BlobVal? && c.BlobVal? { LexTransitive(a.blob, b.blob, c.blob); }
    if Numeric(a) && Numeric(b) && Numeric(c) { NumericTypeLtTransitive(a, b, c); }
  }

  lemma NumericTypeLtTransitive(a: Val, b: Val, c: Val)
    requires Numeric(a) && Numeric(b) && Numeric(c) && ValueTypeLt(a, b) && ValueTypeLt(b, c)
    ensures ValueTypeLt(a, c)
  {
    if a.IntVal? && b.IntVal? { ToDoubleOrder(a.i, b.i); }
    if b.IntVal? && c.IntVal? { ToDoubleOrder(b.i, c.i); }
    if a.IntVal? && c.IntVal? { ToDoubleOrder(a.i, c.i); }
  }

  /** value_type_lt is a strict weak order on all values but NaN, and only equal values tie. */
  lemma TypeLtStrictWeak()
    ensures StrictWeakOrder(ValueTypeLt, ALL_ORDERED)
    ensures forall a, b :: a in ALL_ORDERED && b in ALL_ORDERED ==> (Tie(ValueTypeLt, a, b) <==> a == b)
  {
    forall a: Val, b: Val | a in ALL_ORDERED && b in ALL_ORDERED
      ensures !ValueTypeLt(a, a)
      ensures Tie(ValueTypeLt, a, b) <==> a == b
    {
      TypeLtTotal(a, b);
    }
    forall a: Val, b: Val, c: Val | ValueTypeLt(a, b) && ValueTypeLt(b, c)
      ensures ValueTypeLt(a, c)
    {
      TypeLtTransitive(a, b, c);
    }
  }

  lemma TypeLtPartial(s: iset<Val>)
    ensures StrictPartialOrder(ValueTypeLt, s)
  {
    forall a: Val ensures !ValueTypeLt(a, a) {
      if Ordered(a) { TypeLtTotal(a, a); }
    }
    forall a: Val, b: Val, c: Val | ValueTypeLt(a, b) && ValueTypeLt(b, c)
      ensures ValueTypeLt(a, c)
    {
      TypeLtTransitive(a, b, c);
    }
  }

  ghost predicate NaNAmongNumbers(s: iset<Val>) {
    RealVal(NaN) in s && exists a, b :: a in s && b in s && Numeric(a) && Numeric(b) && ValueTypeLt(a, b)
  }

  /** The exact domain: a NaN ties with every number, so it may meet at most one of them. */
  lemma TypeLtStrictWeakIff(s: iset<Val>)
    ensures StrictWeakOrder(ValueTypeLt, s) <==> !NaNAmongNumbers(s)
  {
    TypeLtPartial(s);
    if NaNAmongNumbers(s) {
      var a, b :| a in s && b in s && Numeric(a) && Numeric(b) && ValueTypeLt(a, b);
      assert Tie(ValueTypeLt, a, RealVal(NaN)) && Tie(ValueTypeLt, RealVal(NaN), b) && !Tie(ValueTypeLt, a, b);
    } else {
      forall a, b, c | a in s && b in s && c in s && Tie(ValueTypeLt, a, b) && Tie(ValueTypeLt, b, c)
        ensures Tie(ValueTypeLt, a, c)
      {
        TieMeansEqualOrNaN(a, b);
        TieMeansEqualOrNaN(b, c);
        TieMeansEqualOrNaN(c, c);
      }
    }
  }

  lemma TieMeansEqualOrNaN(a: Val, b: Val)
    requires Tie(ValueTypeLt, a, b)
    ensures a == b || (Numeric(a) && Numeric(b) && RealVal(NaN) in {a, b})
  {
    if Ordered(a) && Ordered(b) { TypeLtTotal(a, b); }
  }

  /** Null, then numbers, then text, then blobs. To SQLite a NaN is a NULL. */
  function ClassOf(v: Val): nat {
    match v
    case NullVal => 0
    case IntVal(_) => 1
    case RealVal(d) => if d.NaN? then 0 else 1
    case TextVal(_) => 2
    case BlobVal(_) => 3
  }

  // ----- the documented rules are those of SQLite, which compares an Int and a Real exactly

  /** An int64 against a double, without rounding. */
  predicate IntBelowReal(i: Int64, d: Double) {
    d.PosInf? || (d.Fin? && i as real < d.v)
  }

  predicate RealBelowInt(d: Double, i: Int64) {
    d.NegInf? || (d.Fin? && d.v < i as real)
  }

  /** sqlite3IntFloatCompare: first against the truncated double, then after conversion. */
  function SqliteIntFloatCompare(i: Int64, d: Double): int
    requires !d.NaN?
  {
    if Lt(d, Fin(-TWO_63)) then 1
    else if Le(Fin(TWO_63), d) then -1
    else
      var y := Trunc(d).v.Floor;
      if i < y then -1
      else if i > y then 1
      else if Lt(ToDouble(i), d) then -1
      else if Lt(d, ToDouble(i)) then 1
      else 0
  }

  /** Although it converts, SQLite's comparison is the exact one. */
  lemma SqliteComparesExactly(i: Int64, d: Double)
    requires !d.NaN? && IsDouble(d)
    ensures SqliteIntFloatCompare(i, d) == if IntBelowReal(i, d) then -1 else if RealBelowInt(d, i) then 1 else 0
  {
    if d.Fin? && -TWO_63 <= d.v < TWO_63 {
      TruncBounds(d.v);
      if i == Trunc(d).v.Floor { SameAfterTrunc(i, d.v); }
    }
  }

  lemma TruncBounds(r: real)
    ensures var t := Trunc(Fin(r)).v;
            && t == t.Floor as real
            && if r < 0.0 then t - 1.0 < r <= t <= 0.0 else 0.0 <= t <= r < t + 1.0
  {
    WholeFloor(r.Floor);
    WholeFloor((-r).Floor);
  }

  lemma SameAfterTrunc(i: Int64, r: real)
    requires Representable(r) && Trunc(Fin(r)).v == i as real
    ensures ToDouble(i) == Fin(i as real)
  {
    TruncBounds(r);
    if -SIGNIFICAND <= i <= SIGNIFICAND {
      ToDoubleExact(i);
    } else {
      RepresentableNeg(r);
      LargeIsWhole(RAbs(r));
      RoundExact(r);
    }
  }

  lemma RepresentableNeg(r: real)
    requires Representable(r)
    ensures Representable(RAbs(r))
  {
    var n: int, j: nat :| j <= DOUBLINGS && Significand(r, n, j);
    assert Significand(RAbs(r), n, j);
  }

  /** SQLite's order of two numbers; of an Int and a Real of the same value neither is less. */
  predicate NumberLess(a: Val, b: Val)
    requires ClassOf(a) == 1 == ClassOf(b)
  {
    if a.IntVal? && b.IntVal? then a.i < b.i
    else if a.IntVal? then IntBelowReal(a.i, b.d)
    else if b.IntVal? then RealBelowInt(a.d, b.i)
    else Lt(a.d, b.d)
  }

  /** SQLite's sorting rules: the class decides, then the value. */
  ghost predicate SqliteLess(a: Val, b: Val) {
    || ClassOf(a) < ClassOf(b)
    || (ClassOf(a) == 1 == ClassOf(b) && NumberLess(a, b))
    || (a.TextVal? && b.TextVal? && exists k: nat :: DifferAt(a.text, b.text, k))
    || (a.BlobVal? && b.BlobVal? && exists k: nat :: DifferAt(a.blob, b.blob, k))
  }

  /** What is documented for value_type_lt: these rules, and an Int before a Real of its value. */
  ghost predicate DocumentedLess(a: Val, b: Val) {
    || SqliteLess(a, b)
    || (a.IntVal? && b.RealVal? && b.d == Fin(a.i as real))
  }

  /** An Int that is rounded to the Real, which lies strictly below it. */
  predicate RoundedDownTo(a: Val, b: Val) {
    a.IntVal? && b.RealVal? && b.d.Fin? && ToDouble(a.i) == b.d && b.d.v < a.i as real
  }

  predicate RoundedUpTo(a: Val, b: Val) {
    a.IntVal? && b.RealVal? && b.d.Fin? && ToDouble(a.i) == b.d && a.i as real < b.d.v
  }

  /** A NaN, which neither function takes for the NULL that it is to SQLite: it should be less
      than a number, and no Null less than it. */
  predicate NaNMistaken(a: Val, b: Val) {
    (a == RealVal(NaN) && ClassOf(b) == 1) || (a.NullVal? && b == RealVal(NaN))
  }

  ghost predicate Proper(v: Val) {
    v.RealVal? ==> IsDouble(v.d)
  }

  /** An Int against a Real after conversion: rounding hides a difference, and does nothing else. */
  lemma ConvertedAgainstExact(i: Int64, d: Double)
    requires !d.NaN? && IsDouble(d)
    ensures Lt(ToDouble(i), d) <==> IntBelowReal(i, d) && ToDouble(i) != d
    ensures Lt(d, ToDouble(i)) <==> RealBelowInt(d, i) && ToDouble(i) != d
    ensures ToDouble(i).Fin?
  {
    ToDoubleMonotone(i, i);
    if d.Fin? {
      RoundExact(d.v);
      if i as real <= d.v { RoundMonotone(i as real, d.v); } else { RoundMonotone(d.v, i as real); }
    }
  }

  /** value_type_lt follows its documented rules exactly for the pairs without an Int that is
      rounded down to the Real beside it, and without a mistaken NaN. */
  lemma TypeLtFollowsTheRules(a: Val, b: Val)
    requires Proper(a) && Proper(b)
    ensures (ValueTypeLt(a, b) <==> DocumentedLess(a, b)) <==>
            !(RoundedDownTo(a, b) || RoundedDownTo(b, a) || NaNMistaken(a, b))
  {
    if a.TextVal? && b.TextVal? { LexLtIsFirstDifference(a.text, b.text); }
    if a.BlobVal? && b.BlobVal? { LexLtIsFirstDifference(a.blob, b.blob); }
    if a.IntVal? && b.RealVal? && !b.d.NaN? { ConvertedAgainstExact(a.i, b.d); }
    if a.RealVal? && b.IntVal? && !a.d.NaN? { ConvertedAgainstExact(b.i, a.d); }
  }

  /** value_lt, by which a Dataset is sorted, follows SQLite's rules exactly for the pairs without
      an Int whose rounding hides that it is less or that the Real is, and without a mistaken NaN. */
  lemma LtFollowsTheRules(a: Val, b: Val)
    requires Proper(a) && Proper(b)
    ensures (ValueLt(a, b) <==> SqliteLess(a, b)) <==>
            !(RoundedUpTo(a, b) || RoundedDownTo(b, a) || NaNMistaken(a, b))
  {
    if a.TextVal? && b.TextVal? { LexLtIsFirstDifference(a.text, b.text); }
    if a.BlobVal? && b.BlobVal? { LexLtIsFirstDifference(a.blob, b.blob); }
    if a.IntVal? && b.RealVal? && !b.d.NaN? { ConvertedAgainstExact(a.i, b.d); }
    if a.RealVal? && b.IntVal? && !a.d.NaN? { ConvertedAgainstExact(b.i, a.d); }
  }

  /** So both follow the rules while the Ints lie within 2^53. */
  lemma RulesAreKeptWithin(a: Val, b: Val)
    requires Proper(a) && Proper(b) && Ordered(a) && Ordered(b)
    requires a.IntVal? ==> -SIGNIFICAND <= a.i <= SIGNIFICAND
    requires b.IntVal? ==> -SIGNIFICAND <= b.i <= SIGNIFICAND
    ensures ValueTypeLt(a, b) <==> DocumentedLess(a, b)
    ensures ValueLt(a, b) <==> SqliteLess(a, b)
  {
    TypeLtFollowsTheRules(a, b);
    LtFollowsTheRules(a, b);
    if a.IntVal? { ToDoubleExact(a.i); }
    if b.IntVal? { ToDoubleExact(b.i); }
  }

  /** Just above they do not: value_type_lt puts 2^53 + 1 before the Real 2^53. */
  lemma RulesAreBroken()
    ensures var a, b := IntVal(SIGNIFICAND + 1), RealVal(Fin(SIGNIFICAND as real));
            && Proper(a) && Proper(b) && Ordered(b) && SqliteLess(b, a) && !SqliteLess(a, b)
            && ValueTypeLt(a, b) && !ValueTypeLt(b, a) && Tie(ValueLt, a, b)
  {
    ToDoubleTie();
    IntegerSignificand(SIGNIFICAND);
  }

  // ----- value_lt: an order only while rounding keeps the Ints apart

  lemma LtWithinTypeLt(a: Val, b: Val)
    ensures ValueLt(a, b) ==> ValueTypeLt(a, b)
    ensures ValueTypeLt(a, b) && !ValueLt(a, b) <==> a.IntVal? && b.RealVal? && Eq(ToDouble(a.i), b.d)
  {
  }

  /** What value_type_lt has sorted has no inversion under value_lt either. */
  lemma SortedByTypeLt(xs: seq<Val>)
    requires forall i, j :: 0 <= i < j < |xs| ==> !ValueTypeLt(xs[j], xs[i])
    ensures forall i, j :: 0 <= i < j < |xs| ==> !ValueLt(xs[j], xs[i])
  {
  }

  lemma LtTransitive(a: Val, b: Val, c: Val)
    requires ValueLt(a, b) && ValueLt(b, c)
    ensures ValueLt(a, c)
  {
    if a.TextVal? && b.TextVal? && c.TextVal? { LexTransitive(a.text, b.text, c.text); }
    if a.BlobVal? && b.BlobVal? && c.BlobVal? { LexTransitive(a.blob, b.blob, c.blob); }
    if Numeric(a) && Numeric(b) && Numeric(c) { NumericLtTransitive(a, b, c); }
  }

  lemma NumericLtTransitive(a: Val, b: Val, c: Val)
    requires Numeric(a) && Numeric(b) && Numeric(c) && ValueLt(a, b) && ValueLt(b, c)
    ensures ValueLt(a, c)
  {
    if a.IntVal? && b.IntVal? { ToDoubleOrder(a.i, b.i); }
    if b.IntVal? && c.IntVal? { ToDoubleOrder(b.i, c.i); }
    if a.IntVal? && c.IntVal? { ToDoubleOrder(a.i, c.i); }
  }

  /** value_lt is a strict partial order on every set of values. */
  lemma LtPartial(s: iset<Val>)
    ensures StrictPartialOrder(ValueLt, s)
  {
    TypeLtPartial(s);
    forall a: Val | a in s ensures !ValueLt(a, a) {
      LtWithinTypeLt(a, a);
    }
    forall a: Val, b: Val, c: Val | ValueLt(a, b) && ValueLt(b, c)
      ensures ValueLt(a, c)
    {
      LtTransitive(a, b, c);
    }
  }

  /** value_eq is what value_lt leaves undecided; a NaN equals nothing, itself included. */
  lemma EqIsTie(a: Val, b: Val)
    ensures Ordered(a) && Ordered(b) ==> (ValueEq(a, b) <==> Tie(ValueLt, a, b))
    ensures !(Ordered(a) && Ordered(b)) ==> !ValueEq(a, b)
  {
    if a.TextVal? && b.TextVal? { LexTotal(a.text, b.text); LexTotal(b.text, a.text); }
    if a.BlobVal? && b.BlobVal? { LexTotal(a.blob, b.blob); LexTotal(b.blob, a.blob); }
    if a.IntVal? { ToDoubleOrder(a.i, a.i); }
    if b.IntVal? { ToDoubleOrder(b.i, b.i); }
  }

  /** Two different Ints that are rounded to one Real that is present as well. */
  ghost predicate RoundingClash(s: iset<Val>) {
    exists i: Int64, j: Int64, r: Double :: i < j && IntVal(i) in s && IntVal(j) in s && RealVal(r) in s
                                            && ToDouble(i) == r == ToDouble(j)
  }

  /** The exact domain on which value_lt, the default comparator of Dataset::sort, may sort. */
  lemma LtStrictWeakIff(s: iset<Val>)
    requires s <= ALL_ORDERED
    ensures StrictWeakOrder(ValueLt, s) <==> !RoundingClash(s)
  {
    LtPartial(s);
    if RoundingClash(s) {
      var i: Int64, j: Int64, r: Double :| i < j && IntVal(i) in s && IntVal(j) in s && RealVal(r) in s
                                           && ToDouble(i) == r == ToDouble(j);
      ToDoubleOrder(i, j);
      assert Tie(ValueLt, IntVal(i), RealVal(r)) && Tie(ValueLt, RealVal(r), IntVal(j));
      assert !Tie(ValueLt, IntVal(i), IntVal(j));
    } else {
      forall a, b, c | a in s && b in s && c in s && Tie(ValueLt, a, b) && Tie(ValueLt, b, c)
        ensures Tie(ValueLt, a, c)
      {
        EqIsTie(a, b);
        EqIsTie(b, c);
        EqIsTie(a, c);
      }
    }
  }

  ghost predicate IntsWithin(s: iset<Val>, bound: int) {
    forall v :: v in s && v.IntVal? ==> -bound <= v.i <= bound
  }

  ghost predicate MixesIntAndReal(s: iset<Val>) {
    exists a, b :: a in s && b in s && a.IntVal? && b.RealVal?
  }

  /** No clash within 2^53, and none without both kinds of numbers. */
  lemma LtStrictWeak(s: iset<Val>)
    requires s <= ALL_ORDERED
    requires IntsWithin(s, SIGNIFICAND) || !MixesIntAndReal(s)
    ensures StrictWeakOrder(ValueLt, s)
  {
    LtStrictWeakIff(s);
    forall i: Int64, j: Int64, r: Double | i < j && IntVal(i) in s && IntVal(j) in s && RealVal(r) in s
      ensures !(ToDouble(i) == r == ToDouble(j))
    {
      assert MixesIntAndReal(s);
      ToDoubleExact(i);
      ToDoubleExact(j);
    }
  }

  /** 2^53, 2^53 + 1 and the Real 2^53: the Ints differ and both tie with the Real. */
  ghost const BEYOND_BORDER: iset<Val> :=
    iset{IntVal(SIGNIFICAND), IntVal(SIGNIFICAND + 1), RealVal(Fin(SIGNIFICAND as real))}

  /** 2^53 is the border: value_lt is a strict weak order on every set whose Ints lie within
      the bound exactly when the bound is at most 2^53. */
  lemma BorderIsSharp(bound: int)
    ensures (forall s: iset<Val> | s <= ALL_ORDERED && IntsWithin(s, bound) :: StrictWeakOrder(ValueLt, s))
            <==> bound <= SIGNIFICAND
  {
    if bound <= SIGNIFICAND {
      forall s: iset<Val> | s <= ALL_ORDERED && IntsWithin(s, bound) ensures StrictWeakOrder(ValueLt, s) {
        LtStrictWeak(s);
      }
    } else {
      var s := BEYOND_BORDER;
      assert s <= ALL_ORDERED && IntsWithin(s, bound);
      ToDoubleTie();
      ToDoubleExact(SIGNIFICAND);
      assert RoundingClash(s);
      LtStrictWeakIff(s);
    }
  }
}
