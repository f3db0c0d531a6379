/** What a Value can hold, its comparison functions and its numeric conversions
    (src/sl3/value.cpp, src/sl3/utils.hpp). */
module Values {
  import opened Doubles
  import opened Results

  type Byte = b: int | 0 <= b < 256
  type Bytes = seq<Byte>

  datatype Type = Null | Int | Real | Text | Blob | Variant

  /** The value behind the enumerator. */
  function TypeRank(t: Type): nat {
    match t
    case Null => 0
    case Int => 1
    case Real => 2
    case Text => 3
    case Blob => 4
    case Variant => 5
  }

  datatype Val = NullVal | IntVal(i: Int64) | RealVal(d: Double) | TextVal(text: Bytes) | BlobVal(blob: Bytes)

  function TypeOf(v: Val): Type {
    match v
    case NullVal => Null
    case IntVal(_) => Int
    case RealVal(_) => Real
    case TextVal(_) => Text
    case BlobVal(_) => Blob
  }

  /** operator< of std::string and of a vector of bytes: lexicographic on unsigned bytes. */
  predicate LexLt(a: Bytes, b: Bytes) {
    if b == [] then false
    else if a == [] then true
    else if a[0] != b[0] then a[0] < b[0]
    else LexLt(a[1..], b[1..])
  }

  /** Ignores the type: an Int and a Real are compared as doubles. */
  predicate ValueLt(a: Val, b: Val) {
    if b.NullVal? then false
    else if a.NullVal? then true
    else if a.IntVal? then
      if b.IntVal? then a.i < b.i
      else if b.RealVal? then Lt(ToDouble(a.i), b.d)
      else true
    else if a.RealVal? then
      if b.IntVal? then Lt(a.d, ToDouble(b.i))
      else if b.RealVal? then Lt(a.d, b.d)
      else true
    else if a.TextVal? then
      if b.TextVal? then LexLt(a.text, b.text) else b.BlobVal?
    else b.BlobVal? && LexLt(a.blob, b.blob)
  }

  /** Respects the type: an Int is below a Real of the same value. */
  predicate ValueTypeLt(a: Val, b: Val) {
    if b.NullVal? then false
    else if a.NullVal? then true
    else if a.IntVal? then
      if b.IntVal? then a.i < b.i
      else if b.RealVal? then Le(ToDouble(a.i), b.d)
      else true
    else if a.RealVal? then
      if b.IntVal? then Lt(a.d, ToDouble(b.i))
      else if b.RealVal? then Lt(a.d, b.d)
      else true
    else if a.TextVal? then
      if b.TextVal? then LexLt(a.text, b.text) else b.BlobVal?
    else b.BlobVal? && LexLt(a.blob, b.blob)
  }

  predicate ValueEq(a: Val, b: Val) {
    match a
    case NullVal => b.NullVal?
    case IntVal(i) =>
      if b.IntVal? then i == b.i else b.RealVal? && Eq(ToDouble(i), b.d)
    case RealVal(d) =>
      if b.IntVal? then Eq(d, ToDouble(b.i)) else b.RealVal? && Eq(d, b.d)
    case TextVal(s) => b.TextVal? && s == b.text
    case BlobVal(s) => b.BlobVal? && s == b.blob
  }

  /** numeric_limits<double>::epsilon() and min(). */
  const EPSILON: real := 1.0 / HALF_SIGNIFICAND as real
  const MIN_NORMAL: real := Halved(1.0, FINEST - 52)

  /** Equal up to ulp units in the last place, in double arithmetic. */
  predicate AlmostEqual(x: Double, y: Double, ulp: nat)
    requires ulp > 0
  {
    var distance := Abs(Sub(x, y));
    || Lt(distance, Times(Times(Abs(Add(x, y)), EPSILON), ulp as real))
    || Lt(distance, Fin(MIN_NORMAL))
  }

  predicate ValueTypeEq(a: Val, b: Val) {
    if TypeOf(a) != TypeOf(b) then false
    else
      match a
      case NullVal => true
      case IntVal(i) => i == b.i
      case RealVal(d) => AlmostEqual(d, b.d, 2)
      case TextVal(s) => s == b.text
      case BlobVal(s) => s == b.blob
  }

  // ----- numeric conversions

  /** A conversion gives a value, throws, or has no defined result in C++. */
  datatype Conversion<+T> = Converted(value: T) | Failed(error: Error) | Undefined

  /** losslessConvert1 to an integer type with the limits lo and hi. */
  function LosslessConvert(d: Double, lo: Int64, hi: Int64): Conversion<Int64>
    requires lo <= 0 <= hi
  {
    var c := Trunc(d);
    if !Eq(Sub(d, c), Fin(0.0)) then Failed(TypeMisMatch)
    else if Lt(c, ToDouble(lo)) || Lt(ToDouble(hi), c) then Failed(OutOfRange)
    else if c.Fin? && lo <= c.v.Floor <= hi then Converted(c.v.Floor)
    else Undefined
  }

  /** operator int */
  function AsInt32(v: Val): Conversion<Int64> {
    if v.NullVal? then Failed(NullValueAccess)
    else if v.RealVal? then LosslessConvert(v.d, INT32_MIN, INT32_MAX)
    else if !v.IntVal? then Failed(TypeMisMatch)
    else if v.i < INT32_MIN || v.i > INT32_MAX then Failed(OutOfRange)
    else Converted(v.i)
  }

  /** operator int64_t */
  function AsInt64(v: Val): Conversion<Int64> {
    if v.NullVal? then Failed(NullValueAccess)
    else if v.RealVal? then LosslessConvert(v.d, INT64_MIN, INT64_MAX)
    else if !v.IntVal? then Failed(TypeMisMatch)
    else Converted(v.i)
  }

  /** operator double */
  function AsDouble(v: Val): Conversion<Double> {
    if v.NullVal? then Failed(NullValueAccess)
    else if v.IntVal? then Converted(ToDouble(v.i))
    else if !v.RealVal? then Failed(TypeMisMatch)
    else Converted(v.d)
  }

  predicate Integral(d: Double) {
    d.Fin? && d.v == d.v.Floor as real
  }

  ghost predicate IsDouble(d: Double) {
    d.Fin? ==> Representable(d.v)
  }

  lemma WholeFloor(z: int)
    ensures (z as real).Floor == z && (-z) as real == -(z as real)
  {
  }

  lemma TruncOfIntegral(d: Double)
    requires Integral(d)
    ensures Trunc(d) == d
  {
    WholeFloor(d.v.Floor);
    WholeFloor(-d.v.Floor);
  }

  lemma FractionTest(d: Double)
    requires IsDouble(d)
    ensures Eq(Sub(d, Trunc(d)), Fin(0.0)) <==> Integral(d)
  {
    if d.Fin? { FractionIsZero(d.v); }
  }

  /** To int: exactly the integers of the type are accepted, and give an equal int. */
  lemma AsInt32Exactly(d: Double)
    requires IsDouble(d)
    ensures var c := AsInt32(RealVal(d));
            && (forall i: Int64 :: c == Converted(i) <==> d == Fin(i as real) && INT32_MIN <= i <= INT32_MAX)
            && (c == Failed(TypeMisMatch) <==> !Integral(d))
            && (c == Failed(OutOfRange) <==> Integral(d) && !(INT32_MIN as real <= d.v <= INT32_MAX as real))
            && !c.Undefined?
  {
    FractionTest(d);
    ToDoubleExact(INT32_MIN);
    ToDoubleExact(INT32_MAX);
    if Integral(d) { TruncOfIntegral(d); }
  }

  /** To int64_t: the upper guard is rounded to 2^63, so 2^63 passes it although no int64 is equal. */
  lemma AsInt64Exactly(d: Double)
    requires IsDouble(d)
    ensures var c := AsInt64(RealVal(d));
            && (forall i: Int64 :: c == Converted(i) <==> d == Fin(i as real))
            && (c == Failed(TypeMisMatch) <==> !Integral(d))
            && (c == Failed(OutOfRange) <==> Integral(d) && !(-TWO_63 <= d.v <= TWO_63))
            && (c.Undefined? <==> d == Fin(TWO_63))
  {
    FractionTest(d);
    ToDoubleMax();
    if Integral(d) { TruncOfIntegral(d); }
  }

  /** Which values are read as which int64, and when each error is thrown. */
  lemma AsInt64Means(v: Val)
    requires v.RealVal? ==> IsDouble(v.d)
    ensures forall i: Int64 :: AsInt64(v) == Converted(i) <==> v in {IntVal(i), RealVal(Fin(i as real))}
    ensures AsInt64(v) == Failed(NullValueAccess) <==> v.NullVal?
    ensures AsInt64(v) == Failed(TypeMisMatch) <==> v.TextVal? || v.BlobVal? || (v.RealVal? && !Integral(v.d))
    ensures AsInt64(v) == Failed(OutOfRange) <==> v.RealVal? && Integral(v.d) && !(-TWO_63 <= v.d.v <= TWO_63)
    ensures AsInt64(v).Undefined? <==> v == RealVal(Fin(TWO_63))
  {
    if v.RealVal? { AsInt64Exactly(v.d); }
  }

  /** Likewise for int: an Int has to be in range, too, and nothing is undefined. */
  lemma AsInt32Means(v: Val)
    requires v.RealVal? ==> IsDouble(v.d)
    ensures forall i: Int64 :: AsInt32(v) == Converted(i) <==>
                               INT32_MIN <= i <= INT32_MAX && v in {IntVal(i), RealVal(Fin(i as real))}
    ensures AsInt32(v) == Failed(NullValueAccess) <==> v.NullVal?
    ensures AsInt32(v) == Failed(TypeMisMatch) <==> v.TextVal? || v.BlobVal? || (v.RealVal? && !Integral(v.d))
    ensures AsInt32(v) == Failed(OutOfRange) <==>
            || (v.IntVal? && !(INT32_MIN <= v.i <= INT32_MAX))
            || (v.RealVal? && Integral(v.d) && !(INT32_MIN as real <= v.d.v <= INT32_MAX as real))
    ensures !AsInt32(v).Undefined?
  {
    if v.RealVal? { AsInt32Exactly(v.d); }
  }

  /** And for double: a Real is itself, an Int the nearest double. */
  lemma AsDoubleMeans(v: Val)
    ensures v.RealVal? ==> AsDouble(v) == Converted(v.d)
    ensures v.IntVal? ==>
              && AsDouble(v).Converted? && AsDouble(v).value.Fin? && Representable(AsDouble(v).value.v)
              && forall d: real :: Representable(d) ==> RAbs(AsDouble(v).value.v - v.i as real) <= RAbs(d - v.i as real)
    ensures AsDouble(v) == Failed(NullValueAccess) <==> v.NullVal?
    ensures AsDouble(v) == Failed(TypeMisMatch) <==> v.TextVal? || v.BlobVal?
  {
    if v.IntVal? {
      ToDoubleMonotone(v.i, v.i);
      RoundRepresentable(v.i as real);
      forall d: real | Representable(d) ensures RAbs(AsDouble(v).value.v - v.i as real) <= RAbs(d - v.i as real) {
        RoundNearest(v.i as real, d);
      }
    }
  }

  /** An Int read as double and converted back is itself exactly when the conversion was exact. */
  lemma DoubleAndBack(i: Int64)
    ensures var d := AsDouble(IntVal(i)).value;
            AsInt64(RealVal(d)) == Converted(i) <==> d == Fin(i as real)
    ensures -SIGNIFICAND <= i <= SIGNIFICAND ==> AsInt64(RealVal(AsDouble(IntVal(i)).value)) == Converted(i)
    ensures AsInt64(RealVal(AsDouble(IntVal(INT64_MAX)).value)).Undefined?
  {
    ToDoubleMonotone(i, i);
    RoundRepresentable(i as real);
    AsInt64Exactly(ToDouble(i));
    ToDoubleMax();
    RoundRepresentable(INT64_MAX as real);
    AsInt64Exactly(ToDouble(INT64_MAX));
    if -SIGNIFICAND <= i <= SIGNIFICAND { ToDoubleExact(i); }
  }
}
