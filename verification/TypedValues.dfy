/** A value with a type rule (src/sl3/dbvalue.cpp). */
module TypedValues {
  import opened Doubles
  import opened Results
  import opened Values

  datatype DbVal = DbVal(dbtype: Type, val: Val)

  /** The promise of the class: a typed DbValue holds its type or Null. */
  predicate FollowsRule(d: DbVal) {
    d.dbtype != Null && Fits(d.dbtype, d.val)
  }

  predicate Fits(dbtype: Type, v: Val) {
    dbtype == Variant || v.NullVal? || TypeOf(v) == dbtype
  }

  /** DbValue(Type): Null, and Type::Null stands for a variant. */
  function MakeNull(t: Type): DbVal {
    DbVal(if t == Null then Variant else t, NullVal)
  }

  /** DbValue(val, Type) */
  function Make(v: Val, t: Type): Result<DbVal>
    requires !v.NullVal?
  {
    if t == TypeOf(v) || t == Variant then Ok(DbVal(t, v)) else Err(TypeMisMatch)
  }

  /** The set overloads and the assignment of a Value. */
  function Store(d: DbVal, v: Val): Result<DbVal> {
    if d.dbtype == TypeOf(v) || d.dbtype == Variant then Ok(d.(val := v)) else Err(TypeMisMatch)
  }

  /** set(int): a Real takes the int as a double. */
  function StoreInt32(d: DbVal, i: Int32): Result<DbVal> {
    if d.dbtype == Real then Store(d, RealVal(ToDouble(i))) else Store(d, IntVal(i))
  }

  predicate CanAssign(d: DbVal, other: DbVal) {
    if d.dbtype != Variant then
      if other.dbtype == Variant then TypeOf(other.val) == d.dbtype || TypeOf(other.val) == Null
      else d.dbtype == other.dbtype
    else true
  }

  function Assign(d: DbVal, other: DbVal): Result<DbVal> {
    if CanAssign(d, other) then Ok(d.(val := other.val)) else Err(TypeMisMatch)
  }

  /** canAssign is the condition under which the rule survives, but for a Null with a
      different type of its own, which fits and is refused all the same. */
  lemma CanAssignExactly(d: DbVal, other: DbVal)
    requires FollowsRule(d) && FollowsRule(other)
    ensures CanAssign(d, other) ==> FollowsRule(d.(val := other.val))
    ensures !CanAssign(d, other) <==> !Fits(d.dbtype, other.val)
                                      || (other.val.NullVal? && Variant !in {d.dbtype, other.dbtype} && d.dbtype != other.dbtype)
  {
  }

  /** Assignment takes the value and keeps the type, or throws. */
  lemma AssignExactly(d: DbVal, other: DbVal)
    requires FollowsRule(d) && FollowsRule(other)
    ensures Assign(d, other) ==
            if Fits(d.dbtype, other.val) && !(other.val.NullVal? && Variant !in {d.dbtype, other.dbtype} && d.dbtype != other.dbtype)
            then Ok(DbVal(d.dbtype, other.val))
            else Err(TypeMisMatch)
  {
    CanAssignExactly(d, other);
  }

  /** What may be constructed or stored: a value that fits, and no Null into a type. */
  lemma StoreExactly(d: DbVal, v: Val, t: Type)
    requires FollowsRule(d)
    ensures Store(d, v).Ok? <==> Fits(d.dbtype, v) && (v.NullVal? ==> d.dbtype == Variant)
    ensures Store(d, v) == if Store(d, v).Ok? then Ok(DbVal(d.dbtype, v)) else Err(TypeMisMatch)
    ensures Store(d, v).Ok? ==> FollowsRule(Store(d, v).value)
    ensures !v.NullVal? ==> (Make(v, t).Ok? <==> t != Null && Fits(t, v))
    ensures !v.NullVal? && Make(v, t).Ok? ==> Make(v, t).value == DbVal(t, v) && FollowsRule(Make(v, t).value)
    ensures MakeNull(t) == DbVal(if t == Null then Variant else t, NullVal) && FollowsRule(MakeNull(t))
  {
  }

  /** An int is stored without loss in an Int, a Real or a variant, and nowhere else. */
  lemma StoreInt32Exactly(d: DbVal, i: Int32)
    requires FollowsRule(d)
    ensures StoreInt32(d, i).Ok? <==> d.dbtype in {Int, Real, Variant}
    ensures StoreInt32(d, i).Err? ==> StoreInt32(d, i) == Err(TypeMisMatch)
    ensures StoreInt32(d, i).Ok? ==>
              && StoreInt32(d, i).value == d.(val := if d.dbtype == Real then RealVal(Fin(i as real)) else IntVal(i))
              && AsInt32(StoreInt32(d, i).value.val) == Converted(i)
  {
    ToDoubleExact(i);
    RoundRepresentable(i as real);
    AsInt32Exactly(Fin(i as real));
  }

  class DbValue {
    const dbtype: Type
    var value: Val

    function State(): DbVal
      reads this
    {
      DbVal(dbtype, value)
    }

    predicate Valid()
      reads this
    {
      FollowsRule(State())
    }

    constructor (t: Type)
      ensures State() == MakeNull(t) && Valid() && Step([], ConstructNull(t)) == [State()]
    {
      dbtype := if t == Null then Variant else t;
      value := NullVal;
    }

    /** The state a constructor without error left: Make decides whether there is one. */
    constructor From(d: DbVal)
      requires FollowsRule(d)
      ensures State() == d && Valid()
    {
      dbtype := d.dbtype;
      value := d.val;
    }

    constructor Copy(other: DbValue)
      requires other.Valid()
      ensures State() == other.State() && Valid() && Step([other.State()], ConstructCopy(0)) == [other.State(), State()]
    {
      dbtype := other.dbtype;
      value := other.value;
    }

    constructor Move(other: DbValue)
      requires other.Valid()
      modifies other
      ensures State() == old(other.State()) && Valid()
      ensures other.value == NullVal && other.Valid()
      ensures Step([old(other.State())], ConstructMove(0)) == [other.State(), State()]
    {
      dbtype := other.dbtype;
      value := other.value;
      new;
      other.value := NullVal;
    }

    method Set(v: Val) returns (r: Outcome)
      requires Valid()
      modifies this
      ensures Valid()
      ensures Step([old(State())], CallSet(0, v)) == [State()]
      ensures match Store(old(State()), v)
              case Ok(d) => r == Done && State() == d
              case Err(e) => r == Thrown(e) && State() == old(State())
    {
      if !(dbtype == TypeOf(v) || dbtype == Variant) {
        return Thrown(TypeMisMatch);
      }
      value := v;
      return Done;
    }

    method SetInt32(i: Int32) returns (r: Outcome)
      requires Valid()
      modifies this
      ensures Valid()
      ensures Step([old(State())], CallSetInt32(0, i)) == [State()]
      ensures match StoreInt32(old(State()), i)
              case Ok(d) => r == Done && State() == d
              case Err(e) => r == Thrown(e) && State() == old(State())
    {
      if dbtype == Real {
        r := Set(RealVal(ToDouble(i)));
      } else {
        r := Set(IntVal(i));
      }
    }

    method CopyAssign(other: DbValue) returns (r: Outcome)
      requires Valid() && other.Valid()
      modifies this
      ensures Valid()
      ensures this != other ==> Step([old(State()), old(other.State())], CallCopyAssign(0, 1)) == [State(), other.State()]
      ensures match Assign(old(State()), old(other.State()))
              case Ok(d) => r == Done && State() == d
              case Err(e) => r == Thrown(e) && State() == old(State())
    {
      if !CanAssign(State(), other.State()) {
        return Thrown(TypeMisMatch);
      }
      value := other.value;
      return Done;
    }

    method MoveAssign(other: DbValue) returns (r: Outcome)
      requires Valid() && other.Valid()
      modifies this, other
      ensures Valid() && other.Valid()
      ensures this != other ==> Step([old(State()), old(other.State())], CallMoveAssign(0, 1)) == [State(), other.State()]
      ensures match Assign(old(State()), old(other.State()))
              case Ok(d) => r == Done && other.value == NullVal && (this != other ==> State() == d)
              case Err(e) => r == Thrown(e) && State() == old(State()) && other.State() == old(other.State())
    {
      if !CanAssign(State(), other.State()) {
        return Thrown(TypeMisMatch);
      }
      value := other.value;
      other.value := NullVal;
      return Done;
    }

    /** ejectText and ejectBlob */
    method Eject(wanted: Type) returns (r: Result<Bytes>)
      requires Valid() && wanted in {Text, Blob}
      modifies this
      ensures Valid()
      ensures Step([old(State())], CallEject(0, wanted)) == [State()]
      ensures TypeOf(old(value)) == wanted ==>
                r == Ok(if wanted == Text then old(value).text else old(value).blob) && value == NullVal
      ensures TypeOf(old(value)) != wanted ==>
                r == Err(if old(value).NullVal? then NullValueAccess else TypeMisMatch) && value == old(value)
    {
      if value.NullVal? {
        return Err(NullValueAccess);
      } else if TypeOf(value) != wanted {
        return Err(TypeMisMatch);
      }
      r := Ok(if wanted == Text then value.text else value.blob);
      value := NullVal;
    }

    method SetNull()
      requires Valid()
      modifies this
      ensures Valid() && value == NullVal && Step([old(State())], CallSetNull(0)) == [State()]
    {
      value := NullVal;
    }
  }

  // ----- every run

  /** One call on the DbValues alive, which are numbered in the order of construction. */
  datatype Call =
    | ConstructNull(t: Type)
    | Construct(v: Val, t: Type)
    | ConstructCopy(i: nat)
    | ConstructMove(i: nat)
    | CallSet(i: nat, v: Val)
    | CallSetInt32(i: nat, n: Int32)
    | CallCopyAssign(i: nat, j: nat)
    | CallMoveAssign(i: nat, j: nat)
    | CallEject(i: nat, wanted: Type)
    | CallSetNull(i: nat)

  function Keep(s: seq<DbVal>, i: nat, r: Result<DbVal>): seq<DbVal>
    requires i < |s|
  {
    if r.Ok? then s[i := r.value] else s
  }

  /** The DbValues after the call; a call on an object that does not exist changes nothing. */
  function Step(s: seq<DbVal>, c: Call): seq<DbVal> {
    match c
    case ConstructNull(t) => s + [MakeNull(t)]
    case Construct(v, t) => if !v.NullVal? && Make(v, t).Ok? then s + [Make(v, t).value] else s
    case ConstructCopy(i) => if i < |s| then s + [s[i]] else s
    case ConstructMove(i) => if i < |s| then s[i := s[i].(val := NullVal)] + [s[i]] else s
    case CallSet(i, v) => if i < |s| then Keep(s, i, Store(s[i], v)) else s
    case CallSetInt32(i, n) => if i < |s| then Keep(s, i, StoreInt32(s[i], n)) else s
    case CallCopyAssign(i, j) => if i < |s| && j < |s| then Keep(s, i, Assign(s[i], s[j])) else s
    case CallMoveAssign(i, j) =>
      if i < |s| && j < |s| && CanAssign(s[i], s[j]) then s[i := s[i].(val := s[j].val)][j := s[j].(val := NullVal)] else s
    case CallEject(i, wanted) => if i < |s| && TypeOf(s[i].val) == wanted then s[i := s[i].(val := NullVal)] else s
    case CallSetNull(i) => if i < |s| then s[i := s[i].(val := NullVal)] else s
  }

  function Run(s: seq<DbVal>, calls: seq<Call>): seq<DbVal>
    decreases |calls|
  {
    if calls == [] then s else Run(Step(s, calls[0]), calls[1..])
  }

  ghost predicate AllFollowRule(s: seq<DbVal>) {
    forall i :: 0 <= i < |s| ==> FollowsRule(s[i])
  }

  /** Over every run the type rule holds, and no DbValue ever changes its type. */
  lemma {:induction false} RunKeepsRule(s: seq<DbVal>, calls: seq<Call>)
    requires AllFollowRule(s)
    ensures AllFollowRule(Run(s, calls))
    ensures |s| <= |Run(s, calls)|
    ensures forall i :: 0 <= i < |s| ==> Run(s, calls)[i].dbtype == s[i].dbtype
    decreases |calls|
  {
    if calls != [] {
      StepKeepsRule(s, calls[0]);
      RunKeepsRule(Step(s, calls[0]), calls[1..]);
    }
  }

  lemma StepKeepsRule(s: seq<DbVal>, c: Call)
    requires AllFollowRule(s)
    ensures AllFollowRule(Step(s, c))
    ensures |s| <= |Step(s, c)|
    ensures forall i :: 0 <= i < |s| ==> Step(s, c)[i].dbtype == s[i].dbtype
  {
  }
}
