/** Any number of Values, and any calls on them: what the hand-managed storage does is what
    plain values would do, and no string or blob is lost or destroyed twice. */
module ValuePool {
  import opened Doubles
  import opened Values
  import opened ValueStorage

  /** One call; objects are numbered, and self-assignment is i == j. */
  datatype Call =
    | Construct(v: Val)
    | ConstructCopy(i: nat)
    | ConstructMove(i: nat)
    | Destruct(i: nat)
    | CopyAssign(i: nat, j: nat)
    | MoveAssign(i: nat, j: nat)
    | Swap(i: nat, j: nat)
    | AssignInt(i: nat, n: Int64)
    | AssignReal(i: nat, d: Double)
    | AssignText(i: nat, s: Bytes)
    | AssignBlob(i: nat, s: Bytes)
    | EjectText(i: nat)
    | EjectBlob(i: nat)
    | SetNull(i: nat)

  predicate Binary(c: Call) {
    c.CopyAssign? || c.MoveAssign? || c.Swap?
  }

  predicate Lifetime(c: Call) {
    c.Construct? || c.ConstructCopy? || c.ConstructMove? || c.Destruct?
  }

  /** The call names objects among the n alive. */
  predicate Exists(n: nat, c: Call) {
    && (!c.Construct? ==> c.i < n)
    && (Binary(c) ==> c.j < n)
  }

  /** The same calls on plain values. */
  function Step(s: seq<Val>, c: Call): seq<Val>
    requires Exists(|s|, c)
  {
    match c
    case Construct(v) => s + [v]
    case ConstructCopy(i) => s + [s[i]]
    case ConstructMove(i) => s[i := NullVal] + [s[i]]
    case Destruct(i) => s[..i] + s[i + 1..]
    case CopyAssign(i, j) => s[i := s[j]]
    case MoveAssign(i, j) => s[i := s[j]][j := NullVal]
    case Swap(i, j) => s[i := s[j]][j := s[i]]
    case AssignInt(i, n) => s[i := IntVal(n)]
    case AssignReal(i, d) => s[i := RealVal(d)]
    case AssignText(i, t) => s[i := TextVal(t)]
    case AssignBlob(i, b) => s[i := BlobVal(b)]
    case EjectText(i) => if s[i].TextVal? then s[i := NullVal] else s
    case EjectBlob(i) => if s[i].BlobVal? then s[i := NullVal] else s
    case SetNull(i) => s[i := NullVal]
  }

  /** What the call makes of each object, one by one. */
  lemma StepExactly(s: seq<Val>, c: Call, k: nat)
    requires Exists(|s|, c) && k < |s| && !Lifetime(c)
    ensures |Step(s, c)| == |s|
    ensures Step(s, c)[k] ==
            if c.Swap? then (if k == c.j then s[c.i] else if k == c.i then s[c.j] else s[k])
            else if c.MoveAssign? && k == c.j then NullVal
            else if k != c.i then s[k]
            else if Binary(c) then s[c.j]
            else if c.AssignInt? then IntVal(c.n)
            else if c.AssignReal? then RealVal(c.d)
            else if c.AssignText? then TextVal(c.s)
            else if c.AssignBlob? then BlobVal(c.s)
            else if (c.EjectText? && !s[k].TextVal?) || (c.EjectBlob? && !s[k].BlobVal?) then s[k]
            else NullVal
  {
  }

  /** A call on an object that does not exist is left out. */
  function Run(s: seq<Val>, calls: seq<Call>): seq<Val>
    decreases |calls|
  {
    if calls == [] then s
    else Run(if Exists(|s|, calls[0]) then Step(s, calls[0]) else s, calls[1..])
  }

  function Payloads(s: seq<Val>): nat {
    if s == [] then 0 else Weight(s[0]) + Payloads(s[1..])
  }

  lemma {:induction false} PayloadsOfParts(s: seq<Val>, t: seq<Val>)
    ensures Payloads(s + t) == Payloads(s) + Payloads(t)
  {
    if s == [] {
      assert s + t == t;
    } else {
      PayloadsOfParts(s[1..], t);
      assert (s + t)[1..] == s[1..] + t;
    }
  }

  lemma PayloadsSplit(s: seq<Val>, i: nat)
    requires i < |s|
    ensures Payloads(s) == Payloads(s[..i]) + Weight(s[i]) + Payloads(s[i + 1..])
  {
    PayloadsOfParts(s[..i], s[i..]);
    assert s == s[..i] + s[i..];
  }

  lemma PayloadsUpdate(s: seq<Val>, i: nat, v: Val)
    requires i < |s|
    ensures Payloads(s[i := v]) == Payloads(s) - Weight(s[i]) + Weight(v)
  {
    PayloadsSplit(s, i);
    PayloadsSplit(s[i := v], i);
    assert s[i := v][..i] == s[..i] && s[i := v][i + 1..] == s[i + 1..];
  }

  lemma PayloadsAppend(s: seq<Val>, v: Val)
    ensures Payloads(s + [v]) == Payloads(s) + Weight(v)
  {
    PayloadsOfParts(s, [v]);
  }

  lemma PayloadsRemove(s: seq<Val>, i: nat)
    requires i < |s|
    ensures Payloads(s[..i] + s[i + 1..]) == Payloads(s) - Weight(s[i])
  {
    PayloadsSplit(s, i);
    PayloadsOfParts(s[..i], s[i + 1..]);
  }

  class Pool {
    var values: seq<Value>
    const ledger: Ledger

    ghost predicate Shape()
      reads this, values
    {
      && (forall i :: 0 <= i < |values| ==> values[i].Agrees() && values[i].ledger == ledger)
      && (forall i, j :: 0 <= i < j < |values| ==> values[i] != values[j])
    }

    ghost function Contents(): (s: seq<Val>)
      requires Shape()
      reads this, values
      ensures |s| == |values| && forall i :: 0 <= i < |s| ==> s[i] == values[i].Content()
    {
      seq(|values|, i requires 0 <= i < |values| && Shape() reads this, values => values[i].Content())
    }

    /** Every tag names the live member, and what was constructed and not destroyed is exactly
        the strings and blobs held. */
    ghost predicate Valid()
      reads this, values, ledger
    {
      Shape() && ledger.Balance() == Payloads(Contents())
    }

    constructor ()
      ensures Valid() && values == [] && fresh(ledger)
    {
      values := [];
      ledger := new Ledger();
    }

    /** Only object i was touched: the shape and the other contents are as before. */
    twostate lemma OneChanged(i: nat)
      requires old(Shape()) && values == old(values) && i < |values|
      requires values[i].Agrees()
      requires forall k :: 0 <= k < |values| && k != i ==> unchanged(values[k])
      ensures Shape() && Contents() == old(Contents())[i := values[i].Content()]
      ensures Payloads(Contents()) == Payloads(old(Contents())) - Weight(old(values[i].Content())) + Weight(values[i].Content())
    {
      PayloadsUpdate(old(Contents()), i, values[i].Content());
    }

    method Construct(v: Val)
      requires Valid()
      modifies this, ledger
      ensures Valid() && Contents() == old(Contents()) + [v]
      ensures Kept()
    {
      ghost var s := Contents();
      var n := new Value.From(v, ledger);
      values := values + [n];
      PayloadsAppend(s, v);
      assert Contents() == s + [v];
    }

    method ConstructCopy(i: nat)
      requires Valid() && i < |values|
      modifies this, ledger
      ensures Valid() && Contents() == old(Contents()) + [old(Contents())[i]]
      ensures Kept()
    {
      ghost var s := Contents();
      var n := new Value.Copy(values[i]);
      values := values + [n];
      PayloadsAppend(s, s[i]);
      assert Contents() == s + [s[i]];
    }

    method ConstructMove(i: nat)
      requires Valid() && i < |values|
      modifies this, values[i], ledger
      ensures Valid() && Contents() == old(Contents())[i := NullVal] + [old(Contents())[i]]
      ensures Kept()
    {
      ghost var s := Contents();
      var n := new Value.Move(values[i]);
      values := values + [n];
      PayloadsUpdate(s, i, NullVal);
      PayloadsAppend(s[i := NullVal], s[i]);
      assert Contents() == s[i := NullVal] + [s[i]];
    }

    /** Object i is left out, and the others were not touched. */
    twostate lemma OneRemoved(i: nat)
      requires old(Shape()) && i < |old(values)|
      requires |values| == |old(values)| - 1
      requires forall k :: 0 <= k < |values| ==> values[k] == old(values)[if k < i then k else k + 1]
      requires forall k :: 0 <= k < |values| ==> unchanged(values[k])
      ensures Shape() && Contents() == old(Contents())[..i] + old(Contents())[i + 1..]
    {
      forall k | 0 <= k < |values|
        ensures values[k].Agrees() && values[k].ledger == ledger
        ensures values[k].Content() == old(Contents())[if k < i then k else k + 1]
      {
        assert values[k] == old(values)[if k < i then k else k + 1];
      }
    }

    method Destruct(i: nat)
      requires Valid() && i < |values|
      modifies this, values[i], ledger
      ensures Valid() && Contents() == old(Contents())[..i] + old(Contents())[i + 1..]
      ensures Kept() && |values| == |old(values)| - 1
    {
      ghost var s := Contents();
      values[i].Destroy();
      values := values[..i] + values[i + 1..];
      OneRemoved(i);
      PayloadsRemove(s, i);
    }

    method CopyAssign(i: nat, j: nat)
      requires Valid() && i < |values| && j < |values|
      modifies values[i], ledger
      ensures Valid() && Contents() == old(Contents())[i := old(Contents())[j]]
    {
      values[i].CopyAssign(values[j]);
      OneChanged(i);
    }

    method MoveAssign(i: nat, j: nat)
      requires Valid() && i < |values| && j < |values|
      modifies values[i], values[j], ledger
      ensures Valid() && Contents() == old(Contents())[i := old(Contents())[j]][j := NullVal]
    {
      ghost var s := Contents();
      values[i].MoveAssign(values[j]);
      assert Contents() == s[i := s[j]][j := NullVal];
      PayloadsUpdate(s, i, s[j]);
      PayloadsUpdate(s[i := s[j]], j, NullVal);
    }

    method Swap(i: nat, j: nat)
      requires Valid() && i < |values| && j < |values|
      modifies values[i], values[j], ledger
      ensures Valid() && Contents() == old(Contents())[i := old(Contents())[j]][j := old(Contents())[i]]
    {
      ghost var s := Contents();
      values[i].Swap(values[j]);
      assert Contents() == s[i := s[j]][j := s[i]];
      PayloadsUpdate(s, i, s[j]);
      PayloadsUpdate(s[i := s[j]], j, s[i]);
    }

    /** The calls that touch one object only. */
    method Single(c: Call)
      requires Valid() && Exists(|values|, c) && !Lifetime(c) && !Binary(c)
      modifies values[c.i], ledger
      ensures Valid() && Contents() == Step(old(Contents()), c)
    {
      var i := c.i;
      match c {
        case AssignInt(_, n) => values[i].AssignInt(n);
        case AssignReal(_, d) => values[i].AssignReal(d);
        case AssignText(_, t) => values[i].AssignText(t);
        case AssignBlob(_, b) => values[i].AssignBlob(b);
        case EjectText(_) => var _ := values[i].EjectText();
        case EjectBlob(_) => var _ := values[i].EjectBlob();
        case SetNull(_) => values[i].SetNull();
      }
      OneChanged(i);
    }

    /** Every object was there before or is new. */
    twostate predicate Kept()
      reads this
    {
      forall i :: 0 <= i < |values| ==> values[i] in old(values) || fresh(values[i])
    }

    method Call(c: Call)
      requires Valid() && Exists(|values|, c)
      modifies this, values, ledger
      ensures Valid() && Contents() == Step(old(Contents()), c)
      ensures Kept()
    {
      match c {
        case Construct(v) => Construct(v);
        case ConstructCopy(i) => ConstructCopy(i);
        case ConstructMove(i) => ConstructMove(i);
        case Destruct(i) => Destruct(i);
        case CopyAssign(i, j) => CopyAssign(i, j);
        case MoveAssign(i, j) => MoveAssign(i, j);
        case Swap(i, j) => Swap(i, j);
        case _ => Single(c);
      }
    }

    /** Any run: the invariant holds at the end, and the contents are those of plain values. */
    method Perform(calls: seq<Call>)
      requires Valid()
      modifies this, values, ledger
      ensures Valid() && Contents() == Run(old(Contents()), calls)
    {
      var k := 0;
      while k < |calls|
        invariant k <= |calls|
        invariant Valid()
        invariant Kept()
        invariant Run(Contents(), calls[k..]) == Run(old(Contents()), calls)
      {
        assert calls[k..][0] == calls[k] && calls[k..][1..] == calls[k + 1..];
        if Exists(|values|, calls[k]) {
          Call(calls[k]);
        }
        k := k + 1;
      }
    }

    /** Destroying every object leaves no string or blob behind. */
    method DestroyAll()
      requires Valid()
      modifies this, values, ledger
      ensures values == [] && ledger.constructed == ledger.destroyed
    {
      while values != []
        invariant Valid()
        invariant Kept()
        decreases |values|
      {
        Destruct(0);
      }
    }
  }
}
