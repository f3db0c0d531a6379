/** A prepared statement with its parameters: construction, binding and the execute loop
    (src/sl3/command.cpp, and selectValue of src/sl3/database.cpp). */
module Commands {
  import opened ColumnReads
  import opened Doubles
  import opened Results
  import opened Rows
  import opened TypedValues
  import opened Values

  // ----- binding

  /** static_cast<int> of a size. */
  function SizeAsInt(n: nat): int {
    (n + 0x8000_0000) % 0x1_0000_0000 - 0x8000_0000
  }

  lemma SizeAsIntBelow(n: nat)
    ensures SizeAsInt(n) <= n
    ensures SizeAsInt(n) == n <==> n <= INT32_MAX
  {
  }

  /** SQLITE_LIMIT_LENGTH of a connection, which is at most what an int can say. */
  type LengthLimit = n: nat | n <= INT32_MAX

  /** What strlen counts: the bytes before the first zero. */
  function UpToZero(s: Bytes): (r: Bytes)
    ensures |r| <= |s| && r == s[..|r|] && 0 !in r && (|r| < |s| ==> s[|r|] == 0)
  {
    if s == [] || s[0] == 0 then [] else [s[0]] + UpToZero(s[1..])
  }

  /** Binding a value gives a cell, is refused with SQLITE_TOOBIG, or has no defined result. */
  datatype Binding = Bound(cell: Val) | TooBig | Undefined

  /** SQLite keeps a NaN as NULL, and as many bytes as the int says: those of a text up to its
      first zero when the int is negative. Undefined is an empty blob, whose first element is
      addressed, and a blob whose size becomes a negative int. */
  function BindValue(v: Val, limit: LengthLimit): Binding {
    match v
    case RealVal(d) => Bound(if d.NaN? then NullVal else v)
    case TextVal(s) =>
      SizeAsIntBelow(|s|);
      var kept := if SizeAsInt(|s|) < 0 then UpToZero(s) else s[..SizeAsInt(|s|)];
      if |kept| > limit then TooBig else Bound(TextVal(kept))
    case BlobVal(s) =>
      SizeAsIntBelow(|s|);
      if s == [] || SizeAsInt(|s|) < 0 then Binding.Undefined
      else if SizeAsInt(|s|) > limit then TooBig
      else Bound(BlobVal(s[..SizeAsInt(|s|)]))
    case _ => Bound(v)
  }

  /** Not a NaN, and within the limit. */
  predicate Storable(v: Val, limit: LengthLimit) {
    match v
    case RealVal(d) => !d.NaN?
    case TextVal(s) => |s| <= limit
    case BlobVal(s) => |s| <= limit
    case _ => true
  }

  lemma BindValueExactly(v: Val, limit: LengthLimit)
    ensures !BindValue(v, limit).Undefined? ==> (BindValue(v, limit) == Bound(v) <==> Storable(v, limit))
    ensures BindValue(v, limit).Bound? ==>
              BindValue(v, limit).cell.NullVal? || TypeOf(BindValue(v, limit).cell) == TypeOf(v)
  {
    if v.TextVal? { SizeAsIntBelow(|v.text|); }
    if v.BlobVal? { SizeAsIntBelow(|v.blob|); }
  }

  /** What is bound, for every value and size: n is the size modulo 2^32, which is negative as an
      int from 2^31 on. */
  lemma BindValueMeans(v: Val, limit: LengthLimit)
    ensures !v.TextVal? && !v.BlobVal? ==> BindValue(v, limit) == Bound(if v == RealVal(NaN) then NullVal else v)
    ensures v.TextVal? ==>
              var n := |v.text| % 0x1_0000_0000;
              var kept := if n <= INT32_MAX then v.text[..n] else UpToZero(v.text);
              BindValue(v, limit) == if |kept| <= limit then Bound(TextVal(kept)) else TooBig
    ensures v.BlobVal? ==>
              var n := |v.blob| % 0x1_0000_0000;
              BindValue(v, limit) == if v.blob == [] || n > INT32_MAX then Binding.Undefined
                                     else if n <= limit then Bound(BlobVal(v.blob[..n]))
                                     else TooBig
  {
    if v.TextVal? { SizeModulo(|v.text|); }
    if v.BlobVal? { SizeModulo(|v.blob|); }
  }

  lemma SizeModulo(n: nat)
    ensures SizeAsInt(n) == var m := n % 0x1_0000_0000; if m <= INT32_MAX then m else m - 0x1_0000_0000
  {
  }

  /** A row whose bindings are all defined: it is bound without refusal, and read back under its
      own types it is the same row, exactly when no value is a NaN or longer than the limit. What
      is bound can always be read back. */
  lemma BindReadRoundTrip(row: Row, cols: Columns, types: seq<Type>, limit: LengthLimit)
    requires RowFollowsRule(row) && |cols.cells| == |row| == |types|
    requires forall i :: 0 <= i < |row| ==> types[i] == row[i].dbtype
    requires forall i :: 0 <= i < |row| && BindValue(row[i].val, limit).Bound? ==>
               cols.cells[i] == BindValue(row[i].val, limit).cell
    ensures AllBound(row, limit) ==> TypedRow(cols, types).Ok?
    ensures (forall i :: 0 <= i < |row| ==> !BindValue(row[i].val, limit).Undefined?) ==>
              (AllBound(row, limit) && TypedRow(cols, types) == Ok(row) <==>
               forall i :: 0 <= i < |row| ==> Storable(row[i].val, limit))
  {
    forall i | 0 <= i < |row|
      ensures !BindValue(row[i].val, limit).Undefined? ==> (BindValue(row[i].val, limit) == Bound(row[i].val) <==> Storable(row[i].val, limit))
      ensures BindValue(row[i].val, limit).Bound? ==> Readable(cols.cells[i], types[i])
    {
      assert FollowsRule(row[i]);
      BindValueExactly(row[i].val, limit);
    }
    TypedRowExactly(cols, types);
    if AllBound(row, limit) && forall i :: 0 <= i < |row| ==> Storable(row[i].val, limit) {
      var read := TypedRow(cols, types).value;
      assert forall i :: 0 <= i < |row| ==> read[i] == row[i];
      assert read == row;
    }
  }

  predicate AllBound(row: Row, limit: LengthLimit) {
    forall i :: 0 <= i < |row| ==> BindValue(row[i].val, limit).Bound?
  }

  /** SQLite takes the value at n: the statement has such a parameter and it is not too long. */
  predicate Taken(row: Row, paramCount: nat, limit: LengthLimit, n: nat)
    requires n < |row|
  {
    n < paramCount && !BindValue(row[n].val, limit).TooBig?
  }

  /** The first index from i on whose value is not taken. */
  function FirstUnbound(row: Row, paramCount: nat, limit: LengthLimit, i: nat): (k: nat)
    requires i <= |row|
    ensures i <= k <= |row|
    ensures forall n :: i <= n < k ==> Taken(row, paramCount, limit, n)
    ensures k < |row| ==> !Taken(row, paramCount, limit, k)
    decreases |row| - i
  {
    if i < |row| && Taken(row, paramCount, limit, i) then FirstUnbound(row, paramCount, limit, i + 1) else i
  }

  function BindOutcome(row: Row, paramCount: nat, limit: LengthLimit): Outcome {
    if FirstUnbound(row, paramCount, limit, 0) == |row| then Done else Thrown(SqliteError)
  }

  /** All are taken exactly when there are no more than the statement has and none is too long. */
  lemma BindOutcomeExactly(row: Row, paramCount: nat, limit: LengthLimit)
    ensures BindOutcome(row, paramCount, limit) == Done <==>
            |row| <= paramCount && forall i :: 0 <= i < |row| ==> !BindValue(row[i].val, limit).TooBig?
    ensures BindOutcome(row, paramCount, limit) in {Done, Thrown(SqliteError)}
  {
    var k := FirstUnbound(row, paramCount, limit, 0);
    if k == |row| {
      forall i | 0 <= i < |row| ensures i < paramCount && !BindValue(row[i].val, limit).TooBig? {
        assert Taken(row, paramCount, limit, i);
      }
      if row != [] { assert Taken(row, paramCount, limit, |row| - 1); }
    } else {
      assert !Taken(row, paramCount, limit, k);
      if k < paramCount { assert BindValue(row[k].val, limit).TooBig?; }
    }
  }

  /** The cell at n is the one of the value at n. */
  ghost predicate CellBound(row: Row, limit: LengthLimit, after: seq<Val>, n: nat)
    requires n < |row| && n < |after|
  {
    BindValue(row[n].val, limit).Bound? ==> after[n] == BindValue(row[n].val, limit).cell
  }

  /** The first k values are bound, and the other cells are as before. */
  ghost predicate BoundBelow(row: Row, limit: LengthLimit, before: seq<Val>, after: seq<Val>, k: nat) {
    && k <= |row| && k <= |after| == |before|
    && (forall n :: 0 <= n < k ==> CellBound(row, limit, after, n))
    && (forall n :: k <= n < |after| ==> after[n] == before[n])
  }

  /** Likewise, but a value that was refused for its length left NULL. */
  ghost predicate BoundUpTo(row: Row, limit: LengthLimit, before: seq<Val>, after: seq<Val>, k: nat) {
    if k < |row| && k < |before| then |after| == |before| && after[k] == NullVal && BoundBelow(row, limit, before, after[k := before[k]], k)
    else BoundBelow(row, limit, before, after, k)
  }

  lemma BoundOneMore(row: Row, limit: LengthLimit, before: seq<Val>, after: seq<Val>, i: nat, cell: Val)
    requires BoundBelow(row, limit, before, after, i) && i < |row| && i < |before|
    requires BindValue(row[i].val, limit).Bound? ==> cell == BindValue(row[i].val, limit).cell
    ensures BoundBelow(row, limit, before, after[i := cell], i + 1)
  {
    var now := after[i := cell];
    forall n | 0 <= n < i + 1 ensures CellBound(row, limit, now, n) {
      if n < i { assert CellBound(row, limit, after, n); }
    }
  }

  // ----- the cursor

  datatype StepResult = HasRow(cols: Columns) | Finished | StepFails

  /** What a callback does with the rows seen so far, the last one being new. */
  datatype Reaction = Continue | Stop | Throw(error: Error)
  type Callback = seq<Columns> -> Reaction

  datatype Execution = Execution(seen: seq<Columns>, outcome: Outcome)

  function RunCursor(script: seq<StepResult>, cb: Callback, seen: seq<Columns>): Execution
    decreases |script|
  {
    if script == [] || script[0].Finished? then Execution(seen, Done)
    else if script[0].StepFails? then Execution(seen, Thrown(SqliteError))
    else
      var now := seen + [script[0].cols];
      match cb(now)
      case Continue => RunCursor(script[1..], cb, now)
      case Stop => Execution(now, Done)
      case Throw(e) => Execution(now, Thrown(e))
  }

  /** The rows before the first step that gives none. */
  function RowsOf(script: seq<StepResult>): seq<Columns> {
    if script == [] || !script[0].HasRow? then [] else [script[0].cols] + RowsOf(script[1..])
  }

  /** How the cursor ends once all its rows were taken. */
  function EndOf(script: seq<StepResult>): Outcome {
    if script == [] || script[0].Finished? then Done
    else if script[0].StepFails? then Thrown(SqliteError)
    else EndOf(script[1..])
  }

  /** The callback stopped or threw on the last row it saw. */
  predicate EndedByCallback(cb: Callback, e: Execution) {
    && e.seen != [] && cb(e.seen) != Continue
    && e.outcome == if cb(e.seen).Stop? then Done else Thrown(cb(e.seen).error)
  }

  /** For every finite cursor: the callback sees the rows in order, each once, and goes on
      exactly as long as it says so; then either it ended the loop, or the cursor did after
      its last row. */
  lemma ExecuteSeesPrefix(script: seq<StepResult>, cb: Callback)
    ensures var e := RunCursor(script, cb, []);
            && e.seen <= RowsOf(script)
            && (forall k :: 0 < k < |e.seen| ==> cb(e.seen[..k]) == Continue)
            && (EndedByCallback(cb, e)
                || (e.seen == RowsOf(script) && e.outcome == EndOf(script) && (e.seen != [] ==> cb(e.seen) == Continue)))
  {
    RunCursorFrom(script, cb, []);
    assert [] + RowsOf(script) == RowsOf(script);
  }

  lemma {:induction false} RunCursorFrom(script: seq<StepResult>, cb: Callback, seen: seq<Columns>)
    requires seen != [] ==> cb(seen) == Continue
    ensures var e := RunCursor(script, cb, seen);
            && seen <= e.seen <= seen + RowsOf(script)
            && (forall k :: |seen| < k < |e.seen| ==> cb(e.seen[..k]) == Continue)
            && (EndedByCallback(cb, e)
                || (e.seen == seen + RowsOf(script) && e.outcome == EndOf(script) && (e.seen != [] ==> cb(e.seen) == Continue)))
    decreases |script|
  {
    if script != [] && script[0].HasRow? {
      var now := seen + [script[0].cols];
      assert now + RowsOf(script[1..]) == seen + RowsOf(script);
      if cb(now) == Continue {
        RunCursorFrom(script[1..], cb, now);
        var e := RunCursor(script, cb, seen);
        assert e.seen[..|now|] == now;
      }
    } else {
      assert seen + [] == seen;
    }
  }

  /** A statement handle: the length limit of its connection, what is bound to it, the steps of a
      run, which depend on what is bound, and how often it was reset. */
  class Statement {
    const paramCount: nat
    const limit: LengthLimit
    const script: seq<Val> -> seq<StepResult>
    var bound: seq<Val>
    var pos: nat
    var resets: nat

    constructor (paramCount: nat, limit: LengthLimit, script: seq<Val> -> seq<StepResult>)
      ensures this.paramCount == paramCount && this.limit == limit && this.script == script
      ensures |bound| == paramCount && pos == 0 && resets == 0
    {
      this.paramCount, this.limit, this.script := paramCount, limit, script;
      bound := seq(paramCount, _ => NullVal);
      pos, resets := 0, 0;
    }

    /** The steps of a run with what is bound now. */
    function Steps(): seq<StepResult>
      reads this
    {
      script(bound)
    }

    method Step() returns (r: StepResult)
      requires pos <= |Steps()|
      modifies `pos
      ensures pos <= |Steps()|
      ensures old(pos) < |Steps()| ==> r == Steps()[old(pos)] && pos == old(pos) + 1
      ensures old(pos) == |Steps()| ==> r == Finished && pos == old(pos)
    {
      if pos < |Steps()| {
        r := Steps()[pos];
        pos := pos + 1;
      } else {
        r := Finished;
      }
    }

    method Reset()
      modifies `pos, `resets
      ensures pos == 0 && resets == old(resets) + 1
    {
      pos, resets := 0, resets + 1;
    }
  }
}
