/** Queries: select fills a dataset, selectValue takes one cell (src/sl3/command.cpp,
    src/sl3/database.cpp). */
module Selects {
  import opened ColumnReads
  import opened CommandObjects
  import opened Commands
  import opened DatasetObjects
  import opened Datasets
  import opened Results
  import opened Rows
  import opened TypedValues
  import opened Values

  /** The callback of select goes on as long as the rows can be read. */
  function FillReaction(types: seq<Type>): Callback {
    seen => var r := FillAll(Data(types, [], []), seen); if r.Ok? then Continue else Throw(r.error)
  }

  /** The schema a select ends with: the given types, or a variant for every column. */
  function SchemaOf(types: seq<Type>, seen: seq<Columns>): seq<Type> {
    if types == [] && seen != [] then seq(|seen[0].cells|, _ => Variant) else types
  }

  ghost predicate ProperColumns(seen: seq<Columns>) {
    forall k :: 0 <= k < |seen| ==> seen[k].cells != []
  }

  /** The dataset holds the rows seen, in order, each read under the schema. */
  ghost predicate Loaded(types: seq<Type>, seen: seq<Columns>, d: Data) {
    && d.fieldTypes == SchemaOf(types, seen)
    && d.names == (if seen == [] then [] else NamesOf(seen[0]))
    && |d.rows| == |seen|
    && forall k :: 0 <= k < |seen| ==> TypedRow(seen[k], d.fieldTypes) == Ok(d.rows[k])
  }

  lemma LoadedStep(types: seq<Type>, front: seq<Columns>, cols: Columns, d: Data)
    requires Loaded(types, front, d) && cols.cells != [] && ProperColumns(front)
    ensures match Datasets.Fill(d, cols)
            case Ok(after) => Loaded(types, front + [cols], after)
            case Err(e) => e == TypeMisMatch && TypedRow(cols, SchemaOf(types, front + [cols])) == Err(TypeMisMatch)
  {
    var seen := front + [cols];
    var schema := SchemaOf(types, seen);
    TypedRowExactly(cols, schema);
    assert seen[0] == if front == [] then cols else front[0];
    assert front != [] ==> NamesOf(front[0]) != [];
    var r := Datasets.Fill(d, cols);
    if r.Ok? {
      assert r.value.fieldTypes == schema;
      forall k | 0 <= k < |seen| ensures TypedRow(seen[k], schema) == Ok(r.value.rows[k]) {
        if k < |front| { assert seen[k] == front[k]; }
      }
    }
  }

  ghost predicate Unreadable(types: seq<Type>, seen: seq<Columns>, k: nat) {
    k < |seen| && TypedRow(seen[k], SchemaOf(types, seen)).Err?
  }

  lemma FillAllStep(ds: Data, front: seq<Columns>, cols: Columns)
    ensures FillAll(ds, front + [cols]) == match FillAll(ds, front)
                                           case Ok(before) => Datasets.Fill(before, cols)
                                           case Err(e) => Err(e)
  {
    assert (front + [cols])[..|front|] == front;
  }

  lemma UnreadableStays(types: seq<Type>, front: seq<Columns>, cols: Columns, k: nat)
    requires Unreadable(types, front, k)
    ensures Unreadable(types, front + [cols], k)
  {
    assert (front + [cols])[0] == front[0] && (front + [cols])[k] == front[k];
  }

  ghost predicate LoadsOrNot(types: seq<Type>, seen: seq<Columns>, r: Result<Data>) {
    match r
    case Ok(d) => Loaded(types, seen, d)
    case Err(e) => e == TypeMisMatch && exists k: nat :: Unreadable(types, seen, k)
  }

  lemma LoadsOrNotStep(types: seq<Type>, front: seq<Columns>, cols: Columns, before: Result<Data>)
    requires LoadsOrNot(types, front, before) && cols.cells != [] && ProperColumns(front)
    ensures LoadsOrNot(types, front + [cols], if before.Ok? then Datasets.Fill(before.value, cols) else before)
  {
    if before.Ok? {
      LoadedStep(types, front, cols, before.value);
      assert (front + [cols])[|front|] == cols;
      assert TypedRow(cols, SchemaOf(types, front + [cols])).Err? ==> Unreadable(types, front + [cols], |front|);
    } else {
      var k: nat :| Unreadable(types, front, k);
      UnreadableStays(types, front, cols, k);
    }
  }

  lemma {:induction false} FillAllLoads(types: seq<Type>, seen: seq<Columns>)
    requires ProperColumns(seen)
    ensures LoadsOrNot(types, seen, FillAll(Data(types, [], []), seen))
    decreases |seen|
  {
    if seen != [] {
      var front, cols := seen[..|seen| - 1], seen[|seen| - 1];
      assert seen == front + [cols];
      FillAllLoads(types, front);
      LoadsOrNotStep(types, front, cols, FillAll(Data(types, [], []), front));
      FillAllStep(Data(types, [], []), front, cols);
    }
  }

  /** select holds one row per cursor row, in order, each read under the schema; it fails exactly
      when a row cannot be read under it. */
  lemma FillAllExactly(types: seq<Type>, seen: seq<Columns>)
    requires ProperColumns(seen)
    ensures var r := FillAll(Data(types, [], []), seen);
            && (r.Ok? <==> forall k :: 0 <= k < |seen| ==> TypedRow(seen[k], SchemaOf(types, seen)).Ok?)
            && (if r.Ok? then Loaded(types, seen, r.value) else r == Err(TypeMisMatch))
  {
    FillAllLoads(types, seen);
  }

  /** What the query of a command is: its rows read under the types, or what stops it. */
  function QueryResult(script: seq<StepResult>, types: seq<Type>): Result<Data> {
    var d :- FillAll(Data(types, [], []), RowsOf(script));
    if EndOf(script) == Done then Ok(d) else Err(SqliteError)
  }

  /** For every cursor with proper columns: a row that cannot be read under the schema decides, then
      the way the cursor ends; otherwise all rows are there, in order, under the schema. */
  lemma QueryResultExactly(script: seq<StepResult>, types: seq<Type>)
    requires ProperColumns(RowsOf(script))
    ensures var rows := RowsOf(script);
            var readable := forall k :: 0 <= k < |rows| ==> TypedRow(rows[k], SchemaOf(types, rows)).Ok?;
            match QueryResult(script, types)
            case Ok(d) => readable && EndOf(script) == Done && Loaded(types, rows, d)
            case Err(e) => (!readable && e == TypeMisMatch) || (readable && EndOf(script) == Thrown(SqliteError) && e == SqliteError)
  {
    FillAllExactly(types, RowsOf(script));
    EndOfIs(script);
  }

  /** A statement that selects its parameters. */
  function Echo(bound: seq<Val>): seq<StepResult> {
    [HasRow(Columns(map[], bound)), Finished]
  }

  /** Parameters that are taken and stored whole come back: selected under their own types they are
      the one row of the dataset. */
  lemma ParametersComeBack(before: Row, values: Row, stmt: Statement, was: seq<Val>, now: seq<Val>, types: seq<Type>)
    requires RowFollowsRule(before) && RowFollowsRule(values) && before != [] && |before| == stmt.paramCount == |was| == |types|
    requires Reaches(true, before, values, stmt) && BindingIs(true, before, values, stmt, was, now)
    requires forall i :: 0 <= i < |before| ==> types[i] == before[i].dbtype
    requires forall c :: c in ToBind(before, values) ==>
               Storable(c.val, stmt.limit) && !BindValue(c.val, stmt.limit).Undefined?
    ensures QueryResult(Echo(now), types).Ok? && QueryResult(Echo(now), types).value.rows == [ToBind(before, values)]
  {
    var row := ToBind(before, values);
    SetParametersExactly(before, values);
    forall i | 0 <= i < |row|
      ensures |now| == |row| && Storable(row[i].val, stmt.limit)
      ensures BindValue(row[i].val, stmt.limit).Bound? && now[i] == BindValue(row[i].val, stmt.limit).cell
    {
      assert row[i] in row;
      BindValueExactly(row[i].val, stmt.limit);
      BoundWhenReached(true, before, values, stmt, was, now, i);
    }
    var cols := Columns(map[], now);
    BindReadRoundTrip(row, cols, types, stmt.limit);
    EchoHasOneRow(now);
    FillAllExactly(types, [cols]);
    QueryResultExactly(Echo(now), types);
    var d := QueryResult(Echo(now), types).value;
    assert TypedRow([cols][0], d.fieldTypes) == Ok(d.rows[0]);
  }

  lemma EchoHasOneRow(bound: seq<Val>)
    ensures RowsOf(Echo(bound)) == [Columns(map[], bound)] && EndOf(Echo(bound)) == Done
  {
    assert Echo(bound)[1..] == [Finished];
  }

  lemma FillReactionEnds(script: seq<StepResult>, types: seq<Type>, e: Execution)
    requires e.seen <= RowsOf(script) && EndedByCallback(FillReaction(types), e)
    ensures FillAll(Data(types, [], []), RowsOf(script)).Err?
    ensures e.outcome == Thrown(FillAll(Data(types, [], []), RowsOf(script)).error)
  {
    assert e.seen == RowsOf(script)[..|e.seen|];
    FillAllStops(Data(types, [], []), RowsOf(script), |e.seen|);
  }

  lemma FillReactionRuns(script: seq<StepResult>, types: seq<Type>)
    ensures var e := RunCursor(script, FillReaction(types), []);
            match QueryResult(script, types)
            case Ok(d) => e == Execution(RowsOf(script), Done)
            case Err(error) => e.outcome == Thrown(error)
  {
    var cb := FillReaction(types);
    var e := RunCursor(script, cb, []);
    ExecuteSeesPrefix(script, cb);
    EndOfIs(script);
    if EndedByCallback(cb, e) {
      FillReactionEnds(script, types, e);
    } else if e.seen == [] {
      assert FillAll(Data(types, [], []), e.seen).Ok?;
    } else {
      assert cb(e.seen) == Continue;
      assert FillAll(Data(types, [], []), e.seen).Ok?;
    }
  }

  lemma EndOfIs(script: seq<StepResult>)
    ensures EndOf(script) in {Done, Thrown(SqliteError)}
  {
  }

  /** What cannot be filled with the first n rows cannot be filled with all. */
  lemma {:induction false} FillAllStops(ds: Data, seen: seq<Columns>, n: nat)
    requires n <= |seen| && FillAll(ds, seen[..n]).Err?
    ensures FillAll(ds, seen) == FillAll(ds, seen[..n])
    decreases |seen|
  {
    if n < |seen| {
      assert seen[..|seen| - 1][..n] == seen[..n];
      FillAllStops(ds, seen[..|seen| - 1], n);
    } else {
      assert seen[..n] == seen;
    }
  }

  /** The query of a command. The dataset is filled row by row with what the callback saw. */
  method Select(cmd: Command, types: seq<Type>, values: Row) returns (r: Outcome, ds: Dataset)
    requires cmd.Valid()
    modifies cmd, cmd.stmt
    ensures cmd.Valid() && cmd.conn == old(cmd.conn) && cmd.stmt == old(cmd.stmt) && ds.Valid() && fresh(ds)
    ensures cmd.stmt != null ==>
              BindingIs(cmd.conn.open, old(cmd.parameters), values, cmd.stmt, old(cmd.stmt.bound), cmd.stmt.bound)
    ensures !cmd.conn.open ==> r == Thrown(NoConnection)
    ensures Reaches(cmd.conn.open, old(cmd.parameters), values, cmd.stmt) ==>
              match QueryResult(cmd.Steps(), types)
              case Ok(d) => r == Done && ds.State() == d
              case Err(error) => r == Thrown(error)
    ensures cmd.conn.open && !Reaches(true, old(cmd.parameters), values, cmd.stmt) ==>
              r == Thrown(if values == [] || SetOutcome(old(cmd.parameters), values) == Done then SqliteError else TypeMisMatch)
  {
    ds := new Dataset(types);
    var seen;
    r, seen := cmd.Execute(FillReaction(types), values);
    if cmd.stmt != null { FillReactionRuns(cmd.Steps(), types); }
    if r == Done {
      var o := Load(ds, seen);
      assert o == Done;
    }
  }

  /** The callback of select on one row after the other. */
  method Load(ds: Dataset, seen: seq<Columns>) returns (r: Outcome)
    requires ds.Valid()
    modifies ds
    ensures ds.Valid()
    ensures match FillAll(old(ds.State()), seen)
            case Ok(d) => r == Done && ds.State() == d
            case Err(error) => r == Thrown(error)
  {
    ghost var start := ds.State();
    for k := 0 to |seen|
      invariant ds.Valid()
      invariant FillAll(start, seen[..k]) == Ok(ds.State())
    {
      assert seen[..k + 1][..k] == seen[..k];
      var o := ds.Fill(seen[k]);
      if o != Done {
        FillAllStops(start, seen, k + 1);
        return o;
      }
    }
    assert seen[..|seen|] == seen;
    return Done;
  }

  // ----- a single value

  /** The callback of selectValue stops after the first row. */
  function ValueReaction(t: Type): Callback {
    seen =>
      if seen == [] then Continue
      else var r := GetValue(seen[|seen| - 1], 0, t); if r.Ok? then Stop else Throw(r.error)
  }

  /** The first cell of the first row under the type, or Null when there is no row. */
  function FirstValue(script: seq<StepResult>, t: Type): Result<DbVal> {
    if RowsOf(script) != [] then GetValue(RowsOf(script)[0], 0, t)
    else if EndOf(script) == Done then Ok(MakeNull(t))
    else Err(SqliteError)
  }

  /** A first row is read exactly when its first cell is Null or of the type, and gives that cell;
      without a row the result is Null under the type, unless the first step fails. */
  predicate FirstCellIs(script: seq<StepResult>, t: Type, r: Result<DbVal>) {
    var dbtype := if t == Null then Variant else t;
    if script == [] || script[0].Finished? then r == Ok(DbVal(dbtype, NullVal))
    else if script[0].StepFails? then r == Err(SqliteError)
    else if script[0].cols.cells == [] then r == Err(OutOfRange)
    else
      var cell := script[0].cols.cells[0];
      if cell.NullVal? || t == Variant || t == TypeOf(cell) then r == Ok(DbVal(dbtype, cell)) else r == Err(TypeMisMatch)
  }

  lemma FirstValueExactly(script: seq<StepResult>, t: Type)
    ensures FirstCellIs(script, t, FirstValue(script, t))
  {
  }

  /** Assigning what was read to the result, which has the type already, never throws. */
  lemma ReadValueAssigns(cols: Columns, idx: int, t: Type)
    ensures var r := GetValue(cols, idx, t); r.Ok? ==> Assign(MakeNull(t), r.value) == r
  {
  }

  lemma ValueReactionRuns(script: seq<StepResult>, t: Type)
    ensures var e := RunCursor(script, ValueReaction(t), []);
            && |e.seen| <= 1
            && (e.seen != [] ==> RowsOf(script) != [] && e.seen[0] == RowsOf(script)[0])
            && (e.seen == [] ==> RowsOf(script) == [] && e.outcome == EndOf(script))
            && (e.outcome == Done <==> FirstValue(script, t).Ok?)
            && (e.outcome != Done ==> FirstValue(script, t) == Err(e.outcome.error))
  {
  }

  /** The query of selectValue: with parameters and a statement that can be run, the first cell. */
  method SelectValue(cmd: Command, t: Type) returns (r: Result<DbVal>)
    requires cmd.Valid()
    modifies cmd, cmd.stmt
    ensures cmd.Valid() && cmd.conn == old(cmd.conn) && cmd.stmt == old(cmd.stmt)
    ensures cmd.stmt != null ==>
              BindingIs(cmd.conn.open, old(cmd.parameters), [], cmd.stmt, old(cmd.stmt.bound), cmd.stmt.bound)
    ensures if Reaches(cmd.conn.open, old(cmd.parameters), [], cmd.stmt)
            then r == FirstValue(cmd.Steps(), t)
            else r == Err(if cmd.conn.open then SqliteError else NoConnection)
    ensures Reaches(cmd.conn.open, old(cmd.parameters), [], cmd.stmt) ==> FirstCellIs(cmd.Steps(), t, r)
  {
    var retVal := new DbValue(t);
    var o, seen := cmd.Execute(ValueReaction(t), []);
    if cmd.stmt != null { ValueReactionRuns(cmd.Steps(), t); }
    FirstValueExactly(cmd.Steps(), t);
    if o != Done {
      return Err(o.error);
    }
    if seen != [] {
      ReadValueAssigns(seen[0], 0, t);
      var v := GetValue(seen[0], 0, t);
      var tmp := new DbValue.From(v.value);
      var moved := retVal.MoveAssign(tmp);
      assert moved == Done;
    }
    return Ok(retVal.State());
  }
}
