/** Command as an object on a shared connection (src/sl3/command.cpp). */
module CommandObjects {
  import opened ColumnReads
  import opened Commands
  import opened Connections
  import opened Results
  import opened Rows
  import opened TypedValues
  import opened Values

  /** What sqlite3_prepare_v2 makes of a text: an error, no statement at all, or a handle. */
  datatype Compiled = Refused | Blank | Handle(stmt: Statement)

  datatype Event = OnStart | OnRow(cols: Columns) | OnEnd

  /** The first index from i on whose value may not be assigned, or the length. */
  function FirstRefused(target: Row, source: Row, i: nat): (k: nat)
    requires |target| == |source| && i <= |target|
    ensures i <= k <= |target|
    ensures forall n :: i <= n < k ==> CanAssign(target[n], source[n])
    ensures k < |target| ==> !CanAssign(target[k], source[k])
    decreases |target| - i
  {
    if i < |target| && CanAssign(target[i], source[i]) then FirstRefused(target, source, i + 1) else i
  }

  /** The first k parameters new, the others old, every type unchanged. */
  function AssignedUpTo(target: Row, source: Row, k: nat): (r: Row)
    requires |target| == |source| && k <= |target|
    ensures |r| == |target|
    ensures forall i :: 0 <= i < |r| ==> r[i] == if i < k then target[i].(val := source[i].val) else target[i]
  {
    seq(|target|, i requires 0 <= i < |target| => if i < k then target[i].(val := source[i].val) else target[i])
  }

  /** What setParameters leaves behind, and how it ends. */
  function AfterSet(before: Row, values: Row): Row {
    if |values| != |before| then before
    else AssignedUpTo(before, values, FirstRefused(before, values, 0))
  }

  function SetOutcome(before: Row, values: Row): Outcome {
    if |values| == |before| && FirstRefused(before, values, 0) == |before| then Done else Thrown(TypeMisMatch)
  }

  /** setParameters succeeds exactly when the whole row is assignable, and then it is a row
      assignment; in every case the parameters keep the rule and their types. */
  lemma SetParametersExactly(before: Row, values: Row)
    requires RowFollowsRule(before) && RowFollowsRule(values)
    ensures SetOutcome(before, values) == Done <==> CanAssignRow(before, values)
    ensures SetOutcome(before, values) == Done ==> AfterSet(before, values) == WithValues(before, values)
    ensures RowFollowsRule(AfterSet(before, values)) && |AfterSet(before, values)| == |before|
    ensures forall i :: 0 <= i < |before| ==> AfterSet(before, values)[i].dbtype == before[i].dbtype
  {
  }

  /** Value i is new exactly when it and all before it may be assigned; a row of another width
      changes nothing. What is new is the value alone. */
  lemma SetParametersPrefix(before: Row, values: Row, i: nat)
    requires i < |before|
    ensures |AfterSet(before, values)| == |before|
    ensures AfterSet(before, values)[i] ==
            if |values| == |before| && forall n :: 0 <= n <= i ==> CanAssign(before[n], values[n])
            then DbVal(before[i].dbtype, values[i].val)
            else before[i]
    ensures SetOutcome(before, values) == Done <==>
            |values| == |before| && forall n :: 0 <= n < |before| ==> CanAssign(before[n], values[n])
    ensures SetOutcome(before, values) in {Done, Thrown(TypeMisMatch)}
  {
  }

  /** The parameters that execute binds. */
  function ToBind(before: Row, values: Row): Row {
    if values == [] then before else AfterSet(before, values)
  }

  /** Execution gets as far as the first step: the parameters are taken and bound. */
  predicate Reaches(open: bool, before: Row, values: Row, stmt: Statement?) {
    && open && stmt != null && (values == [] || SetOutcome(before, values) == Done)
    && BindOutcome(ToBind(before, values), stmt.paramCount, stmt.limit) == Done
  }

  /** What execute leaves bound: the parameters, up to the first that is refused; nothing new on a
      closed connection or when the parameters themselves are refused. */
  ghost predicate BindingIs(open: bool, before: Row, values: Row, stmt: Statement, was: seq<Val>, now: seq<Val>) {
    if open && (values == [] || SetOutcome(before, values) == Done) then
      var row := ToBind(before, values);
      BoundUpTo(row, stmt.limit, was, now, FirstUnbound(row, stmt.paramCount, stmt.limit, 0))
    else now == was
  }

  /** Execution gets as far as the first step exactly on an open connection, with a statement,
      parameters that may be assigned, as many as it has or fewer, and none too long. */
  lemma ReachesExactly(open: bool, before: Row, values: Row, stmt: Statement?)
    requires RowFollowsRule(before) && RowFollowsRule(values)
    ensures Reaches(open, before, values, stmt) <==>
            && open && stmt != null && (values != [] ==> CanAssignRow(before, values)) && |before| <= stmt.paramCount
            && forall i :: 0 <= i < |before| ==>
                 !BindValue(if values == [] then before[i].val else values[i].val, stmt.limit).TooBig?
  {
    if values != [] { SetParametersExactly(before, values); }
    if stmt != null { BindOutcomeExactly(ToBind(before, values), stmt.paramCount, stmt.limit); }
    if open && stmt != null && (values != [] ==> CanAssignRow(before, values)) {
      assert forall i :: 0 <= i < |before| ==>
               ToBind(before, values)[i].val == if values == [] then before[i].val else values[i].val;
    }
  }

  /** Once the first step is reached, cell i is what binding parameter i gives. */
  lemma BoundWhenReached(open: bool, before: Row, values: Row, stmt: Statement, was: seq<Val>, now: seq<Val>, i: nat)
    requires Reaches(open, before, values, stmt) && BindingIs(open, before, values, stmt, was, now) && |was| == stmt.paramCount
    requires i < stmt.paramCount
    ensures |now| == stmt.paramCount
    ensures i < |before| ==>
              var b := BindValue(if values == [] then before[i].val else values[i].val, stmt.limit);
              b.Bound? ==> now[i] == b.cell
    ensures i >= |before| ==> now[i] == was[i]
  {
    var row := ToBind(before, values);
    if i < |row| { assert CellBound(row, stmt.limit, now, i); }
  }

  /** What execute delivers to the callback, and how it ends: nothing on a closed connection or
      with parameters or a binding that are refused, otherwise what the cursor has. */
  function ExecutionOf(open: bool, before: Row, values: Row, stmt: Statement?, steps: seq<StepResult>, cb: Callback): Execution {
    if !open then Execution([], Thrown(NoConnection))
    else if values != [] && SetOutcome(before, values) != Done then Execution([], Thrown(TypeMisMatch))
    else if !Reaches(open, before, values, stmt) then Execution([], Thrown(SqliteError))
    else RunCursor(steps, cb, [])
  }

  /** onStart before anything else, a row each, and onEnd only if nothing threw. */
  function EventsOf(e: Execution): seq<Event> {
    [OnStart] + seq(|e.seen|, i requires 0 <= i < |e.seen| => OnRow(e.seen[i])) + if e.outcome == Done then [OnEnd] else []
  }

  /** The start, the first rows of the cursor in order, and the end exactly when the cursor came
      to its end without an error or the callback said stop. */
  lemma RowCallbackSees(script: seq<StepResult>, cb: Callback)
    ensures var e, rows := RunCursor(script, cb, []), RowsOf(script);
            var events := EventsOf(e);
            && events[0] == OnStart
            && (forall k :: 0 < k < |events| && events[k].OnRow? ==> k - 1 < |rows| && events[k] == OnRow(rows[k - 1]))
            && (forall k :: 0 < k < |events| && !events[k].OnRow? ==> k == |events| - 1 && events[k] == OnEnd)
            && (events[|events| - 1] == OnEnd <==>
                  || (e.seen == rows && EndOf(script) == Done && (rows != [] ==> cb(rows) == Continue))
                  || (e.seen != [] && cb(e.seen) == Stop))
  {
    ExecuteSeesPrefix(script, cb);
  }

  class Command {
    var conn: Connection?<Statement>
    var stmt: Statement?
    var parameters: Row

    /** A command that was not moved from: its handle, if the text had a statement, is alive as
        long as the connection is open, and is reset between the calls. */
    ghost predicate Valid()
      reads this, conn, stmt
    {
      && conn != null
      && (stmt != null ==> stmt.pos == 0 && |stmt.bound| == stmt.paramCount && (conn.open ==> stmt in conn.live))
    }

    function Steps(): seq<StepResult>
      reads this, stmt
    {
      if stmt == null then [] else stmt.Steps()
    }

    /** The constructors end here when nothing throws. */
    constructor (conn: Connection<Statement>, stmt: Statement?, parameters: Row)
      ensures this.conn == conn && this.stmt == stmt && this.parameters == parameters
    {
      this.conn, this.stmt, this.parameters := conn, stmt, parameters;
    }

    constructor Move(other: Command)
      modifies other
      ensures conn == old(other.conn) && stmt == old(other.stmt) && parameters == old(other.parameters)
      ensures other.conn == null && other.stmt == null && other.parameters == []
    {
      conn, stmt, parameters := other.conn, other.stmt, other.parameters;
      new;
      other.conn, other.stmt, other.parameters := null, null, [];
    }

    /** A handle is finalized here only while its connection is open: otherwise closing did it. */
    method Destroy()
      requires stmt != null ==> Valid()
      modifies conn
      ensures conn != null ==>
                conn.History() == old(conn.History()) &&
                conn.State() == if stmt != null && old(conn.open) then Finalized(old(conn.State()), stmt) else old(conn.State())
    {
      if stmt != null {
        if conn.open {
          conn.Finalize(stmt);
        }
      }
    }

    // ----- parameters

    /** Stops at the first value that does not fit. */
    method SetParameters(values: Row) returns (r: Outcome)
      modifies `parameters
      ensures parameters == AfterSet(old(parameters), values) && r == SetOutcome(old(parameters), values)
    {
      if |values| != |parameters| {
        return Thrown(TypeMisMatch);
      }
      ghost var p := parameters;
      for i := 0 to |values|
        invariant i <= FirstRefused(p, values, 0)
        invariant parameters == AssignedUpTo(p, values, i)
      {
        assert parameters[i] == p[i];
        var a := Assign(parameters[i], values[i]);
        if a.Err? {
          return Thrown(a.error);
        }
        parameters := parameters[i := a.value];
        assert parameters == AssignedUpTo(p, values, i + 1);
      }
      return Done;
    }

    method ResetParameters(values: Row) returns (r: Outcome)
      modifies `parameters
      ensures r == if |values| == |old(parameters)| then Done else Thrown(TypeMisMatch)
      ensures parameters == if r == Done then values else old(parameters)
    {
      if |values| != |parameters| {
        return Thrown(TypeMisMatch);
      }
      parameters := values;
      return Done;
    }

    /** Binds parameter i at index i + 1. SQLite refuses a value that is too long, whose parameter
        is NULL then, and more parameters than the statement has; fewer leave what was bound before. */
    method Bind() returns (r: Outcome)
      requires Valid()
      modifies stmt
      ensures Valid() && (stmt != null ==> stmt.resets == old(stmt.resets))
      ensures stmt != null ==>
                && r == BindOutcome(parameters, stmt.paramCount, stmt.limit)
                && BoundUpTo(parameters, stmt.limit, old(stmt.bound), stmt.bound,
                             FirstUnbound(parameters, stmt.paramCount, stmt.limit, 0))
      ensures stmt == null ==> r == if parameters == [] then Done else Thrown(SqliteError)
    {
      for i := 0 to |parameters|
        invariant Valid() && (stmt != null ==> stmt.resets == old(stmt.resets))
        invariant stmt == null ==> i == 0
        invariant stmt != null ==> i <= FirstUnbound(parameters, stmt.paramCount, stmt.limit, 0)
        invariant stmt != null ==> BoundBelow(parameters, stmt.limit, old(stmt.bound), stmt.bound, i)
      {
        if stmt == null || i >= stmt.paramCount {
          assert stmt != null ==> !Taken(parameters, stmt.paramCount, stmt.limit, i);
          return Thrown(SqliteError);
        }
        var b := BindValue(parameters[i].val, stmt.limit);
        if b.TooBig? {
          assert !Taken(parameters, stmt.paramCount, stmt.limit, i);
          assert stmt.bound[i := NullVal][i := old(stmt.bound)[i]] == stmt.bound;
          stmt.bound := stmt.bound[i := NullVal];
          return Thrown(SqliteError);
        }
        var cell: Val := *;
        if b.Bound? {
          cell := b.cell;
        }
        assert Taken(parameters, stmt.paramCount, stmt.limit, i);
        BoundOneMore(parameters, stmt.limit, old(stmt.bound), stmt.bound, i, cell);
        stmt.bound := stmt.bound[i := cell];
      }
      return Done;
    }

    // ----- execution

    /** The loop over the cursor, with the guard that resets the statement on every exit. A
        command without a statement is misuse that SQLite reports on the first step. */
    method RunLoop(cb: Callback) returns (r: Outcome, seen: seq<Columns>)
      requires Valid()
      modifies stmt
      ensures Valid()
      ensures stmt == null ==> r == Thrown(SqliteError) && seen == []
      ensures stmt != null ==>
                && Execution(seen, r) == RunCursor(Steps(), cb, [])
                && stmt.resets == old(stmt.resets) + 1 && stmt.bound == old(stmt.bound)
    {
      seen := [];
      if stmt == null {
        return Thrown(SqliteError), [];
      }
      r := Done;
      var loop := true;
      while loop
        invariant stmt.pos <= |Steps()| && stmt.resets == old(stmt.resets) && stmt.bound == old(stmt.bound)
        invariant loop ==> r == Done && RunCursor(Steps()[stmt.pos..], cb, seen) == RunCursor(Steps(), cb, [])
        invariant !loop ==> Execution(seen, r) == RunCursor(Steps(), cb, [])
        decreases loop, |Steps()| - stmt.pos
      {
        ghost var rest := Steps()[stmt.pos..];
        var rc := stmt.Step();
        assert rest != [] ==> rest[0] == rc && rest[1..] == Steps()[stmt.pos..];
        if rc.Finished? {
          loop := false;
        } else if rc.HasRow? {
          seen := seen + [rc.cols];
          var reaction := cb(seen);
          if reaction != Continue {
            loop := false;
            if reaction.Throw? {
              r := Thrown(reaction.error);
            }
          }
        } else {
          r, loop := Thrown(SqliteError), false;
        }
      }
      stmt.Reset();
    }

    /** Nothing happens on a closed connection; parameters or a binding that are refused step
        nothing; otherwise the rows are delivered and the statement is reset, however it ends. */
    method Execute(cb: Callback, values: Row) returns (r: Outcome, seen: seq<Columns>)
      requires Valid()
      modifies `parameters, stmt
      ensures Valid()
      ensures parameters == if conn.open && values != [] then AfterSet(old(parameters), values) else old(parameters)
      ensures stmt != null ==> BindingIs(conn.open, old(parameters), values, stmt, old(stmt.bound), stmt.bound)
      ensures Execution(seen, r) == ExecutionOf(conn.open, old(parameters), values, stmt, Steps(), cb)
      ensures !conn.open ==> r == Thrown(NoConnection) && seen == []
      ensures conn.open && values != [] && SetOutcome(old(parameters), values) != Done ==> r == Thrown(TypeMisMatch) && seen == []
      ensures conn.open && (values == [] || SetOutcome(old(parameters), values) == Done) ==>
                if Reaches(true, old(parameters), values, stmt) then Execution(seen, r) == RunCursor(Steps(), cb, [])
                else r == Thrown(SqliteError) && seen == []
      ensures stmt != null ==>
                stmt.resets == old(stmt.resets) + if Reaches(conn.open, old(parameters), values, stmt) then 1 else 0
    {
      seen := [];
      if !conn.open {
        return Thrown(NoConnection), [];
      }
      if |values| > 0 {
        r := SetParameters(values);
        if r != Done {
          return r, [];
        }
      }
      r := Bind();
      if r != Done {
        return r, [];
      }
      r, seen := RunLoop(cb);
    }

    /** The overload for a RowCallback. */
    method ExecuteRowCallback(cb: Callback, values: Row) returns (r: Outcome, events: seq<Event>)
      requires Valid()
      modifies `parameters, stmt
      ensures Valid()
      ensures parameters == if conn.open && values != [] then AfterSet(old(parameters), values) else old(parameters)
      ensures stmt != null ==> BindingIs(conn.open, old(parameters), values, stmt, old(stmt.bound), stmt.bound)
      ensures var e := ExecutionOf(conn.open, old(parameters), values, stmt, Steps(), cb); r == e.outcome && events == EventsOf(e)
      ensures stmt != null ==>
                stmt.resets == old(stmt.resets) + if Reaches(conn.open, old(parameters), values, stmt) then 1 else 0
    {
      events := [OnStart];
      var seen;
      r, seen := Execute(cb, values);
      events := events + seq(|seen|, i requires 0 <= i < |seen| => OnRow(seen[i]));
      if r == Done {
        events := events + [OnEnd];
      }
    }
  }
}
