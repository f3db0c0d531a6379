/** Database and its transaction guard as objects (src/sl3/database.cpp). What they do to the
    connection is what the runs in Ownership and Transactions are made of. */
module DatabaseObjects {
  import opened CommandObjects
  import opened Commands
  import opened Connections
  import opened DatasetObjects
  import opened Results
  import opened Rows
  import opened Selects
  import opened Transactions
  import opened TypedValues
  import opened Values

  /** createParameters: a variant for every parameter of the statement. */
  function Variants(n: nat): (r: Row)
    ensures |r| == n && forall i :: 0 <= i < n ==> r[i] == DbVal(Variant, NullVal)
  {
    seq(n, _ => MakeNull(Variant))
  }

  function CountOf(text: Compiled): (n: nat)
    ensures n == match text case Handle(stmt) => stmt.paramCount case _ => 0
  {
    if text.Handle? then text.stmt.paramCount else 0
  }

  /** Every parameter NULL, which is what the variants of a new command bind. */
  function Nulls(n: nat): (cells: seq<Val>)
    ensures |cells| == n && forall i :: 0 <= i < n ==> cells[i] == NullVal
  {
    seq(n, _ => NullVal)
  }

  lemma VariantsBindNulls(stmt: Statement, was: seq<Val>, now: seq<Val>)
    requires BindingIs(true, Variants(stmt.paramCount), [], stmt, was, now) && |was| == stmt.paramCount
    ensures Reaches(true, Variants(stmt.paramCount), [], stmt) && now == Nulls(stmt.paramCount)
  {
    var row := Variants(stmt.paramCount);
    BindOutcomeExactly(row, stmt.paramCount, stmt.limit);
    forall i | 0 <= i < stmt.paramCount ensures |now| == stmt.paramCount && now[i] == NullVal {
      BoundWhenReached(true, row, [], stmt, was, now, i);
    }
    assert now == Nulls(stmt.paramCount);
  }

  class Database {
    var conn: Connection<Statement>

    /** The part of the state that transactions are about. */
    function Tx(): DbState
      reads this, conn
    {
      DbState(conn.open, conn.transaction)
    }

    function Log(): Ledger
      reads this, conn
    {
      conn.ledger
    }

    /** Opening succeeded; otherwise there is no object. */
    constructor ()
      ensures fresh(conn) && conn.State() == ConnState(true, {}, multiset{})
      ensures Tx() == DbState(true, None) && Log() == NOTHING_ENDED
    {
      conn := new Connection(true);
    }

    /** The source keeps a connection, but an invalid one. */
    constructor Move(other: Database)
      modifies other
      ensures conn == old(other.conn) && Tx() == old(other.Tx()) && Log() == old(other.Log())
      ensures fresh(other.conn) && other.conn.State() == ConnState(false, {}, multiset{}) && other.Tx() == DbState(false, None)
    {
      conn := other.conn;
      new;
      other.conn := new Connection(false);
    }

    method Destroy()
      modifies conn
      ensures conn.State() == Closed(old(conn.State()))
      ensures Tx() == DbState(false, if old(conn.open) then None else old(conn.transaction))
      ensures Log() == if old(conn.open) then RolledBack(old(Log()), old(conn.transaction)) else old(Log())
    {
      conn.Close();
    }

    /** prepare, without and with parameters. When the count is wrong the constructor throws after
        the handle was made: nothing owns it then, but it is alive on the connection. */
    method Prepare(text: Compiled, parameters: Option<Row>) returns (r: Result<Command>)
      requires text.Handle? ==>
                 text.stmt !in conn.live && text.stmt.pos == 0 && |text.stmt.bound| == text.stmt.paramCount
      modifies conn
      ensures !old(conn.open) ==> r == Err(NoConnection)
      ensures old(conn.open) && text.Refused? ==> r == Err(SqliteError)
      ensures conn.State() == if old(conn.open) && text.Handle? then Prepared(old(conn.State()), text.stmt) else old(conn.State())
      ensures conn.History() == old(conn.History())
      ensures old(conn.open) && !text.Refused? ==>
                if parameters.Some? && |parameters.value| != CountOf(text) then r == Err(TypeMisMatch)
                else
                  && r.Ok? && fresh(r.value) && r.value.Valid() && r.value.conn == conn
                  && r.value.stmt == (if text.Handle? then text.stmt else null)
                  && r.value.parameters == if parameters.Some? then parameters.value else Variants(CountOf(text))
    {
      if !conn.open {
        return Err(NoConnection);
      }
      if text.Refused? {
        return Err(SqliteError);
      }
      var stmt: Statement? := null;
      if text.Handle? {
        conn.Prepare(text.stmt);
        stmt := text.stmt;
      }
      if parameters.Some? && |parameters.value| != CountOf(text) {
        return Err(TypeMisMatch);
      }
      var cmd := new Command(conn, stmt, if parameters.Some? then parameters.value else Variants(CountOf(text)));
      return Ok(cmd);
    }

    /** select of a text: the command is a temporary, so its handle is finalized however the query
        ends. */
    method Select(text: Compiled, types: seq<Type>) returns (r: Outcome, ds: Dataset)
      requires text.Handle? ==>
                 text.stmt !in conn.live && text.stmt.pos == 0 && |text.stmt.bound| == text.stmt.paramCount
      modifies conn, if text.Handle? then {text.stmt} else {}
      ensures ds.Valid() && conn.History() == old(conn.History())
      ensures conn.State() == if conn.open && text.Handle? then old(conn.State()).(finalized := old(conn.finalized) + multiset{text.stmt})
                              else old(conn.State())
      ensures if !conn.open then r == Thrown(NoConnection)
              else if !text.Handle? then r == Thrown(SqliteError)
              else match QueryResult(text.stmt.script(Nulls(text.stmt.paramCount)), types)
                   case Ok(d) => r == Done && ds.State() == d
                   case Err(error) => r == Thrown(error)
    {
      var p := Prepare(text, None);
      if p.Err? {
        ds := new Dataset(types);
        return Thrown(p.error), ds;
      }
      ghost var was := if text.Handle? then text.stmt.bound else [];
      r, ds := Selects.Select(p.value, types, []);
      if text.Handle? { VariantsBindNulls(text.stmt, was, text.stmt.bound); }
      p.value.Destroy();
    }

    /** selectValue of a text, likewise. */
    method SelectValue(text: Compiled, t: Type) returns (r: Result<DbVal>)
      requires text.Handle? ==>
                 text.stmt !in conn.live && text.stmt.pos == 0 && |text.stmt.bound| == text.stmt.paramCount
      modifies conn, if text.Handle? then {text.stmt} else {}
      ensures conn.History() == old(conn.History())
      ensures conn.State() == if conn.open && text.Handle? then old(conn.State()).(finalized := old(conn.finalized) + multiset{text.stmt})
                              else old(conn.State())
      ensures r == if !conn.open then Err(NoConnection)
                   else if !text.Handle? then Err(SqliteError)
                   else FirstValue(text.stmt.script(Nulls(text.stmt.paramCount)), t)
      ensures conn.open && text.Handle? ==> FirstCellIs(text.stmt.script(Nulls(text.stmt.paramCount)), t, r)
    {
      var p := Prepare(text, None);
      if p.Err? {
        return Err(p.error);
      }
      ghost var was := if text.Handle? then text.stmt.bound else [];
      r := Selects.SelectValue(p.value, t);
      if text.Handle? { VariantsBindNulls(text.stmt, was, text.stmt.bound); }
      p.value.Destroy();
    }

    /** execute("BEGIN TRANSACTION"): ensureValid, then SQLite, which refuses to nest. */
    method Begin(token: nat, refused: bool) returns (r: Outcome)
      modifies conn
      ensures (Tx(), r) == ExecBegin(old(Tx()), token, refused) && Log() == old(Log()) && conn.State() == old(conn.State())
      ensures r == Done <==> old(conn.open) && old(conn.transaction).None? && !refused
      ensures conn.transaction == if r == Done then Some(token) else old(conn.transaction)
    {
      if !conn.open {
        return Thrown(NoConnection);
      }
      if conn.transaction.Some? || refused {
        return Thrown(SqliteError);
      }
      conn.transaction := Some(token);
      return Done;
    }

    /** execute("COMMIT TRANSACTION") */
    method Commit(refused: bool) returns (r: Outcome)
      modifies conn
      ensures (Tx(), Log(), r) == ExecCommit(old(Tx()), old(Log()), refused) && conn.State() == old(conn.State())
      ensures r == Done <==> old(conn.open) && old(conn.transaction).Some? && !refused
      ensures conn.transaction == if r == Done then None else old(conn.transaction)
      ensures conn.ledger.rolledBack == old(conn.ledger).rolledBack
      ensures conn.ledger.committed == old(conn.ledger).committed + if r == Done then multiset{old(conn.transaction).value} else multiset{}
    {
      if !conn.open {
        return Thrown(NoConnection);
      }
      if conn.transaction.None? || refused {
        return Thrown(SqliteError);
      }
      conn.ledger := conn.ledger.(committed := conn.ledger.committed + multiset{conn.transaction.value});
      conn.transaction := None;
      return Done;
    }

    /** execute("ROLLBACK TRANSACTION") */
    method Rollback() returns (r: Outcome)
      modifies conn
      ensures (Tx(), Log(), r) == ExecRollback(old(Tx()), old(Log())) && conn.State() == old(conn.State())
      ensures r == Done <==> old(conn.open) && old(conn.transaction).Some?
      ensures conn.transaction == if r == Done then None else old(conn.transaction)
      ensures conn.ledger.committed == old(conn.ledger).committed
      ensures conn.ledger.rolledBack == old(conn.ledger).rolledBack + if r == Done then multiset{old(conn.transaction).value} else multiset{}
    {
      if !conn.open {
        return Thrown(NoConnection);
      }
      if conn.transaction.None? {
        return Thrown(SqliteError);
      }
      conn.ledger := conn.ledger.(rolledBack := conn.ledger.rolledBack + multiset{conn.transaction.value});
      conn.transaction := None;
      return Done;
    }
  }

  class Transaction {
    var db: Database?

    /** The constructor ends here when BEGIN did not throw. */
    constructor (db: Database)
      ensures this.db == db
    {
      this.db := db;
    }

    /** The source must not roll back. */
    constructor Move(other: Transaction)
      modifies other
      ensures db == old(other.db) && other.db == null
    {
      db := other.db;
      new;
      other.db := null;
    }

    /** A commit that throws leaves the guard active. */
    method Commit(refused: bool) returns (r: Outcome)
      modifies this, if db == null then {} else {db.conn}
      ensures old(db) == null ==> r == Done && db == null
      ensures old(db) != null ==>
                && (old(db).Tx(), old(db).Log(), r) == ExecCommit(old(db.Tx()), old(db.Log()), refused)
                && old(db).conn.State() == old(db.conn.State())
                && db == if r == Done then null else old(db)
      ensures old(db) != null && old(db.conn.open) && old(db.conn.transaction).Some? ==>
                if refused then r == Thrown(SqliteError) && db == old(db) && db.conn.History() == old(db.conn.History())
                else
                  && r == Done && db == null && old(db).conn.transaction == None
                  && old(db).Log() == Ledger(old(db.Log()).committed + multiset{old(db.conn.transaction).value}, old(db.Log()).rolledBack)
    {
      r := Done;
      if db != null {
        r := db.Commit(refused);
        if r == Done {
          db := null;
        }
      }
    }

    /** The destructor is not allowed to throw: what ROLLBACK throws here ends the program. */
    method Destroy() returns (r: Outcome)
      modifies if db == null then {} else {db.conn}
      ensures db == null ==> r == Done
      ensures db != null ==>
                (db.Tx(), db.Log(), r) == ExecRollback(old(db.Tx()), old(db.Log())) && db.conn.State() == old(db.conn.State())
      ensures db != null && old(db.conn.open) && old(db.conn.transaction).Some? ==>
                && r == Done && db.conn.transaction == None
                && db.Log() == Ledger(old(db.Log()).committed, old(db.Log()).rolledBack + multiset{old(db.conn.transaction).value})
    {
      r := Done;
      if db != null {
        r := db.Rollback();
      }
    }
  }

  /** beginTransaction: no guard exists when BEGIN throws. */
  method BeginTransaction(db: Database, token: nat, refused: bool) returns (r: Result<Transaction>)
    modifies db.conn
    ensures var (s, o) := ExecBegin(old(db.Tx()), token, refused);
            db.Tx() == s && db.Log() == old(db.Log()) && (if o == Done then r.Ok? && fresh(r.value) && r.value.db == db else r == Err(o.error))
    ensures r.Ok? <==> old(db.conn.open) && old(db.conn.transaction).None? && !refused
  {
    var o := db.Begin(token, refused);
    if o != Done {
      return Err(o.error);
    }
    var t := new Transaction(db);
    return Ok(t);
  }
}
