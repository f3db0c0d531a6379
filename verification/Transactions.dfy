/** The transaction guard over every run (src/sl3/database.cpp): how each BEGIN ends, when that is
    by its guard, and when a guard brings the program down. */
module Transactions {
  import opened Connections
  import opened Results

  type Id = nat

  /** A Database as far as transactions go: whether its connection is valid, and which
      transaction SQLite has open on it. A transaction is named by the BEGIN that started it. */
  datatype DbState = DbState(open: bool, active: Option<Id>)

  /** A guard points to a Database, until it has committed or was moved from. The number of its
      BEGIN is not in the source; it says which transaction the guard stands for. */
  datatype Guard = Guard(db: Option<Id>, token: Id)

  /** execute("BEGIN TRANSACTION"), with what SQLite may refuse besides nesting. */
  function ExecBegin(d: DbState, token: Id, refused: bool): (DbState, Outcome) {
    if !d.open then (d, Thrown(NoConnection))
    else if d.active.Some? || refused then (d, Thrown(SqliteError))
    else (d.(active := Some(token)), Done)
  }

  /** execute("COMMIT TRANSACTION"): the changes of the open transaction stay. */
  function ExecCommit(d: DbState, l: Ledger, refused: bool): (DbState, Ledger, Outcome) {
    if !d.open then (d, l, Thrown(NoConnection))
    else if d.active.None? || refused then (d, l, Thrown(SqliteError))
    else (d.(active := None), l.(committed := l.committed + multiset{d.active.value}), Done)
  }

  /** execute("ROLLBACK TRANSACTION"): they are undone. Refused only when nothing is open. */
  function ExecRollback(d: DbState, l: Ledger): (DbState, Ledger, Outcome) {
    if !d.open then (d, l, Thrown(NoConnection))
    else if d.active.None? then (d, l, Thrown(SqliteError))
    else (d.(active := None), RolledBack(l, d.active), Done)
  }

  /** What SQLite decides about a statement decides how it ends; the connection is asked first. */
  lemma StatementsExactly(d: DbState, l: Ledger, token: Id, refused: bool)
    ensures !d.open ==>
              && ExecBegin(d, token, refused) == (d, Thrown(NoConnection))
              && ExecCommit(d, l, refused) == ExecRollback(d, l) == (d, l, Thrown(NoConnection))
    ensures d.open && d.active.Some? ==>
              && ExecBegin(d, token, refused) == (d, Thrown(SqliteError))
              && ExecRollback(d, l) == (DbState(true, None), Ledger(l.committed, l.rolledBack + multiset{d.active.value}), Done)
              && ExecCommit(d, l, true) == (d, l, Thrown(SqliteError))
              && ExecCommit(d, l, false) == (DbState(true, None), Ledger(l.committed + multiset{d.active.value}, l.rolledBack), Done)
    ensures d.open && d.active.None? ==>
              && ExecBegin(d, token, true) == (d, Thrown(SqliteError))
              && ExecBegin(d, token, false) == (DbState(true, Some(token)), Done)
              && ExecCommit(d, l, refused) == ExecRollback(d, l) == (d, l, Thrown(SqliteError))
  {
  }

  // ----- every run

  type Dbs = map<Id, DbState>
  type Guards = map<Id, Guard>

  /** Databases and guards are numbered as they are constructed, so no number is used twice.
      crashed: an exception left a destructor, or a destroyed Database was used. */
  datatype World = World(
    dbs: Dbs,
    guards: Guards,
    begun: set<Id>,
    ledger: Ledger,
    crashed: bool,
    next: Id)

  const START := World(map[], map[], {}, NOTHING_ENDED, false, 0)

  datatype Call =
    | Open
    | MoveDatabase(db: Id)
    | DestroyDatabase(db: Id)
    | SqliteRollsBack(db: Id)
    | Begin(db: Id, refused: bool)
    | MoveGuard(guard: Id)
    | Commit(guard: Id, refused: bool)
    | DestroyGuard(guard: Id)

  predicate Possible(w: World, c: Call) {
    !w.crashed &&
    match c
    case Open => true
    case MoveDatabase(d) => d in w.dbs
    case DestroyDatabase(d) => d in w.dbs
    case SqliteRollsBack(d) => d in w.dbs
    case Begin(d, _) => d in w.dbs
    case MoveGuard(g) => g in w.guards
    case Commit(g, _) => g in w.guards
    case DestroyGuard(g) => g in w.guards
  }

  function Crash(w: World): World {
    w.(crashed := true)
  }

  /** The source of the move gets an invalid connection. */
  function Moved(dbs: Dbs, d: Id, n: Id): Dbs
    requires d in dbs
  {
    dbs[n := dbs[d]][d := DbState(false, None)]
  }

  function Ended(dbs: Dbs, d: Id): Dbs
    requires d in dbs
  {
    dbs[d := dbs[d].(active := None)]
  }

  function Started(dbs: Dbs, d: Id, t: Id): Dbs
    requires d in dbs
  {
    dbs[d := dbs[d].(active := Some(t))]
  }

  /** A guard that has committed, was moved from or is gone is kept as one that points nowhere. */
  function LetGo(gs: Guards, g: Id): Guards
    requires g in gs
  {
    gs[g := gs[g].(db := None)]
  }

  function GuardMoved(gs: Guards, g: Id, n: Id): Guards
    requires g in gs
  {
    LetGo(gs[n := gs[g]], g)
  }

  function Began(w: World, d: Id): World
    requires d in w.dbs
  {
    w.(dbs := Started(w.dbs, d, w.next),
       guards := w.guards[w.next := Guard(Some(d), w.next)],
       begun := w.begun + {w.next},
       next := w.next + 1)
  }

  function Committed(w: World, g: Id, refused: bool): World
    requires g in w.guards
  {
    var p := w.guards[g].db;
    if p.None? then w
    else if p.value !in w.dbs then Crash(w)
    else
      var (d, l, o) := ExecCommit(w.dbs[p.value], w.ledger, refused);
      if o == Done then w.(dbs := w.dbs[p.value := d], ledger := l, guards := LetGo(w.guards, g)) else w
  }

  function GuardDestroyed(w: World, g: Id): World
    requires g in w.guards
  {
    var p := w.guards[g].db;
    if p.None? then w
    else if p.value !in w.dbs then Crash(w)
    else
      var (d, l, o) := ExecRollback(w.dbs[p.value], w.ledger);
      if o == Done then w.(dbs := w.dbs[p.value := d], ledger := l, guards := LetGo(w.guards, g)) else Crash(w)
  }

  /** Closing a connection rolls back what is open on it. */
  function Step(w: World, c: Call): World
    requires Possible(w, c)
  {
    match c
    case Open => w.(dbs := w.dbs[w.next := DbState(true, None)], next := w.next + 1)
    case MoveDatabase(d) => w.(dbs := Moved(w.dbs, d, w.next), next := w.next + 1)
    case DestroyDatabase(d) => w.(dbs := w.dbs - {d}, ledger := RolledBack(w.ledger, w.dbs[d].active))
    case SqliteRollsBack(d) => w.(dbs := Ended(w.dbs, d), ledger := RolledBack(w.ledger, w.dbs[d].active))
    case Begin(d, refused) => if ExecBegin(w.dbs[d], w.next, refused).1 == Done then Began(w, d) else w
    case MoveGuard(g) => w.(guards := GuardMoved(w.guards, g, w.next), next := w.next + 1)
    case Commit(g, refused) => Committed(w, g, refused)
    case DestroyGuard(g) => GuardDestroyed(w, g)
  }

  function Run(w: World, calls: seq<Call>): World
    decreases |calls|
  {
    if calls == [] then w
    else Run(if Possible(w, calls[0]) then Step(w, calls[0]) else w, calls[1..])
  }

  ghost predicate Active(gs: Guards, g: Id) {
    g in gs && gs[g].db.Some?
  }

  /** The Database is moved or destroyed, or its transaction ended, under an active guard. */
  ghost predicate PullsAway(w: World, c: Call) {
    (c.MoveDatabase? || c.DestroyDatabase? || c.SqliteRollsBack?)
    && exists g :: Active(w.guards, g) && w.guards[g].db == Some(c.db)
  }

  /** A commit on the guard of transaction t returns. */
  ghost predicate CommitReturns(w: World, c: Call, t: Id) {
    c.Commit? && Active(w.guards, c.guard) && w.guards[c.guard].token == t &&
    var d := w.guards[c.guard].db.value;
    d in w.dbs && w.dbs[d].open && w.dbs[d].active.Some? && !c.refused
  }

  /** The guard of transaction t is destroyed while it is active. */
  ghost predicate DestroyedActive(w: World, c: Call, t: Id) {
    c.DestroyGuard? && Active(w.guards, c.guard) && w.guards[c.guard].token == t
  }

  /** A commit on an active guard whose Database has a transaction open: SQLite's answer decides. */
  lemma CommitExactly(w: World, g: Id, refused: bool)
    requires Possible(w, Commit(g, refused)) && Active(w.guards, g)
    requires w.guards[g].db.value in w.dbs && w.dbs[w.guards[g].db.value].open && w.dbs[w.guards[g].db.value].active.Some?
    ensures var v, d := Step(w, Commit(g, refused)), w.guards[g].db.value;
            var t := w.dbs[d].active.value;
            if refused then v == w
            else
              && v.ledger == Ledger(w.ledger.committed + multiset{t}, w.ledger.rolledBack)
              && v.dbs == w.dbs[d := DbState(true, None)]
              && v.guards == w.guards[g := Guard(None, w.guards[g].token)]
              && v.begun == w.begun && !v.crashed && v.next == w.next
  {
  }

  /** The destructor of such a guard rolls back. */
  lemma DestroyExactly(w: World, g: Id)
    requires Possible(w, DestroyGuard(g)) && Active(w.guards, g)
    requires w.guards[g].db.value in w.dbs && w.dbs[w.guards[g].db.value].open && w.dbs[w.guards[g].db.value].active.Some?
    ensures var v, d := Step(w, DestroyGuard(g)), w.guards[g].db.value;
            var t := w.dbs[d].active.value;
            && v.ledger == Ledger(w.ledger.committed, w.ledger.rolledBack + multiset{t})
            && v.dbs == w.dbs[d := DbState(true, None)]
            && v.guards == w.guards[g := Guard(None, w.guards[g].token)]
            && v.begun == w.begun && !v.crashed && v.next == w.next
  {
  }

  /** A guard that is moved hands over its Database and its transaction, and ends nothing any more. */
  lemma MoveGuardExactly(w: World, g: Id)
    requires Possible(w, MoveGuard(g)) && FreshGuards(w.guards, w.next)
    ensures var v := Step(w, MoveGuard(g));
            && w.next in v.guards && v.guards[w.next] == w.guards[g]
            && v.guards[g] == Guard(None, w.guards[g].token)
            && (forall h :: h in w.guards && h != g ==> h in v.guards && v.guards[h] == w.guards[h])
            && v.dbs == w.dbs && v.ledger == w.ledger && v.begun == w.begun && !v.crashed
            && Possible(v, Commit(g, false)) && Step(v, Commit(g, false)) == v == Step(v, DestroyGuard(g))
  {
  }

  /** BEGIN gives a guard exactly if it is accepted and nothing is open on the Database. */
  lemma BeginExactly(w: World, d: Id, refused: bool)
    requires Possible(w, Begin(d, refused))
    ensures var v := Step(w, Begin(d, refused));
            if w.dbs[d].open && w.dbs[d].active.None? && !refused then
              && v.dbs == w.dbs[d := DbState(true, Some(w.next))]
              && v.guards == w.guards[w.next := Guard(Some(d), w.next)]
              && v.begun == w.begun + {w.next} && v.ledger == w.ledger && !v.crashed
            else v == w
  {
  }

  ghost predicate EverPullsAway(w: World, calls: seq<Call>)
    decreases |calls|
  {
    calls != [] &&
    if !Possible(w, calls[0]) then EverPullsAway(w, calls[1..])
    else PullsAway(w, calls[0]) || EverPullsAway(Step(w, calls[0]), calls[1..])
  }

  ghost predicate EverCommits(w: World, calls: seq<Call>, t: Id)
    decreases |calls|
  {
    calls != [] &&
    if !Possible(w, calls[0]) then EverCommits(w, calls[1..], t)
    else CommitReturns(w, calls[0], t) || EverCommits(Step(w, calls[0]), calls[1..], t)
  }

  ghost predicate EverDestroyedActive(w: World, calls: seq<Call>, t: Id)
    decreases |calls|
  {
    calls != [] &&
    if !Possible(w, calls[0]) then EverDestroyedActive(w, calls[1..], t)
    else DestroyedActive(w, calls[0], t) || EverDestroyedActive(Step(w, calls[0]), calls[1..], t)
  }

  // ----- what holds in every run, part by part

  ghost predicate FreshDbs(dbs: Dbs, n: Id) {
    forall d :: d in dbs ==> d < n && (dbs[d].active.Some? ==> dbs[d].active.value < n)
  }

  ghost predicate FreshGuards(gs: Guards, n: Id) {
    forall g :: g in gs ==> g < n && gs[g].token < n && (gs[g].db.Some? ==> gs[g].db.value < n)
  }

  ghost predicate HasGuard(gs: Guards, t: Id) {
    exists g :: Active(gs, g) && gs[g].token == t
  }

  /** An open transaction has an active guard somewhere. */
  ghost predicate GuardsExist(dbs: Dbs, gs: Guards) {
    forall d :: d in dbs && dbs[d].active.Some? ==> dbs[d].open && HasGuard(gs, dbs[d].active.value)
  }

  /** Different active guards stand for different transactions. */
  ghost predicate TokensDiffer(gs: Guards) {
    forall g, h :: Active(gs, g) && Active(gs, h) && g != h ==> gs[g].token != gs[h].token
  }

  /** A transaction is open on one Database only. */
  ghost predicate OneDatabase(dbs: Dbs) {
    forall d, e :: d in dbs && e in dbs && d != e && dbs[d].active.Some? ==> dbs[e].active != dbs[d].active
  }

  /** While the Database of a guard is valid, the guard's transaction is open on no other. */
  ghost predicate NotElsewhere(dbs: Dbs, guard: Guard)
    requires guard.db.Some?
  {
    var d := guard.db.value;
    d in dbs && dbs[d].open ==> forall e :: e in dbs && dbs[e].active == Some(guard.token) ==> e == d
  }

  ghost predicate NoneElsewhere(dbs: Dbs, gs: Guards) {
    forall g :: Active(gs, g) ==> NotElsewhere(dbs, gs[g])
  }

  ghost predicate Weak(w: World) {
    && FreshDbs(w.dbs, w.next) && FreshGuards(w.guards, w.next) && (forall t :: t in w.begun ==> t < w.next)
    && GuardsExist(w.dbs, w.guards) && TokensDiffer(w.guards)
    && OneDatabase(w.dbs) && NoneElsewhere(w.dbs, w.guards)
  }

  lemma MovedOneDatabase(dbs: Dbs, d: Id, n: Id)
    requires OneDatabase(dbs) && d in dbs && n !in dbs
    ensures OneDatabase(Moved(dbs, d, n))
  {
  }

  lemma MovedGuardsExist(dbs: Dbs, gs: Guards, d: Id, n: Id)
    requires GuardsExist(dbs, gs) && d in dbs
    ensures GuardsExist(Moved(dbs, d, n), gs)
  {
  }

  lemma MovedNotElsewhere(dbs: Dbs, guard: Guard, d: Id, n: Id)
    requires guard.db.Some? && NotElsewhere(dbs, guard) && d in dbs && n !in dbs && guard.db != Some(n)
    ensures NotElsewhere(Moved(dbs, d, n), guard)
  {
  }

  lemma MoveDatabaseKeepsWeak(w: World, d: Id)
    requires Weak(w) && Possible(w, MoveDatabase(d))
    ensures Weak(Step(w, MoveDatabase(d)))
  {
    MovedOneDatabase(w.dbs, d, w.next);
    MovedGuardsExist(w.dbs, w.guards, d, w.next);
    forall g | Active(w.guards, g) ensures NotElsewhere(Moved(w.dbs, d, w.next), w.guards[g]) {
      MovedNotElsewhere(w.dbs, w.guards[g], d, w.next);
    }
  }

  lemma OpenKeepsWeak(w: World)
    requires Weak(w) && !w.crashed
    ensures Weak(Step(w, Open))
  {
    var dbs := Step(w, Open).dbs;
    forall g | Active(w.guards, g) ensures NotElsewhere(dbs, w.guards[g]) {
      assert NotElsewhere(w.dbs, w.guards[g]);
    }
  }

  /** Databases only lost their transaction, or went away. */
  ghost predicate Fewer(dbs: Dbs, after: Dbs) {
    forall d :: d in after ==> d in dbs && after[d].open == dbs[d].open && after[d].active in {None, dbs[d].active}
  }

  lemma FewerKeepsNotElsewhere(dbs: Dbs, after: Dbs, guard: Guard)
    requires guard.db.Some? && NotElsewhere(dbs, guard) && Fewer(dbs, after)
    ensures NotElsewhere(after, guard)
  {
  }

  lemma FewerKeepsWeak(w: World, after: Dbs, l: Ledger)
    requires Weak(w) && Fewer(w.dbs, after)
    ensures Weak(w.(dbs := after, ledger := l))
  {
    forall g | Active(w.guards, g) ensures NotElsewhere(after, w.guards[g]) {
      FewerKeepsNotElsewhere(w.dbs, after, w.guards[g]);
    }
  }

  lemma BeganGuardsExist(w: World, d: Id)
    requires GuardsExist(w.dbs, w.guards) && FreshGuards(w.guards, w.next) && d in w.dbs && w.dbs[d].open
    ensures GuardsExist(Began(w, d).dbs, Began(w, d).guards)
  {
    var v := Began(w, d);
    assert Active(v.guards, w.next);
    forall t: Id | HasGuard(w.guards, t) ensures HasGuard(v.guards, t) {
      var g :| Active(w.guards, g) && w.guards[g].token == t;
      assert Active(v.guards, g);
    }
  }

  lemma BeganNoneElsewhere(w: World, d: Id)
    requires NoneElsewhere(w.dbs, w.guards) && FreshGuards(w.guards, w.next) && FreshDbs(w.dbs, w.next)
    requires d in w.dbs && w.dbs[d].active.None?
    ensures NoneElsewhere(Began(w, d).dbs, Began(w, d).guards)
  {
    var v := Began(w, d);
    forall g | Active(v.guards, g) ensures NotElsewhere(v.dbs, v.guards[g]) {
      if g != w.next { assert Active(w.guards, g) && NotElsewhere(w.dbs, w.guards[g]); }
    }
  }

  lemma BeganTokensDiffer(w: World, d: Id)
    requires TokensDiffer(w.guards) && FreshGuards(w.guards, w.next) && d in w.dbs
    ensures TokensDiffer(Began(w, d).guards)
  {
    var gs := Began(w, d).guards;
    assert forall g :: Active(gs, g) && g != w.next ==> Active(w.guards, g);
  }

  lemma BeganKeepsWeak(w: World, d: Id)
    requires Weak(w) && d in w.dbs && w.dbs[d].open && w.dbs[d].active.None?
    ensures Weak(Began(w, d))
  {
    BeganGuardsExist(w, d);
    BeganNoneElsewhere(w, d);
    BeganTokensDiffer(w, d);
  }

  /** Who is active after a guard was moved: the new one instead of the old one. */
  lemma GuardMovedActive(gs: Guards, g: Id, n: Id, h: Id)
    requires g in gs && n !in gs
    ensures var after := GuardMoved(gs, g, n);
            Active(after, h) <==> if h == n then Active(gs, g) else h != g && Active(gs, h)
  {
  }

  lemma GuardMovedHasGuard(gs: Guards, g: Id, n: Id, t: Id)
    requires g in gs && n !in gs && HasGuard(gs, t)
    ensures HasGuard(GuardMoved(gs, g, n), t)
  {
    var h :| Active(gs, h) && gs[h].token == t;
    var k := if h == g then n else h;
    assert Active(GuardMoved(gs, g, n), k) && GuardMoved(gs, g, n)[k].token == t;
  }

  lemma GuardMovedTokensDiffer(gs: Guards, g: Id, n: Id)
    requires TokensDiffer(gs) && g in gs && n !in gs
    ensures TokensDiffer(GuardMoved(gs, g, n))
  {
    forall h, k | Active(GuardMoved(gs, g, n), h) && Active(GuardMoved(gs, g, n), k) && h != k
      ensures GuardMoved(gs, g, n)[h].token != GuardMoved(gs, g, n)[k].token
    {
      GuardMovedActive(gs, g, n, h);
      GuardMovedActive(gs, g, n, k);
    }
  }

  lemma MoveGuardKeepsWeak(w: World, g: Id)
    requires Weak(w) && Possible(w, MoveGuard(g))
    ensures Weak(Step(w, MoveGuard(g)))
  {
    var gs := GuardMoved(w.guards, g, w.next);
    GuardMovedTokensDiffer(w.guards, g, w.next);
    forall t: Id | HasGuard(w.guards, t) ensures HasGuard(gs, t) { GuardMovedHasGuard(w.guards, g, w.next, t); }
    forall h | Active(gs, h) ensures NotElsewhere(w.dbs, gs[h]) {
      GuardMovedActive(w.guards, g, w.next, h);
      assert NotElsewhere(w.dbs, w.guards[if h == w.next then g else h]);
    }
  }

  /** A guard let go after the transaction of its Database ended. Another guard may have begun that
      transaction, and stays active. */
  lemma LetGoGuardsExist(dbs: Dbs, gs: Guards, d: Id, g: Id)
    requires GuardsExist(dbs, gs) && TokensDiffer(gs) && Active(gs, g) && gs[g].db == Some(d) && d in dbs && dbs[d].open
    requires NotElsewhere(dbs, gs[g])
    ensures GuardsExist(Ended(dbs, d), LetGo(gs, g))
  {
    var after := LetGo(gs, g);
    forall e | e in dbs && e != d && dbs[e].active.Some? ensures HasGuard(after, dbs[e].active.value) {
      var h :| Active(gs, h) && gs[h].token == dbs[e].active.value;
      assert h != g;
      assert Active(after, h);
    }
  }

  lemma LetGoKeepsWeak(w: World, d: Id, g: Id, l: Ledger)
    requires Weak(w) && Active(w.guards, g) && w.guards[g].db == Some(d) && d in w.dbs && w.dbs[d].open
    ensures Weak(w.(dbs := Ended(w.dbs, d), guards := LetGo(w.guards, g), ledger := l))
  {
    var dbs, gs := Ended(w.dbs, d), LetGo(w.guards, g);
    assert forall h :: Active(gs, h) ==> h != g && Active(w.guards, h);
    LetGoGuardsExist(w.dbs, w.guards, d, g);
    forall h | Active(gs, h) ensures NotElsewhere(dbs, gs[h]) {
      FewerKeepsNotElsewhere(w.dbs, dbs, w.guards[h]);
    }
  }

  lemma StepKeepsWeak(w: World, c: Call)
    requires Weak(w) && Possible(w, c)
    ensures Step(w, c).crashed || Weak(Step(w, c))
  {
    match c
    case Open => OpenKeepsWeak(w);
    case MoveDatabase(d) => MoveDatabaseKeepsWeak(w, d);
    case DestroyDatabase(d) => FewerKeepsWeak(w, w.dbs - {d}, RolledBack(w.ledger, w.dbs[d].active));
    case SqliteRollsBack(d) => FewerKeepsWeak(w, Ended(w.dbs, d), RolledBack(w.ledger, w.dbs[d].active));
    case Begin(d, _) => if w.dbs[d].open && w.dbs[d].active.None? { BeganKeepsWeak(w, d); }
    case MoveGuard(g) => MoveGuardKeepsWeak(w, g);
    case Commit(g, _) => GuardCallKeepsWeak(w, g, Step(w, c));
    case DestroyGuard(g) => GuardCallKeepsWeak(w, g, Step(w, c));
  }

  /** A call on a guard does nothing, crashes, or ends the transaction of the guard's Database. */
  lemma GuardCallKeepsWeak(w: World, g: Id, v: World)
    requires Weak(w) && g in w.guards
    requires v == w || v.crashed || EndsByGuard(w, g, v)
    ensures v.crashed || Weak(v)
  {
    if EndsByGuard(w, g, v) { LetGoKeepsWeak(w, w.guards[g].db.value, g, v.ledger); }
  }

  ghost predicate EndsByGuard(w: World, g: Id, v: World) {
    Active(w.guards, g) &&
    var d := w.guards[g].db.value;
    d in w.dbs && w.dbs[d].open && w.dbs[d].active.Some?
    && v == w.(dbs := Ended(w.dbs, d), guards := LetGo(w.guards, g), ledger := v.ledger)
  }

  // ----- every BEGIN ends once: committed, or rolled back, or still open

  ghost predicate OpenOn(dbs: Dbs, t: Id) {
    exists d :: d in dbs && dbs[d].active == Some(t)
  }

  function Endings(l: Ledger, t: Id): nat {
    l.committed[t] + l.rolledBack[t]
  }

  ghost predicate Conserved(w: World) {
    forall t: Id :: Endings(w.ledger, t) + (if OpenOn(w.dbs, t) then 1 else 0) == if t in w.begun then 1 else 0
  }

  /** Databases without a transaction come and go. */
  lemma SameOpen(dbs: Dbs, after: Dbs, t: Id)
    requires forall d :: d in dbs && dbs[d].active.Some? ==> d in after && after[d].active == dbs[d].active
    requires forall d :: d in after && after[d].active.Some? ==> d in dbs && after[d].active == dbs[d].active
    ensures OpenOn(after, t) <==> OpenOn(dbs, t)
  {
  }

  lemma MovedOpen(dbs: Dbs, d: Id, n: Id, t: Id)
    requires d in dbs && n !in dbs
    ensures OpenOn(Moved(dbs, d, n), t) <==> OpenOn(dbs, t)
  {
    var after := Moved(dbs, d, n);
    if OpenOn(dbs, t) {
      var e :| e in dbs && dbs[e].active == Some(t);
      assert after[if e == d then n else e].active == Some(t);
    }
    if OpenOn(after, t) {
      var e :| e in after && after[e].active == Some(t);
      assert dbs[if e == n then d else e].active == Some(t);
    }
  }

  /** The transaction of d is open no more, the others are what they were. */
  lemma EndedOpen(dbs: Dbs, after: Dbs, d: Id, t: Id)
    requires OneDatabase(dbs) && d in dbs && after in {dbs - {d}, Ended(dbs, d)}
    ensures OpenOn(after, t) <==> OpenOn(dbs, t) && dbs[d].active != Some(t)
  {
    if OpenOn(dbs, t) && dbs[d].active != Some(t) {
      var e :| e in dbs && dbs[e].active == Some(t);
      assert after[e].active == Some(t);
    }
    if OpenOn(after, t) {
      var e :| e in after && after[e].active == Some(t);
      assert e != d && dbs[e].active == Some(t);
    }
  }

  lemma StartedOpen(dbs: Dbs, d: Id, n: Id, t: Id)
    requires d in dbs && dbs[d].active.None?
    ensures OpenOn(Started(dbs, d, n), t) <==> OpenOn(dbs, t) || t == n
  {
    var after := Started(dbs, d, n);
    if t == n { assert after[d].active == Some(t); }
    if OpenOn(dbs, t) {
      var e :| e in dbs && dbs[e].active == Some(t);
      assert after[e].active == Some(t);
    }
  }

  /** Where a transaction ends it is entered in the ledger, as committed or as rolled back. */
  lemma EndingConserves(w: World, v: World, d: Id)
    requires Conserved(w) && OneDatabase(w.dbs) && d in w.dbs && v.dbs in {w.dbs - {d}, Ended(w.dbs, d)} && v.begun == w.begun
    requires forall t: Id :: Endings(v.ledger, t) == Endings(w.ledger, t) + if w.dbs[d].active == Some(t) then 1 else 0
    ensures Conserved(v)
  {
    forall t: Id ensures Endings(v.ledger, t) + (if OpenOn(v.dbs, t) then 1 else 0) == if t in v.begun then 1 else 0 {
      EndedOpen(w.dbs, v.dbs, d, t);
    }
  }

  lemma BeganConserves(w: World, d: Id)
    requires Conserved(w) && Weak(w) && d in w.dbs && w.dbs[d].active.None?
    ensures Conserved(Began(w, d))
  {
    var v := Began(w, d);
    forall t: Id ensures Endings(v.ledger, t) + (if OpenOn(v.dbs, t) then 1 else 0) == if t in v.begun then 1 else 0 {
      StartedOpen(w.dbs, d, w.next, t);
    }
  }

  lemma GuardCallConserves(w: World, c: Call, g: Id)
    requires Conserved(w) && Weak(w) && Possible(w, c) && (c.Commit? || c.DestroyGuard?) && c.guard == g
    ensures Conserved(Step(w, c))
  {
    var v := Step(w, c);
    if v != w && !v.crashed {
      EndingConserves(w, v, w.guards[g].db.value);
    }
  }

  lemma StepConserves(w: World, c: Call)
    requires Conserved(w) && Weak(w) && Possible(w, c)
    ensures Conserved(Step(w, c))
  {
    var v := Step(w, c);
    match c
    case Open => forall t ensures OpenOn(v.dbs, t) <==> OpenOn(w.dbs, t) { SameOpen(w.dbs, v.dbs, t); }
    case MoveDatabase(d) => forall t ensures OpenOn(v.dbs, t) <==> OpenOn(w.dbs, t) { MovedOpen(w.dbs, d, w.next, t); }
    case DestroyDatabase(d) => EndingConserves(w, v, d);
    case SqliteRollsBack(d) => EndingConserves(w, v, d);
    case Begin(d, refused) => if w.dbs[d].active.None? { BeganConserves(w, d); }
    case MoveGuard(g) =>
    case Commit(g, _) => GuardCallConserves(w, c, g);
    case DestroyGuard(g) => GuardCallConserves(w, c, g);
  }

  lemma {:induction false} RunConserves(w: World, calls: seq<Call>)
    requires Conserved(w) && (w.crashed || Weak(w))
    ensures Conserved(Run(w, calls)) && (Run(w, calls).crashed || Weak(Run(w, calls)))
    decreases |calls|
  {
    if calls != [] {
      if Possible(w, calls[0]) {
        StepKeepsWeak(w, calls[0]);
        StepConserves(w, calls[0]);
        RunConserves(Step(w, calls[0]), calls[1..]);
      } else {
        RunConserves(w, calls[1..]);
      }
    }
  }

  // ----- no Database is pulled away: the guards decide how, and nothing crashes

  /** The guard still stands for the transaction that is open on its Database. */
  ghost predicate Matched(dbs: Dbs, guard: Guard)
    requires guard.db.Some?
  {
    var d := guard.db.value;
    d in dbs && dbs[d].open && dbs[d].active == Some(guard.token)
  }

  ghost predicate Balanced(w: World) {
    Weak(w) && !w.crashed && forall g :: Active(w.guards, g) ==> Matched(w.dbs, w.guards[g])
  }

  /** A Database that no active guard points to has no transaction open. */
  lemma NoGuardNoTransaction(w: World, d: Id)
    requires Balanced(w) && d in w.dbs && forall g :: Active(w.guards, g) ==> w.guards[g].db != Some(d)
    ensures w.dbs[d].active.None?
  {
  }

  lemma DatabaseCallKeepsBalance(w: World, c: Call)
    requires Balanced(w) && Possible(w, c) && !PullsAway(w, c)
    requires c.Open? || c.MoveDatabase? || c.DestroyDatabase? || c.SqliteRollsBack?
    ensures Balanced(Step(w, c)) && Step(w, c).ledger == w.ledger
  {
    var v := Step(w, c);
    StepKeepsWeak(w, c);
    if !c.Open? { NoGuardNoTransaction(w, c.db); }
    forall g | Active(w.guards, g) ensures Matched(v.dbs, w.guards[g]) { assert Matched(w.dbs, w.guards[g]); }
  }

  lemma BeganKeepsBalance(w: World, d: Id)
    requires Balanced(w) && d in w.dbs && w.dbs[d].open && w.dbs[d].active.None?
    ensures Balanced(Began(w, d))
  {
    var v := Began(w, d);
    BeganKeepsWeak(w, d);
    forall g | Active(v.guards, g) ensures Matched(v.dbs, v.guards[g]) {
      if g != w.next { assert Active(w.guards, g) && Matched(w.dbs, w.guards[g]); }
    }
  }

  lemma MoveGuardKeepsBalance(w: World, g: Id)
    requires Balanced(w) && g in w.guards
    ensures Balanced(Step(w, MoveGuard(g)))
  {
    var gs := GuardMoved(w.guards, g, w.next);
    MoveGuardKeepsWeak(w, g);
    forall h | Active(gs, h) ensures Matched(w.dbs, gs[h]) {
      GuardMovedActive(w.guards, g, w.next, h);
      assert Matched(w.dbs, w.guards[if h == w.next then g else h]);
    }
  }

  /** What an active guard ends is its own transaction. */
  lemma GuardCallKeepsBalance(w: World, c: Call)
    requires Balanced(w) && Possible(w, c) && (c.Commit? || c.DestroyGuard?)
    ensures Balanced(Step(w, c))
    ensures forall t :: t in Step(w, c).ledger.committed <==> t in w.ledger.committed || CommitReturns(w, c, t)
    ensures forall t :: t in Step(w, c).ledger.rolledBack <==> t in w.ledger.rolledBack || DestroyedActive(w, c, t)
  {
    var v := Step(w, c);
    if Active(w.guards, c.guard) {
      assert Matched(w.dbs, w.guards[c.guard]);
      GuardCallKeepsWeak(w, c.guard, v);
      forall h | Active(v.guards, h) ensures Matched(v.dbs, v.guards[h]) {
        assert Active(w.guards, h) && Matched(w.dbs, w.guards[h]);
      }
    }
  }

  lemma StepKeepsBalance(w: World, c: Call)
    requires Balanced(w) && Possible(w, c) && !PullsAway(w, c)
    ensures Balanced(Step(w, c))
    ensures forall t :: t in Step(w, c).ledger.committed <==> t in w.ledger.committed || CommitReturns(w, c, t)
    ensures forall t :: t in Step(w, c).ledger.rolledBack <==> t in w.ledger.rolledBack || DestroyedActive(w, c, t)
  {
    match c
    case Begin(d, refused) => if ExecBegin(w.dbs[d], w.next, refused).1 == Done { BeganKeepsBalance(w, d); }
    case MoveGuard(g) => MoveGuardKeepsBalance(w, g);
    case Commit(_, _) => GuardCallKeepsBalance(w, c);
    case DestroyGuard(_) => GuardCallKeepsBalance(w, c);
    case _ => DatabaseCallKeepsBalance(w, c);
  }

  lemma {:induction false} RunKeepsBalance(w: World, calls: seq<Call>, t: Id)
    requires Balanced(w) && !EverPullsAway(w, calls)
    ensures Balanced(Run(w, calls))
    ensures t in Run(w, calls).ledger.committed <==> t in w.ledger.committed || EverCommits(w, calls, t)
    ensures t in Run(w, calls).ledger.rolledBack <==> t in w.ledger.rolledBack || EverDestroyedActive(w, calls, t)
    decreases |calls|
  {
    if calls != [] {
      if Possible(w, calls[0]) {
        StepKeepsBalance(w, calls[0]);
        RunKeepsBalance(Step(w, calls[0]), calls[1..], t);
      } else {
        RunKeepsBalance(w, calls[1..], t);
      }
    }
  }

  // ----- one is pulled away: the program cannot end well any more

  /** Some guard is active and no longer stands for what is open on its Database. */
  ghost predicate Doomed(w: World) {
    w.crashed || (Weak(w) && exists g :: Active(w.guards, g) && !Matched(w.dbs, w.guards[g]))
  }

  lemma PullingAwayDooms(w: World, c: Call)
    requires Weak(w) && Possible(w, c) && PullsAway(w, c)
    ensures Doomed(Step(w, c))
  {
    StepKeepsWeak(w, c);
    var v := Step(w, c);
    var g :| Active(w.guards, g) && w.guards[g].db == Some(c.db);
    assert Active(v.guards, g) && !Matched(v.dbs, v.guards[g]);
  }

  /** After a guard ended a transaction that it did not begin, the one that did is unmatched. */
  lemma EndingStaysDoomed(w: World, g: Id, v: World)
    requires Doomed(w) && !w.crashed && EndsByGuard(w, g, v)
    ensures Doomed(v)
  {
    LetGoKeepsWeak(w, w.guards[g].db.value, g, v.ledger);
    var h :| Active(w.guards, h) && !Matched(w.dbs, w.guards[h]);
    if h != g {
      assert Active(v.guards, h) && !Matched(v.dbs, v.guards[h]);
    } else {
      var x :| Active(w.guards, x) && w.guards[x].token == w.dbs[w.guards[g].db.value].active.value;
      assert x != g && Active(v.guards, x);
      assert !Matched(v.dbs, v.guards[x]);
    }
  }

  lemma GuardCallStaysDoomed(w: World, g: Id, v: World)
    requires Doomed(w) && !w.crashed && (v == w || v.crashed || EndsByGuard(w, g, v))
    ensures Doomed(v)
  {
    if v != w && !v.crashed { EndingStaysDoomed(w, g, v); }
  }

  lemma DatabaseCallStaysDoomed(w: World, c: Call)
    requires Doomed(w) && Possible(w, c) && (c.Open? || c.MoveDatabase? || c.DestroyDatabase? || c.SqliteRollsBack?)
    requires Weak(Step(w, c))
    ensures Doomed(Step(w, c))
  {
    var v := Step(w, c);
    var h :| Active(w.guards, h) && !Matched(w.dbs, w.guards[h]);
    assert Active(v.guards, h) && !Matched(v.dbs, v.guards[h]);
  }

  lemma BeginStaysDoomed(w: World, d: Id)
    requires Doomed(w) && !w.crashed && d in w.dbs && w.dbs[d].open && w.dbs[d].active.None?
    ensures Doomed(Began(w, d))
  {
    var v := Began(w, d);
    var h :| Active(w.guards, h) && !Matched(w.dbs, w.guards[h]);
    BeganKeepsWeak(w, d);
    assert Active(v.guards, h) && !Matched(v.dbs, v.guards[h]);
  }

  lemma MoveGuardStaysDoomed(w: World, g: Id)
    requires Doomed(w) && Possible(w, MoveGuard(g))
    ensures Doomed(Step(w, MoveGuard(g)))
  {
    var gs := GuardMoved(w.guards, g, w.next);
    MoveGuardKeepsWeak(w, g);
    var h :| Active(w.guards, h) && !Matched(w.dbs, w.guards[h]);
    var k := if h == g then w.next else h;
    assert Active(gs, k) && !Matched(w.dbs, gs[k]);
  }

  lemma StepStaysDoomed(w: World, c: Call)
    requires Doomed(w) && Possible(w, c)
    ensures Doomed(Step(w, c))
  {
    StepKeepsWeak(w, c);
    match c
    case Begin(d, refused) => if ExecBegin(w.dbs[d], w.next, refused).1 == Done { BeginStaysDoomed(w, d); }
    case MoveGuard(g) => MoveGuardStaysDoomed(w, g);
    case Commit(g, _) => GuardCallStaysDoomed(w, g, Step(w, c));
    case DestroyGuard(g) => GuardCallStaysDoomed(w, g, Step(w, c));
    case _ => DatabaseCallStaysDoomed(w, c);
  }

  lemma {:induction false} RunStaysDoomed(w: World, calls: seq<Call>)
    requires Doomed(w)
    ensures Doomed(Run(w, calls))
    decreases |calls|
  {
    if calls != [] {
      if Possible(w, calls[0]) {
        StepStaysDoomed(w, calls[0]);
        RunStaysDoomed(Step(w, calls[0]), calls[1..]);
      } else {
        RunStaysDoomed(w, calls[1..]);
      }
    }
  }

  lemma {:induction false} RunBecomesDoomed(w: World, calls: seq<Call>)
    requires w.crashed || Weak(w)
    requires EverPullsAway(w, calls)
    ensures Doomed(Run(w, calls))
    decreases |calls|
  {
    if !Possible(w, calls[0]) {
      RunBecomesDoomed(w, calls[1..]);
    } else if PullsAway(w, calls[0]) {
      PullingAwayDooms(w, calls[0]);
      RunStaysDoomed(Step(w, calls[0]), calls[1..]);
    } else {
      StepKeepsWeak(w, calls[0]);
      RunBecomesDoomed(Step(w, calls[0]), calls[1..]);
    }
  }

  // ----- the main results

  /** Over every run, crashed or not, each BEGIN has come to exactly one end or is open on some
      Database, and nothing else was committed or rolled back. */
  lemma EachBeginEndsOnce(calls: seq<Call>, t: Id)
    ensures var w := Run(START, calls);
            w.ledger.committed[t] + w.ledger.rolledBack[t] + (if OpenOn(w.dbs, t) then 1 else 0) == if t in w.begun then 1 else 0
  {
    RunConserves(START, calls);
    assert Endings(Run(START, calls).ledger, t) == Run(START, calls).ledger.committed[t] + Run(START, calls).ledger.rolledBack[t];
  }

  /** As long as no Database is pulled away under an active guard: nothing crashes, a Database has
      at most one active guard, and the guard decides how its BEGIN ends. It is committed exactly
      when a commit on its guard returned, rolled back exactly when its guard was destroyed while
      it was active, and open exactly while its guard is active; one of the three, and once. */
  lemma EachBeginIsAnswered(calls: seq<Call>, t: Id)
    requires !EverPullsAway(START, calls)
    ensures var w := Run(START, calls);
            && !w.crashed
            && (forall g, h :: Active(w.guards, g) && Active(w.guards, h) && w.guards[g].db == w.guards[h].db ==> g == h)
            && (t in w.ledger.committed <==> EverCommits(START, calls, t))
            && (t in w.ledger.rolledBack <==> EverDestroyedActive(START, calls, t))
            && w.ledger.committed[t] + w.ledger.rolledBack[t] + (if HasGuard(w.guards, t) then 1 else 0)
               == if t in w.begun then 1 else 0
  {
    RunKeepsBalance(START, calls, t);
    EachBeginEndsOnce(calls, t);
    var w := Run(START, calls);
    forall g, h | Active(w.guards, g) && Active(w.guards, h) && w.guards[g].db == w.guards[h].db ensures g == h {
      assert Matched(w.dbs, w.guards[g]) && Matched(w.dbs, w.guards[h]);
    }
    if HasGuard(w.guards, t) {
      var g :| Active(w.guards, g) && w.guards[g].token == t;
      assert Matched(w.dbs, w.guards[g]);
    }
    assert HasGuard(w.guards, t) <==> OpenOn(w.dbs, t);
  }

  /** Each of the three brings a program down. */
  lemma CrashingRun(c: Call)
    requires c in {MoveDatabase(0), DestroyDatabase(0), SqliteRollsBack(0)}
    ensures Run(START, [Open, Begin(0, false), c, DestroyGuard(1)]).crashed
  {
    var w := Began(Step(START, Open), 0);
    assert Run(START, [Open, Begin(0, false), c, DestroyGuard(1)]) == Run(w, [c, DestroyGuard(1)]);
    assert Run(w, [c, DestroyGuard(1)]) == Run(Step(w, c), [DestroyGuard(1)]);
  }

  /** A run in which every guard comes to its end crashes exactly when a Database was moved,
      destroyed or rolled back by SQLite under an active guard. */
  lemma CrashesExactly(calls: seq<Call>)
    requires var w := Run(START, calls); w.crashed || forall g :: !Active(w.guards, g)
    ensures Run(START, calls).crashed <==> EverPullsAway(START, calls)
  {
    if EverPullsAway(START, calls) {
      RunBecomesDoomed(START, calls);
    } else {
      RunKeepsBalance(START, calls, 0);
    }
  }
}
