/** Who owns what, over every run: databases, commands and the statement handles of their
    shared connections (src/sl3/database.cpp, src/sl3/command.cpp, src/sl3/connection.hpp). */
module Ownership {
  import opened Connections
  import opened Results

  type Id = nat

  /** A command has its connection, and its handle if the text had a statement; a command that
      was moved from has neither. */
  datatype CommandState = CommandState(conn: Option<Id>, stmt: Option<Id>)

  /** dbs maps each Database to its connection; made maps each handle ever prepared to its
      connection; orphans are the handles whose constructor threw. Handles and connections get
      the number next, which then grows. */
  datatype World = World(
    conns: map<Id, ConnState<Id>>,
    dbs: map<Id, Id>,
    cmds: map<Id, CommandState>,
    made: map<Id, Id>,
    orphans: set<Id>,
    next: Id)

  const START := World(map[], map[], map[], map[], {}, 0)

  /** What becomes of a text: refused by SQLite, no statement, or a handle. Whether the given
      parameters have the right count matters for the last two. */
  datatype Text = Refused | Blank(countFits: bool) | Compiled(countFits: bool)

  datatype Call =
    | Open(db: Id)
    | MoveDatabase(db: Id, to: Id)
    | DestroyDatabase(db: Id)
    | Prepare(db: Id, cmd: Id, text: Text)
    | MoveCommand(cmd: Id, to: Id)
    | DestroyCommand(cmd: Id)

  /** Objects are constructed at unused places, and used while they are alive. */
  predicate Possible(w: World, c: Call) {
    match c
    case Open(db) => db !in w.dbs
    case MoveDatabase(db, to) => db in w.dbs && to !in w.dbs
    case DestroyDatabase(db) => db in w.dbs
    case Prepare(db, cmd, _) => db in w.dbs && cmd !in w.cmds
    case MoveCommand(cmd, to) => cmd in w.cmds && to !in w.cmds
    case DestroyCommand(cmd) => cmd in w.cmds
  }

  predicate Referenced(w: World, c: Id) {
    (exists d :: d in w.dbs && w.dbs[d] == c) || (exists k :: k in w.cmds && w.cmds[k].conn == Some(c))
  }

  /** The shared pointer lets go of c: with the last reference the connection's destructor runs,
      which closes once more. */
  function Release(w: World, c: Id): World
    requires c in w.conns
  {
    if Referenced(w, c) then w else w.(conns := w.conns[c := Closed(w.conns[c])])
  }

  ghost predicate WellFormed(w: World) {
    && (forall d :: d in w.dbs ==> w.dbs[d] in w.conns)
    && (forall k :: k in w.cmds && w.cmds[k].conn.Some? ==> w.cmds[k].conn.value in w.conns)
    && (forall k :: k in w.cmds && w.cmds[k].stmt.Some? ==> w.cmds[k].conn.Some?)
    && (forall c :: c in w.conns ==> c < w.next)
    && (forall s :: s in w.made ==> s < w.next && w.made[s] in w.conns)
  }

  function Opened(w: World, db: Id): World {
    w.(conns := w.conns[w.next := ConnState(true, {}, multiset{})], dbs := w.dbs[db := w.next], next := w.next + 1)
  }

  /** The source gets a new, invalid connection. */
  function DatabaseMoved(w: World, db: Id, to: Id): World
    requires db in w.dbs
  {
    w.(conns := w.conns[w.next := ConnState(false, {}, multiset{})],
       dbs := w.dbs[to := w.dbs[db]][db := w.next],
       next := w.next + 1)
  }

  function DatabaseClosed(w: World, db: Id): World
    requires WellFormed(w) && db in w.dbs
  {
    var c := w.dbs[db];
    w.(conns := w.conns[c := Closed(w.conns[c])], dbs := w.dbs - {db})
  }

  function DatabaseDestroyed(w: World, db: Id): World
    requires WellFormed(w) && db in w.dbs
  {
    Release(DatabaseClosed(w, db), w.dbs[db])
  }

  function HandleMade(w: World, c: Id): World
    requires c in w.conns
  {
    w.(conns := w.conns[c := Prepared(w.conns[c], w.next)], made := w.made[w.next := c], next := w.next + 1)
  }

  function CommandMade(w: World, cmd: Id, c: Id, stmt: Option<Id>): World {
    w.(cmds := w.cmds[cmd := CommandState(Some(c), stmt)])
  }

  /** The handle exists before the parameters are counted. */
  function DatabasePrepared(w: World, db: Id, cmd: Id, text: Text): World
    requires WellFormed(w) && db in w.dbs
  {
    var c := w.dbs[db];
    if !w.conns[c].open || text.Refused? then w
    else if text.Blank? then
      if text.countFits then CommandMade(w, cmd, c, None) else w
    else
      if text.countFits then CommandMade(HandleMade(w, c), cmd, c, Some(w.next))
      else HandleMade(w, c).(orphans := w.orphans + {w.next})
  }

  function CommandMoved(w: World, cmd: Id, to: Id): World
    requires cmd in w.cmds
  {
    w.(cmds := w.cmds[to := w.cmds[cmd]][cmd := CommandState(None, None)])
  }

  /** Only an open connection is told: a closed one has finalized the handle already. */
  function Told(k: ConnState<Id>, stmt: Option<Id>): ConnState<Id> {
    if stmt.Some? && k.open then Finalized(k, stmt.value) else k
  }

  function CommandDropped(w: World, cmd: Id): World
    requires WellFormed(w) && cmd in w.cmds
  {
    var o := w.cmds[cmd];
    if o.conn.None? then w.(cmds := w.cmds - {cmd})
    else
      var c := o.conn.value;
      w.(conns := w.conns[c := Told(w.conns[c], o.stmt)], cmds := w.cmds - {cmd})
  }

  function CommandDestroyed(w: World, cmd: Id): World
    requires WellFormed(w) && cmd in w.cmds
  {
    var c := w.cmds[cmd].conn;
    if c.None? then CommandDropped(w, cmd) else Release(CommandDropped(w, cmd), c.value)
  }

  function Step(w: World, c: Call): World
    requires WellFormed(w) && Possible(w, c)
  {
    match c
    case Open(db) => Opened(w, db)
    case MoveDatabase(db, to) => DatabaseMoved(w, db, to)
    case DestroyDatabase(db) => DatabaseDestroyed(w, db)
    case Prepare(db, cmd, text) => DatabasePrepared(w, db, cmd, text)
    case MoveCommand(cmd, to) => CommandMoved(w, cmd, to)
    case DestroyCommand(cmd) => CommandDestroyed(w, cmd)
  }

  // ----- the invariant, part by part

  type Conns = map<Id, ConnState<Id>>
  type Cmds = map<Id, CommandState>

  /** A handle prepared on c is alive or was finalized once, never both, and nothing else is
      alive or finalized there. */
  ghost predicate Accounted(k: ConnState<Id>, made: map<Id, Id>, c: Id) {
    && (k.open || k.live == {})
    && (forall s :: s in made && made[s] == c ==> k.finalized[s] == if s in k.live then 0 else 1)
    && (forall s :: s in k.live || s in k.finalized ==> s in made && made[s] == c)
  }

  ghost predicate AllAccounted(conns: Conns, made: map<Id, Id>) {
    forall c :: c in conns ==> Accounted(conns[c], made, c)
  }

  /** The handle of a command is one of its connection, and alive while that is open. */
  ghost predicate Holds(conns: Conns, made: map<Id, Id>, o: CommandState) {
    o.stmt.Some? ==>
      var s := o.stmt.value;
      s in made && o.conn == Some(made[s]) && made[s] in conns
      && (conns[made[s]].open ==> s in conns[made[s]].live)
  }

  ghost predicate AllHold(conns: Conns, made: map<Id, Id>, cmds: Cmds) {
    forall k :: k in cmds ==> Holds(conns, made, cmds[k])
  }

  ghost predicate OneOwner(cmds: Cmds) {
    forall k, l :: k in cmds && l in cmds && k != l && cmds[k].stmt.Some? ==> cmds[l].stmt != cmds[k].stmt
  }

  ghost predicate Held(dbs: map<Id, Id>, c: Id) {
    exists d :: d in dbs && dbs[d] == c
  }

  ghost predicate Owned(conns: Conns, dbs: map<Id, Id>) {
    && (forall d, e :: d in dbs && e in dbs && d != e ==> dbs[d] != dbs[e])
    && (forall c :: c in conns && conns[c].open ==> Held(dbs, c))
  }

  ghost predicate Inv(w: World) {
    WellFormed(w) && AllAccounted(w.conns, w.made) && AllHold(w.conns, w.made, w.cmds) && OneOwner(w.cmds) && Owned(w.conns, w.dbs)
  }

  lemma NewConnection(w: World, open: bool)
    requires Inv(w)
    ensures var conns := w.conns[w.next := ConnState(open, {}, multiset{})];
            AllAccounted(conns, w.made) && AllHold(conns, w.made, w.cmds)
  {
  }

  lemma PreparedAccounted(k: ConnState<Id>, made: map<Id, Id>, c: Id, s: Id)
    requires Accounted(k, made, c) && s !in made && k.open
    ensures Accounted(Prepared(k, s), made[s := c], c)
  {
  }

  lemma OthersAccounted(k: ConnState<Id>, made: map<Id, Id>, c: Id, e: Id, s: Id)
    requires Accounted(k, made, e) && s !in made && e != c
    ensures Accounted(k, made[s := c], e)
  {
  }

  lemma NewHandle(w: World, c: Id)
    requires Inv(w) && c in w.conns && w.conns[c].open
    ensures var conns := w.conns[c := Prepared(w.conns[c], w.next)];
            AllAccounted(conns, w.made[w.next := c])
  {
    var conns := w.conns[c := Prepared(w.conns[c], w.next)];
    forall e | e in conns ensures Accounted(conns[e], w.made[w.next := c], e) {
      if e == c {
        PreparedAccounted(w.conns[c], w.made, c, w.next);
      } else {
        OthersAccounted(w.conns[e], w.made, c, e, w.next);
      }
    }
  }

  lemma ClosedAccounted(conns: Conns, made: map<Id, Id>, c: Id)
    requires AllAccounted(conns, made) && c in conns
    ensures AllAccounted(conns[c := Closed(conns[c])], made)
  {
  }

  lemma ClosedHolds(conns: Conns, made: map<Id, Id>, cmds: Cmds, c: Id)
    requires AllHold(conns, made, cmds) && c in conns
    ensures AllHold(conns[c := Closed(conns[c])], made, cmds)
  {
  }

  lemma ClosedOwned(conns: Conns, dbs: map<Id, Id>, db: Id)
    requires Owned(conns, dbs) && db in dbs && dbs[db] in conns
    ensures Owned(conns[dbs[db] := Closed(conns[dbs[db]])], dbs - {db})
  {
    var after := conns[dbs[db] := Closed(conns[dbs[db]])];
    forall c | c in after && after[c].open ensures Held(dbs - {db}, c) {
      var d :| d in dbs && dbs[d] == c;
      assert d in dbs - {db} && (dbs - {db})[d] == c;
    }
  }

  lemma FinalizedAccounted(conns: Conns, made: map<Id, Id>, c: Id, s: Id)
    requires AllAccounted(conns, made) && c in conns && s in conns[c].live
    ensures AllAccounted(conns[c := Finalized(conns[c], s)], made)
  {
  }

  lemma FinalizedHolds(conns: Conns, made: map<Id, Id>, cmds: Cmds, cmd: Id)
    requires AllHold(conns, made, cmds) && OneOwner(cmds) && cmd in cmds && cmds[cmd].stmt.Some?
    requires cmds[cmd].conn.Some? && cmds[cmd].conn.value in conns
    ensures var c, s := cmds[cmd].conn.value, cmds[cmd].stmt.value;
            AllHold(conns[c := Finalized(conns[c], s)], made, cmds - {cmd})
  {
  }

  /** By then the connection is closed already: its destructor has nothing to do. */
  lemma ReleaseIsIdle(w: World, c: Id)
    requires c in w.conns && Owned(w.conns, w.dbs)
    ensures Release(w, c) == w
  {
  }

  // ----- every call keeps it

  lemma OpenKeepsInv(w: World, db: Id)
    requires Inv(w) && db !in w.dbs
    ensures Inv(Opened(w, db))
  {
    NewConnection(w, true);
    OpenedOwned(w, db);
  }

  lemma OpenedOwned(w: World, db: Id)
    requires WellFormed(w) && Owned(w.conns, w.dbs) && db !in w.dbs
    ensures Owned(Opened(w, db).conns, Opened(w, db).dbs)
  {
    var v := Opened(w, db);
    forall c | c in v.conns && v.conns[c].open ensures Held(v.dbs, c) {
      if c == w.next {
        assert v.dbs[db] == c;
      } else {
        var d :| d in w.dbs && w.dbs[d] == c;
        assert d in v.dbs && v.dbs[d] == c;
      }
    }
  }

  lemma MoveDatabaseKeepsInv(w: World, db: Id, to: Id)
    requires Inv(w) && db in w.dbs && to !in w.dbs
    ensures Inv(DatabaseMoved(w, db, to))
  {
    NewConnection(w, false);
    MovedOwned(w, db, to);
    MovedWellFormed(w, db, to);
  }

  lemma MovedWellFormed(w: World, db: Id, to: Id)
    requires WellFormed(w) && db in w.dbs
    ensures WellFormed(DatabaseMoved(w, db, to))
  {
  }

  lemma MovedOwned(w: World, db: Id, to: Id)
    requires WellFormed(w) && Owned(w.conns, w.dbs) && db in w.dbs && to !in w.dbs
    ensures Owned(DatabaseMoved(w, db, to).conns, DatabaseMoved(w, db, to).dbs)
  {
    var v := DatabaseMoved(w, db, to);
    forall c | c in v.conns && v.conns[c].open ensures Held(v.dbs, c) {
      var d :| d in w.dbs && w.dbs[d] == c;
      assert v.dbs[if d == db then to else d] == c;
    }
  }

  lemma DatabaseClosedKeepsInv(w: World, db: Id)
    requires Inv(w) && db in w.dbs
    ensures Inv(DatabaseClosed(w, db))
  {
    var n := w.dbs[db];
    ClosedAccounted(w.conns, w.made, n);
    ClosedHolds(w.conns, w.made, w.cmds, n);
    ClosedOwned(w.conns, w.dbs, db);
  }

  lemma DestroyDatabaseKeepsInv(w: World, db: Id)
    requires Inv(w) && db in w.dbs
    ensures DatabaseDestroyed(w, db) == DatabaseClosed(w, db)
    ensures Inv(DatabaseDestroyed(w, db))
  {
    DatabaseClosedKeepsInv(w, db);
    ReleaseIsIdle(DatabaseClosed(w, db), w.dbs[db]);
  }

  lemma HandleMadeHolds(w: World, c: Id)
    requires Inv(w) && c in w.conns && w.conns[c].open
    ensures AllHold(HandleMade(w, c).conns, HandleMade(w, c).made, w.cmds)
    ensures forall k :: k in w.cmds ==> w.cmds[k].stmt != Some(w.next)
  {
  }

  lemma HandleMadeWellFormed(w: World, c: Id)
    requires WellFormed(w) && c in w.conns
    ensures WellFormed(HandleMade(w, c))
  {
  }

  lemma HandleMadeOwned(w: World, c: Id)
    requires Owned(w.conns, w.dbs) && c in w.conns
    ensures Owned(HandleMade(w, c).conns, HandleMade(w, c).dbs)
  {
  }

  lemma HandleMadeKeepsInv(w: World, c: Id)
    requires Inv(w) && c in w.conns && w.conns[c].open
    ensures Inv(HandleMade(w, c))
  {
    HandleMadeWellFormed(w, c);
    HandleMadeOwned(w, c);
    HandleMadeHolds(w, c);
    NewHandle(w, c);
  }

  lemma AddedHolds(conns: Conns, made: map<Id, Id>, cmds: Cmds, cmd: Id, o: CommandState)
    requires AllHold(conns, made, cmds) && Holds(conns, made, o)
    ensures AllHold(conns, made, cmds[cmd := o])
  {
  }

  lemma AddedOneOwner(cmds: Cmds, cmd: Id, o: CommandState)
    requires OneOwner(cmds) && cmd !in cmds
    requires o.stmt.Some? ==> forall k :: k in cmds ==> cmds[k].stmt != o.stmt
    ensures OneOwner(cmds[cmd := o])
  {
  }

  lemma CommandMadeKeepsInv(w: World, cmd: Id, c: Id, stmt: Option<Id>)
    requires Inv(w) && cmd !in w.cmds && c in w.conns
    requires Holds(w.conns, w.made, CommandState(Some(c), stmt))
    requires stmt.Some? ==> forall k :: k in w.cmds ==> w.cmds[k].stmt != stmt
    ensures Inv(CommandMade(w, cmd, c, stmt))
  {
    AddedHolds(w.conns, w.made, w.cmds, cmd, CommandState(Some(c), stmt));
    AddedOneOwner(w.cmds, cmd, CommandState(Some(c), stmt));
  }

  lemma CompiledKeepsInv(w: World, cmd: Id, c: Id)
    requires Inv(w) && cmd !in w.cmds && c in w.conns && w.conns[c].open
    ensures Inv(CommandMade(HandleMade(w, c), cmd, c, Some(w.next)))
  {
    HandleMadeKeepsInv(w, c);
    HandleMadeHolds(w, c);
    CommandMadeKeepsInv(HandleMade(w, c), cmd, c, Some(w.next));
  }

  lemma PrepareKeepsInv(w: World, db: Id, cmd: Id, text: Text)
    requires Inv(w) && db in w.dbs && cmd !in w.cmds
    ensures Inv(DatabasePrepared(w, db, cmd, text))
  {
    var c := w.dbs[db];
    if !w.conns[c].open || text.Refused? {
      assert DatabasePrepared(w, db, cmd, text) == w;
    } else if text.Blank? {
      if text.countFits { CommandMadeKeepsInv(w, cmd, c, None); }
    } else if text.countFits {
      CompiledKeepsInv(w, cmd, c);
    } else {
      HandleMadeKeepsInv(w, c);
    }
  }

  lemma MoveCommandKeepsInv(w: World, cmd: Id, to: Id)
    requires Inv(w) && cmd in w.cmds && to !in w.cmds
    ensures Inv(CommandMoved(w, cmd, to))
  {
    MovedHolds(w.conns, w.made, w.cmds, cmd, to);
    MovedOneOwner(w.cmds, cmd, to);
    CommandMovedWellFormed(w, cmd, to);
  }

  lemma CommandMovedWellFormed(w: World, cmd: Id, to: Id)
    requires WellFormed(w) && cmd in w.cmds
    ensures WellFormed(CommandMoved(w, cmd, to))
  {
  }

  lemma MovedHolds(conns: Conns, made: map<Id, Id>, cmds: Cmds, cmd: Id, to: Id)
    requires AllHold(conns, made, cmds) && cmd in cmds
    ensures AllHold(conns, made, cmds[to := cmds[cmd]][cmd := CommandState(None, None)])
  {
  }

  lemma MovedOneOwner(cmds: Cmds, cmd: Id, to: Id)
    requires OneOwner(cmds) && cmd in cmds && to !in cmds
    ensures OneOwner(cmds[to := cmds[cmd]][cmd := CommandState(None, None)])
  {
  }

  lemma CommandGone(w: World, cmd: Id)
    requires Inv(w) && cmd in w.cmds
    ensures Inv(w.(cmds := w.cmds - {cmd}))
  {
  }

  lemma FinalizedOwned(w: World, c: Id, s: Id)
    requires Owned(w.conns, w.dbs) && c in w.conns
    ensures Owned(w.conns[c := Finalized(w.conns[c], s)], w.dbs)
  {
  }

  lemma FinalizedWellFormed(w: World, cmd: Id, c: Id, s: Id)
    requires WellFormed(w) && OneOwner(w.cmds) && c in w.conns
    ensures WellFormed(w.(conns := w.conns[c := Finalized(w.conns[c], s)], cmds := w.cmds - {cmd}))
    ensures OneOwner(w.cmds - {cmd})
  {
  }

  lemma FinalizedKeepsInv(w: World, cmd: Id, c: Id, s: Id)
    requires Inv(w) && cmd in w.cmds && w.cmds[cmd] == CommandState(Some(c), Some(s)) && c in w.conns && w.conns[c].open
    ensures Inv(w.(conns := w.conns[c := Finalized(w.conns[c], s)], cmds := w.cmds - {cmd}))
  {
    var v := w.(conns := w.conns[c := Finalized(w.conns[c], s)], cmds := w.cmds - {cmd});
    FinalizedWellFormed(w, cmd, c, s);
    assert AllAccounted(v.conns, v.made) by {
      assert Holds(w.conns, w.made, w.cmds[cmd]);
      FinalizedAccounted(w.conns, w.made, c, s);
    }
    assert AllHold(v.conns, v.made, v.cmds) by { FinalizedHolds(w.conns, w.made, w.cmds, cmd); }
    assert Owned(v.conns, v.dbs) by { FinalizedOwned(w, c, s); }
  }

  lemma CommandDroppedKeepsInv(w: World, cmd: Id)
    requires Inv(w) && cmd in w.cmds
    ensures Inv(CommandDropped(w, cmd))
  {
    var o := w.cmds[cmd];
    if o.conn.Some? && o.stmt.Some? && w.conns[o.conn.value].open {
      FinalizedKeepsInv(w, cmd, o.conn.value, o.stmt.value);
    } else {
      CommandGone(w, cmd);
      assert o.conn.Some? ==> w.conns[o.conn.value := w.conns[o.conn.value]] == w.conns;
    }
  }

  lemma DestroyCommandKeepsInv(w: World, cmd: Id)
    requires Inv(w) && cmd in w.cmds
    ensures CommandDestroyed(w, cmd) == CommandDropped(w, cmd)
    ensures Inv(CommandDestroyed(w, cmd))
  {
    CommandDroppedKeepsInv(w, cmd);
    if w.cmds[cmd].conn.Some? { ReleaseIsIdle(CommandDropped(w, cmd), w.cmds[cmd].conn.value); }
  }

  lemma StepKeepsInv(w: World, c: Call)
    requires Inv(w) && Possible(w, c)
    ensures Inv(Step(w, c))
  {
    match c
    case Open(db) => OpenKeepsInv(w, db);
    case MoveDatabase(db, to) => MoveDatabaseKeepsInv(w, db, to);
    case DestroyDatabase(db) => DestroyDatabaseKeepsInv(w, db);
    case Prepare(db, cmd, text) => PrepareKeepsInv(w, db, cmd, text);
    case MoveCommand(cmd, to) => MoveCommandKeepsInv(w, cmd, to);
    case DestroyCommand(cmd) => DestroyCommandKeepsInv(w, cmd);
  }

  /** Any calls one after the other; an impossible one is left out. */
  function Run(w: World, calls: seq<Call>): World
    requires Inv(w)
    decreases |calls|
  {
    if calls == [] then w
    else if !Possible(w, calls[0]) then Run(w, calls[1..])
    else StepKeepsInv(w, calls[0]); Run(Step(w, calls[0]), calls[1..])
  }

  lemma {:induction false} RunKeepsInv(w: World, calls: seq<Call>)
    requires Inv(w)
    ensures Inv(Run(w, calls))
    decreases |calls|
  {
    if calls != [] {
      if Possible(w, calls[0]) {
        StepKeepsInv(w, calls[0]);
        RunKeepsInv(Step(w, calls[0]), calls[1..]);
      } else {
        RunKeepsInv(w, calls[1..]);
      }
    }
  }

  // ----- no handle is forgotten

  ghost predicate HasOwner(cmds: Cmds, s: Id) {
    exists k :: k in cmds && cmds[k].stmt == Some(s)
  }

  /** A live handle belongs to a command, or its constructor threw. */
  ghost predicate OwnersKnown(conns: Conns, orphans: set<Id>, cmds: Cmds) {
    forall c, s :: c in conns && s in conns[c].live ==> s in orphans || HasOwner(cmds, s)
  }

  lemma OwnerMoves(cmds: Cmds, cmd: Id, to: Id, s: Id)
    requires HasOwner(cmds, s) && cmd in cmds && to !in cmds
    ensures HasOwner(cmds[to := cmds[cmd]][cmd := CommandState(None, None)], s)
  {
    var k :| k in cmds && cmds[k].stmt == Some(s);
    var after := cmds[to := cmds[cmd]][cmd := CommandState(None, None)];
    assert after[if k == cmd then to else k].stmt == Some(s);
  }

  lemma OwnerStays(cmds: Cmds, cmd: Id, o: CommandState, s: Id)
    requires HasOwner(cmds, s) && cmd !in cmds
    ensures HasOwner(cmds[cmd := o], s)
  {
    var k :| k in cmds && cmds[k].stmt == Some(s);
    assert cmds[cmd := o][k].stmt == Some(s);
  }

  lemma OwnerLeft(cmds: Cmds, cmd: Id, s: Id)
    requires HasOwner(cmds, s) && cmd in cmds && cmds[cmd].stmt != Some(s)
    ensures HasOwner(cmds - {cmd}, s)
  {
    var k :| k in cmds && cmds[k].stmt == Some(s);
    assert (cmds - {cmd})[k].stmt == Some(s);
  }

  lemma CommandMadeOwners(w: World, cmd: Id, o: CommandState)
    requires OwnersKnown(w.conns, w.orphans, w.cmds) && cmd !in w.cmds
    ensures OwnersKnown(w.conns, w.orphans, w.cmds[cmd := o])
  {
    forall s: Id | HasOwner(w.cmds, s) ensures HasOwner(w.cmds[cmd := o], s) { OwnerStays(w.cmds, cmd, o, s); }
  }

  lemma HandleMadeOwners(w: World, c: Id, cmd: Id, countFits: bool)
    requires OwnersKnown(w.conns, w.orphans, w.cmds) && cmd !in w.cmds && c in w.conns
    ensures var conns := HandleMade(w, c).conns;
            if countFits then OwnersKnown(conns, w.orphans, w.cmds[cmd := CommandState(Some(c), Some(w.next))])
            else OwnersKnown(conns, w.orphans + {w.next}, w.cmds)
  {
    var o := CommandState(Some(c), Some(w.next));
    CommandMadeOwners(w, cmd, o);
    assert w.cmds[cmd := o][cmd].stmt == Some(w.next);
    assert HasOwner(w.cmds[cmd := o], w.next);
  }

  lemma PrepareKeepsOwners(w: World, db: Id, cmd: Id, text: Text)
    requires WellFormed(w) && OwnersKnown(w.conns, w.orphans, w.cmds) && db in w.dbs && cmd !in w.cmds
    ensures var v := DatabasePrepared(w, db, cmd, text); OwnersKnown(v.conns, v.orphans, v.cmds)
  {
    var c := w.dbs[db];
    if w.conns[c].open && text.Blank? {
      CommandMadeOwners(w, cmd, CommandState(Some(c), None));
    } else if w.conns[c].open && text.Compiled? {
      HandleMadeOwners(w, c, cmd, text.countFits);
    }
  }

  lemma MoveCommandKeepsOwners(w: World, cmd: Id, to: Id)
    requires OwnersKnown(w.conns, w.orphans, w.cmds) && cmd in w.cmds && to !in w.cmds
    ensures var v := CommandMoved(w, cmd, to); OwnersKnown(v.conns, v.orphans, v.cmds)
  {
    var v := CommandMoved(w, cmd, to);
    forall s: Id | HasOwner(w.cmds, s) ensures HasOwner(v.cmds, s) { OwnerMoves(w.cmds, cmd, to, s); }
  }

  /** What is alive after a command is destroyed was alive before, and not its own. */
  lemma DroppedLive(w: World, cmd: Id, c: Id, s: Id)
    requires WellFormed(w) && AllAccounted(w.conns, w.made) && cmd in w.cmds && Holds(w.conns, w.made, w.cmds[cmd])
    ensures var v := CommandDropped(w, cmd);
            c in v.conns && s in v.conns[c].live ==>
              c in w.conns && s in w.conns[c].live && w.cmds[cmd].stmt != Some(s)
  {
    var o := w.cmds[cmd];
    var v := CommandDropped(w, cmd);
    if o.conn.Some? && c in v.conns && s in v.conns[c].live {
      ToldLive(w.conns, w.made, o, c, s);
    }
  }

  lemma ToldLive(conns: Conns, made: map<Id, Id>, o: CommandState, c: Id, s: Id)
    requires AllAccounted(conns, made) && Holds(conns, made, o) && o.conn.Some? && o.conn.value in conns
    requires var after := conns[o.conn.value := Told(conns[o.conn.value], o.stmt)]; c in after && s in after[c].live
    ensures c in conns && s in conns[c].live && o.stmt != Some(s)
  {
  }

  /** The handle of a destroyed command is finalized, unless closing did that before. */
  lemma DestroyCommandKeepsOwners(w: World, cmd: Id)
    requires Inv(w) && OwnersKnown(w.conns, w.orphans, w.cmds) && cmd in w.cmds
    ensures var v := CommandDestroyed(w, cmd); OwnersKnown(v.conns, v.orphans, v.cmds)
  {
    DestroyCommandKeepsInv(w, cmd);
    var v := CommandDropped(w, cmd);
    forall c, s | c in v.conns && s in v.conns[c].live
      ensures s in v.orphans || HasOwner(v.cmds, s)
    {
      assert Holds(w.conns, w.made, w.cmds[cmd]);
      DroppedLive(w, cmd, c, s);
      if HasOwner(w.cmds, s) { OwnerLeft(w.cmds, cmd, s); }
    }
  }

  lemma DatabaseCallKeepsOwners(w: World, c: Call)
    requires WellFormed(w) && OwnersKnown(w.conns, w.orphans, w.cmds) && Possible(w, c)
    requires c.Open? || c.MoveDatabase? || c.DestroyDatabase?
    ensures var v := Step(w, c); OwnersKnown(v.conns, v.orphans, v.cmds)
  {
  }

  lemma StepKeepsOwners(w: World, c: Call)
    requires Inv(w) && OwnersKnown(w.conns, w.orphans, w.cmds) && Possible(w, c)
    ensures var v := Step(w, c); OwnersKnown(v.conns, v.orphans, v.cmds)
  {
    match c
    case Prepare(db, cmd, text) => PrepareKeepsOwners(w, db, cmd, text);
    case MoveCommand(cmd, to) => MoveCommandKeepsOwners(w, cmd, to);
    case DestroyCommand(cmd) => DestroyCommandKeepsOwners(w, cmd);
    case _ => DatabaseCallKeepsOwners(w, c);
  }

  predicate Miscounted(c: Call) {
    c.Prepare? && c.text == Compiled(false)
  }

  lemma {:induction false} RunKeepsOwners(w: World, calls: seq<Call>)
    requires Inv(w) && OwnersKnown(w.conns, w.orphans, w.cmds)
    ensures var v := Run(w, calls); OwnersKnown(v.conns, v.orphans, v.cmds)
    decreases |calls|
  {
    if calls != [] {
      if Possible(w, calls[0]) {
        StepKeepsInv(w, calls[0]);
        StepKeepsOwners(w, calls[0]);
        RunKeepsOwners(Step(w, calls[0]), calls[1..]);
      } else {
        RunKeepsOwners(w, calls[1..]);
      }
    }
  }

  lemma OrphansStay(w: World, c: Call)
    requires WellFormed(w) && Possible(w, c) && !Miscounted(c)
    ensures Step(w, c).orphans == w.orphans
  {
  }

  lemma {:induction false} OrphansAreMiscounted(w: World, calls: seq<Call>)
    requires Inv(w) && forall i :: 0 <= i < |calls| ==> !Miscounted(calls[i])
    ensures Run(w, calls).orphans == w.orphans
    decreases |calls|
  {
    if calls != [] {
      if Possible(w, calls[0]) {
        StepKeepsInv(w, calls[0]);
        OrphansStay(w, calls[0]);
        OrphansAreMiscounted(Step(w, calls[0]), calls[1..]);
      } else {
        OrphansAreMiscounted(w, calls[1..]);
      }
    }
  }

  // ----- nothing is finalized too early

  /** The connection of a handle, or of a command, is open while a Database holds it. */
  ghost predicate HandlesOpen(conns: Conns, dbs: map<Id, Id>, made: map<Id, Id>) {
    forall s, d :: s in made && d in dbs && dbs[d] == made[s] && dbs[d] in conns ==> conns[dbs[d]].open
  }

  ghost predicate CommandsOpen(conns: Conns, dbs: map<Id, Id>, cmds: Cmds) {
    forall k, d :: k in cmds && d in dbs && cmds[k].conn == Some(dbs[d]) && dbs[d] in conns ==> conns[dbs[d]].open
  }

  /** A handle whose constructor threw has no command, and is alive while its connection is open. */
  ghost predicate OrphansAlive(conns: Conns, made: map<Id, Id>, cmds: Cmds, orphans: set<Id>) {
    forall s :: s in orphans ==>
      s in made && !HasOwner(cmds, s) && (made[s] in conns && conns[made[s]].open ==> s in conns[made[s]].live)
  }

  ghost predicate NotTooEarly(w: World) {
    HandlesOpen(w.conns, w.dbs, w.made) && CommandsOpen(w.conns, w.dbs, w.cmds) && OrphansAlive(w.conns, w.made, w.cmds, w.orphans)
  }

  lemma OpenedNotTooEarly(w: World, db: Id)
    requires WellFormed(w) && NotTooEarly(w) && db !in w.dbs
    ensures NotTooEarly(Opened(w, db))
  {
  }

  lemma MovedNotTooEarly(w: World, db: Id, to: Id)
    requires WellFormed(w) && NotTooEarly(w) && db in w.dbs
    ensures NotTooEarly(DatabaseMoved(w, db, to))
  {
    var v := DatabaseMoved(w, db, to);
    forall d | d in v.dbs && v.dbs[d] != w.next ensures exists e :: e in w.dbs && w.dbs[e] == v.dbs[d] {
      assert w.dbs[if d == to then db else d] == v.dbs[d];
    }
  }

  lemma ClosedNotTooEarly(w: World, db: Id)
    requires WellFormed(w) && Owned(w.conns, w.dbs) && NotTooEarly(w) && db in w.dbs
    ensures NotTooEarly(DatabaseClosed(w, db))
  {
  }

  lemma NewHandleOpen(conns: Conns, dbs: map<Id, Id>, made: map<Id, Id>, c: Id, n: Id)
    requires HandlesOpen(conns, dbs, made) && c in conns && conns[c].open
    ensures HandlesOpen(conns[c := Prepared(conns[c], n)], dbs, made[n := c])
  {
  }

  lemma NewHandleOrphans(conns: Conns, made: map<Id, Id>, cmds: Cmds, orphans: set<Id>, c: Id, n: Id)
    requires OrphansAlive(conns, made, cmds, orphans) && c in conns && n !in made
    ensures OrphansAlive(conns[c := Prepared(conns[c], n)], made[n := c], cmds, orphans)
  {
  }

  lemma HandleMadeNotTooEarly(w: World, c: Id)
    requires WellFormed(w) && NotTooEarly(w) && c in w.conns && w.conns[c].open
    ensures NotTooEarly(HandleMade(w, c))
  {
    NewHandleOpen(w.conns, w.dbs, w.made, c, w.next);
    NewHandleOrphans(w.conns, w.made, w.cmds, w.orphans, c, w.next);
  }

  lemma OrphanMade(w: World, c: Id)
    requires Inv(w) && NotTooEarly(w) && c in w.conns && w.conns[c].open
    ensures NotTooEarly(HandleMade(w, c).(orphans := w.orphans + {w.next}))
  {
    HandleMadeNotTooEarly(w, c);
    HandleMadeHolds(w, c);
  }

  lemma OwnerAdded(cmds: Cmds, cmd: Id, o: CommandState, s: Id)
    requires HasOwner(cmds[cmd := o], s)
    ensures HasOwner(cmds, s) || o.stmt == Some(s)
  {
  }

  lemma CommandMadeNotTooEarly(w: World, cmd: Id, c: Id, stmt: Option<Id>)
    requires NotTooEarly(w) && c in w.conns && w.conns[c].open
    requires stmt.Some? ==> stmt.value !in w.orphans
    ensures NotTooEarly(CommandMade(w, cmd, c, stmt))
  {
    var v := CommandMade(w, cmd, c, stmt);
    forall s: Id | HasOwner(v.cmds, s) ensures HasOwner(w.cmds, s) || stmt == Some(s) {
      OwnerAdded(w.cmds, cmd, CommandState(Some(c), stmt), s);
    }
  }

  lemma CompiledNotTooEarly(w: World, cmd: Id, c: Id)
    requires WellFormed(w) && NotTooEarly(w) && c in w.conns && w.conns[c].open
    ensures NotTooEarly(CommandMade(HandleMade(w, c), cmd, c, Some(w.next)))
  {
    HandleMadeNotTooEarly(w, c);
    CommandMadeNotTooEarly(HandleMade(w, c), cmd, c, Some(w.next));
  }

  lemma PreparedNotTooEarly(w: World, db: Id, cmd: Id, text: Text)
    requires Inv(w) && NotTooEarly(w) && db in w.dbs && cmd !in w.cmds
    ensures NotTooEarly(DatabasePrepared(w, db, cmd, text))
  {
    var c := w.dbs[db];
    if w.conns[c].open && text.Blank? && text.countFits {
      CommandMadeNotTooEarly(w, cmd, c, None);
    } else if w.conns[c].open && text == Compiled(true) {
      CompiledNotTooEarly(w, cmd, c);
    } else if w.conns[c].open && text == Compiled(false) {
      OrphanMade(w, c);
    }
  }

  /** Commands that come from other commands bring no new owner and no new connection. */
  lemma CommandsNotTooEarly(w: World, conns: Conns, cmds: Cmds)
    requires NotTooEarly(w)
    requires forall k :: k in cmds ==> cmds[k] == CommandState(None, None) || cmds[k] in w.cmds.Values
    requires forall c :: c in conns ==> c in w.conns && conns[c].open == w.conns[c].open
    requires forall c, s :: c in conns && s in w.conns[c].live && s !in conns[c].live ==> s !in w.orphans
    ensures NotTooEarly(w.(conns := conns, cmds := cmds))
  {
    forall k | k in cmds && cmds[k].conn.Some? ensures exists l :: l in w.cmds && w.cmds[l] == cmds[k] {}
    forall s: Id | HasOwner(cmds, s) ensures HasOwner(w.cmds, s) {
      var k :| k in cmds && cmds[k].stmt == Some(s);
      var l :| l in w.cmds && w.cmds[l] == cmds[k];
    }
  }

  lemma DroppedConns(w: World, cmd: Id)
    requires WellFormed(w) && cmd in w.cmds
    ensures var v := CommandDropped(w, cmd);
            && (forall c :: c in v.conns ==> c in w.conns && v.conns[c].open == w.conns[c].open)
            && (forall c, s :: c in v.conns && s in w.conns[c].live && s !in v.conns[c].live ==> w.cmds[cmd].stmt == Some(s))
  {
  }

  lemma DroppedNotTooEarly(w: World, cmd: Id)
    requires WellFormed(w) && NotTooEarly(w) && cmd in w.cmds
    ensures NotTooEarly(CommandDropped(w, cmd))
  {
    var o, v := w.cmds[cmd], CommandDropped(w, cmd);
    DroppedConns(w, cmd);
    assert v == w.(conns := v.conns, cmds := w.cmds - {cmd});
    assert o.stmt.Some? ==> HasOwner(w.cmds, o.stmt.value);
    CommandsNotTooEarly(w, v.conns, w.cmds - {cmd});
  }

  lemma StepNotTooEarly(w: World, c: Call)
    requires Inv(w) && NotTooEarly(w) && Possible(w, c)
    ensures NotTooEarly(Step(w, c))
  {
    match c
    case Open(db) => OpenedNotTooEarly(w, db);
    case MoveDatabase(db, to) => MovedNotTooEarly(w, db, to);
    case DestroyDatabase(db) =>
      DestroyDatabaseKeepsInv(w, db);
      ClosedNotTooEarly(w, db);
    case Prepare(db, cmd, text) => PreparedNotTooEarly(w, db, cmd, text);
    case MoveCommand(cmd, to) => CommandsNotTooEarly(w, w.conns, CommandMoved(w, cmd, to).cmds);
    case DestroyCommand(cmd) =>
      DestroyCommandKeepsInv(w, cmd);
      DroppedNotTooEarly(w, cmd);
  }

  lemma {:induction false} RunNotTooEarly(w: World, calls: seq<Call>)
    requires Inv(w) && NotTooEarly(w)
    ensures NotTooEarly(Run(w, calls))
    decreases |calls|
  {
    if calls != [] {
      if Possible(w, calls[0]) {
        StepKeepsInv(w, calls[0]);
        StepNotTooEarly(w, calls[0]);
        RunNotTooEarly(Step(w, calls[0]), calls[1..]);
      } else {
        RunNotTooEarly(w, calls[1..]);
      }
    }
  }

  // ----- what it means

  /** How often a handle was finalized. */
  ghost function Finalizations(w: World, s: Id): nat
    requires s in w.made && w.made[s] in w.conns
  {
    w.conns[w.made[s]].finalized[s]
  }

  /** Over every run, a handle is finalized at most once, and exactly once when its connection
      is closed: also a handle whose constructor threw after preparing it. */
  lemma FinalizedOnce(calls: seq<Call>, s: Id)
    requires s in Run(START, calls).made
    ensures var w := Run(START, calls);
            && w.made[s] in w.conns && Finalizations(w, s) <= 1
            && (!w.conns[w.made[s]].open ==> Finalizations(w, s) == 1)
            && (Finalizations(w, s) == 0 <==> s in w.conns[w.made[s]].live)
  {
    RunKeepsInv(START, calls);
    var w := Run(START, calls);
    assert Accounted(w.conns[w.made[s]], w.made, w.made[s]);
  }

  /** When all databases are gone, whatever commands are left, no handle is leaked. */
  lemma NothingLeaks(calls: seq<Call>)
    requires Run(START, calls).dbs == map[]
    ensures var w := Run(START, calls);
            forall s :: s in w.made ==> w.made[s] in w.conns && Finalizations(w, s) == 1
  {
    RunKeepsInv(START, calls);
    var w := Run(START, calls);
    forall s | s in w.made ensures w.made[s] in w.conns && Finalizations(w, s) == 1 {
      assert Accounted(w.conns[w.made[s]], w.made, w.made[s]);
    }
  }

  /** Over every run, the connection of a handle is open exactly while some Database holds it; the
      handle is alive exactly while that is so and it has a command or its constructor threw. */
  lemma LiveExactly(calls: seq<Call>, s: Id)
    requires s in Run(START, calls).made
    ensures var w := Run(START, calls);
            var c := w.made[s];
            && c in w.conns
            && (w.conns[c].open <==> Held(w.dbs, c))
            && (s in w.conns[c].live <==> Held(w.dbs, c) && (HasOwner(w.cmds, s) || s in w.orphans))
  {
    RunKeepsInv(START, calls);
    RunKeepsOwners(START, calls);
    RunNotTooEarly(START, calls);
    var w := Run(START, calls);
    var c := w.made[s];
    assert Accounted(w.conns[c], w.made, c);
    if HasOwner(w.cmds, s) {
      var k :| k in w.cmds && w.cmds[k].stmt == Some(s);
      assert Holds(w.conns, w.made, w.cmds[k]);
    }
  }

  /** Opening and preparing. A handle is new, alive on the connection, and owned by the command, or
      by nothing if the parameters were miscounted. */
  lemma OpenedExactly(w: World, db: Id)
    requires WellFormed(w) && Possible(w, Open(db))
    ensures var v := Step(w, Open(db));
            && db in v.dbs && v.dbs[db] !in w.conns && v.conns == w.conns[v.dbs[db] := ConnState(true, {}, multiset{})]
            && v.dbs == w.dbs[db := v.dbs[db]] && v.cmds == w.cmds && v.made == w.made && v.orphans == w.orphans
  {
  }

  lemma PreparedExactly(w: World, db: Id, cmd: Id, text: Text)
    requires WellFormed(w) && Possible(w, Prepare(db, cmd, text))
    ensures var v, c := Step(w, Prepare(db, cmd, text)), w.dbs[db];
            && v.dbs == w.dbs
            && if !w.conns[c].open || text.Refused? || text == Blank(false) then v == w
               else if text.Blank? then v == w.(cmds := w.cmds[cmd := CommandState(Some(c), None)])
               else
                 && w.next !in w.made && v.made == w.made[w.next := c]
                 && v.conns == w.conns[c := ConnState(true, w.conns[c].live + {w.next}, w.conns[c].finalized)]
                 && v.cmds == (if text.countFits then w.cmds[cmd := CommandState(Some(c), Some(w.next))] else w.cmds)
                 && v.orphans == if text.countFits then w.orphans else w.orphans + {w.next}
  {
  }

  /** The target of the move holds the connection as it was, and the source a new one that is not
      valid; nothing else changes. */
  ghost predicate HandedOver(w: World, v: World, db: Id, to: Id)
    requires db in w.dbs && WellFormed(w)
  {
    && to in v.dbs && v.dbs[to] == w.dbs[db] && w.dbs[db] in v.conns && v.conns[w.dbs[db]] == w.conns[w.dbs[db]]
    && db in v.dbs && v.dbs[db] !in w.conns && v.dbs[db] in v.conns && v.conns[v.dbs[db]] == ConnState(false, {}, multiset{})
    && (forall d :: d in w.dbs && d != db ==> d in v.dbs && v.dbs[d] == w.dbs[d])
    && (forall c :: c in w.conns ==> c in v.conns && v.conns[c] == w.conns[c])
    && v.cmds == w.cmds && v.made == w.made
  }

  lemma MovedExactly(w: World, db: Id, to: Id)
    requires WellFormed(w) && Possible(w, MoveDatabase(db, to))
    ensures HandedOver(w, Step(w, MoveDatabase(db, to)), db, to)
  {
  }

  /** Destroying a Database closes its connection and finalizes every handle on it. */
  lemma DestroyCloses(w: World, db: Id)
    requires Inv(w) && db in w.dbs
    ensures var v, c := Step(w, DestroyDatabase(db)), w.dbs[db];
            && db !in v.dbs && c in v.conns && !v.conns[c].open && v.conns[c].live == {}
            && forall s :: s in w.made && w.made[s] == c ==> v.conns[c].finalized[s] == 1
  {
    DestroyDatabaseKeepsInv(w, db);
    ClosedFinalizes(w, db);
  }

  lemma ClosedFinalizes(w: World, db: Id)
    requires WellFormed(w) && AllAccounted(w.conns, w.made) && db in w.dbs
    ensures var v, c := DatabaseClosed(w, db), w.dbs[db];
            && db !in v.dbs && c in v.conns && !v.conns[c].open && v.conns[c].live == {}
            && forall s :: s in w.made && w.made[s] == c ==> v.conns[c].finalized[s] == 1
  {
    ClosedAccounted(w.conns, w.made, w.dbs[db]);
    var after := w.conns[w.dbs[db] := Closed(w.conns[w.dbs[db]])];
    assert Accounted(after[w.dbs[db]], w.made, w.dbs[db]);
  }

  /** Over every run, a move hands over the connection as it is: destroying the target closes what
      the source had and finalizes its handles. */
  lemma MoveHandsOver(calls: seq<Call>, db: Id, to: Id)
    requires Possible(Run(START, calls), MoveDatabase(db, to))
    ensures var w := Run(START, calls);
            Inv(w) &&
            var v, c := Step(w, MoveDatabase(db, to)), w.dbs[db];
            HandedOver(w, v, db, to) && Inv(v) &&
            var u := Step(v, DestroyDatabase(to));
            && c in u.conns && !u.conns[c].open
            && forall s :: s in w.made && w.made[s] == c ==> u.conns[c].finalized[s] == 1
  {
    RunKeepsInv(START, calls);
    var w := Run(START, calls);
    MovedExactly(w, db, to);
    StepKeepsInv(w, MoveDatabase(db, to));
    DestroyCloses(Step(w, MoveDatabase(db, to)), to);
  }

  ghost predicate CommandHandedOver(w: World, v: World, k: Id, to: Id)
    requires k in w.cmds
  {
    && to in v.cmds && v.cmds[to] == w.cmds[k] && k in v.cmds && v.cmds[k] == CommandState(None, None)
    && (forall l :: l in w.cmds && l != k ==> l in v.cmds && v.cmds[l] == w.cmds[l])
    && v.conns == w.conns && v.dbs == w.dbs && v.made == w.made
  }

  lemma CommandMovedExactly(w: World, k: Id, to: Id)
    requires WellFormed(w) && Possible(w, MoveCommand(k, to))
    ensures CommandHandedOver(w, Step(w, MoveCommand(k, to)), k, to)
  {
  }

  /** Over every run, destroying a command finalizes its handle on an open connection; a command
      that was moved from has none, and the one it was moved to has it. */
  lemma DestroyFinalizes(calls: seq<Call>, k: Id, to: Id)
    requires Possible(Run(START, calls), MoveCommand(k, to))
    ensures var w := Run(START, calls);
            WellFormed(w) && Finalizes(w, k) &&
            var v := Step(w, MoveCommand(k, to));
            CommandHandedOver(w, v, k, to) && WellFormed(v) && Finalizes(v, to)
  {
    RunKeepsInv(START, calls);
    var w := Run(START, calls);
    DestroyExactly(w, k);
    CommandMovedExactly(w, k, to);
    StepKeepsInv(w, MoveCommand(k, to));
    DestroyExactly(Step(w, MoveCommand(k, to)), to);
  }

  /** The command goes, and its handle with it if its connection is open. */
  ghost predicate Finalizes(w: World, k: Id)
    requires WellFormed(w) && k in w.cmds
  {
    var v := Step(w, DestroyCommand(k));
    && k !in v.cmds && v.dbs == w.dbs && v.conns.Keys == w.conns.Keys
    && forall c :: c in w.conns ==>
         v.conns[c] == if w.cmds[k].conn == Some(c) && w.cmds[k].stmt.Some? && w.conns[c].open
                       then ConnState(true, w.conns[c].live - {w.cmds[k].stmt.value},
                                      w.conns[c].finalized + multiset{w.cmds[k].stmt.value})
                       else w.conns[c]
  }

  lemma DestroyExactly(w: World, k: Id)
    requires Inv(w) && k in w.cmds
    ensures Finalizes(w, k)
  {
    DestroyCommandKeepsInv(w, k);
    DroppedExactly(w, k);
  }

  lemma DroppedExactly(w: World, k: Id)
    requires WellFormed(w) && k in w.cmds
    ensures var v := CommandDropped(w, k);
            && k !in v.cmds && v.dbs == w.dbs && v.conns.Keys == w.conns.Keys
            && forall c :: c in w.conns ==>
                 v.conns[c] == if w.cmds[k].conn == Some(c) && w.cmds[k].stmt.Some? && w.conns[c].open
                               then ConnState(true, w.conns[c].live - {w.cmds[k].stmt.value},
                                              w.conns[c].finalized + multiset{w.cmds[k].stmt.value})
                               else w.conns[c]
  {
  }

  /** It is the Database that keeps a connection open, and not the commands on it. */
  lemma OpenExactly(calls: seq<Call>, k: Id)
    requires k in Run(START, calls).cmds && Run(START, calls).cmds[k].conn.Some?
    ensures var w := Run(START, calls);
            var c := w.cmds[k].conn.value;
            c in w.conns && (w.conns[c].open <==> Held(w.dbs, c))
  {
    RunKeepsInv(START, calls);
    RunNotTooEarly(START, calls);
  }

  /** A command whose Database is gone: the connection is closed, although the last command on it
      has not been destroyed. */
  lemma CommandOutlivesConnection()
    ensures var w := Run(START, [Open(0), Prepare(0, 0, Compiled(true)), DestroyDatabase(0)]);
            w.cmds == map[0 := CommandState(Some(0), Some(1))] && 0 in w.conns && !w.conns[0].open
  {
  }

  /** The connection's own destructor, which the shared pointer runs with the last reference,
      finds it closed in every call of every run: without it the call would do the same. */
  lemma ReleaseDoesNothing(calls: seq<Call>, c: Call)
    requires Possible(Run(START, calls), c)
    ensures var w := Run(START, calls);
            && WellFormed(w)
            && (c.DestroyDatabase? ==> Step(w, c) == DatabaseClosed(w, c.db))
            && (c.DestroyCommand? ==> Step(w, c) == CommandDropped(w, c.cmd))
            && forall n :: n in w.conns && !Referenced(w, n) ==> !w.conns[n].open
  {
    RunKeepsInv(START, calls);
    var w := Run(START, calls);
    if c.DestroyDatabase? { DestroyDatabaseKeepsInv(w, c.db); }
    if c.DestroyCommand? { DestroyCommandKeepsInv(w, c.cmd); }
  }

  /** A handle that is still alive has a command, or its constructor threw. So when the parameters
      were always counted right, destroying all commands finalizes every handle, each once, with
      the databases still open. */
  lemma CommandsCleanUp(calls: seq<Call>, s: Id)
    requires s in Run(START, calls).made
    ensures var w := Run(START, calls);
            && w.made[s] in w.conns
            && (Finalizations(w, s) == 0 ==> s in w.orphans || HasOwner(w.cmds, s))
            && (w.cmds == map[] && (forall i :: 0 <= i < |calls| ==> !Miscounted(calls[i])) ==> Finalizations(w, s) == 1)
  {
    FinalizedOnce(calls, s);
    RunKeepsOwners(START, calls);
    if forall i :: 0 <= i < |calls| ==> !Miscounted(calls[i]) { OrphansAreMiscounted(START, calls); }
  }

  /** A command that passes the validity check works on a live handle, and no other command
      has the same one. */
  lemma ValidCommandIsLive(calls: seq<Call>, k: Id)
    requires k in Run(START, calls).cmds && Run(START, calls).cmds[k].stmt.Some?
    ensures var w := Run(START, calls);
            var s := w.cmds[k].stmt.value;
            && s in w.made && w.cmds[k].conn == Some(w.made[s]) && w.made[s] in w.conns
            && (w.conns[w.made[s]].open <==> s in w.conns[w.made[s]].live)
            && forall l :: l in w.cmds && l != k ==> w.cmds[l].stmt != Some(s)
  {
    RunKeepsInv(START, calls);
    var w := Run(START, calls);
    assert Holds(w.conns, w.made, w.cmds[k]);
    var c := w.made[w.cmds[k].stmt.value];
    assert Accounted(w.conns[c], w.made, c);
  }
}
