/** The connection that a database shares with its commands (src/sl3/connection.hpp), over an
    abstract SQLite: the statement handles that are alive and those that were finalized. */
module Connections {
  import opened Results

  datatype ConnState<H(==)> = ConnState(open: bool, live: set<H>, finalized: multiset<H>)

  /** sqlite3_prepare_v2 of a handle that did not exist before. */
  function Prepared<H>(c: ConnState<H>, h: H): ConnState<H> {
    c.(live := c.live + {h})
  }

  /** sqlite3_finalize */
  function Finalized<H>(c: ConnState<H>, h: H): ConnState<H> {
    c.(live := c.live - {h}, finalized := c.finalized + multiset{h})
  }

  /** Closing finalizes every live handle once; closing again does nothing. */
  function Closed<H>(c: ConnState<H>): ConnState<H> {
    if c.open then ConnState(false, {}, c.finalized + multiset(c.live)) else c
  }

  /** The transactions, by the number of their BEGIN, that were committed and rolled back. */
  datatype Ledger = Ledger(committed: multiset<nat>, rolledBack: multiset<nat>)

  const NOTHING_ENDED := Ledger(multiset{}, multiset{})

  /** What is open, if anything is, is rolled back. */
  function RolledBack(l: Ledger, active: Option<nat>): Ledger {
    if active.Some? then l.(rolledBack := l.rolledBack + multiset{active.value}) else l
  }

  class Connection<H(==)> {
    var open: bool
    var live: set<H>
    var finalized: multiset<H>

    /** The number of the BEGIN whose transaction is open, and how the earlier ones ended. */
    var transaction: Option<nat>
    var ledger: Ledger

    function State(): ConnState<H>
      reads this
    {
      ConnState(open, live, finalized)
    }

    function History(): (Option<nat>, Ledger)
      reads this
    {
      (transaction, ledger)
    }

    /** A connection to an opened database, or the invalid one of a database that was moved from. */
    constructor (open: bool)
      ensures State() == ConnState(open, {}, multiset{}) && History() == (None, NOTHING_ENDED)
    {
      this.open, live, finalized := open, {}, multiset{};
      transaction, ledger := None, NOTHING_ENDED;
    }

    method Prepare(h: H)
      requires open && h !in live
      modifies this
      ensures State() == Prepared(old(State()), h) && History() == old(History())
    {
      live := live + {h};
    }

    /** Finalizing a handle twice, or after its connection was closed, would not verify. */
    method Finalize(h: H)
      requires open && h in live
      modifies this
      ensures State() == Finalized(old(State()), h) && History() == old(History())
    {
      live := live - {h};
      finalized := finalized + multiset{h};
    }

    /** sqlite3_next_stmt(db, 0) gives some live handle; each turn there is one fewer. After the
        loop none is left, so sqlite3_close never finds the connection busy. It rolls back what
        is open. */
    method Close()
      modifies this
      ensures State() == Closed(old(State()))
      ensures History() == if old(open) then (None, RolledBack(old(ledger), old(transaction))) else old(History())
    {
      if !open {
        return;
      }
      ghost var start := live;
      while live != {}
        invariant open && live <= start && History() == old(History())
        invariant finalized == old(finalized) + multiset(start - live)
        decreases |live|
      {
        var stm :| stm in live;
        ghost var before := live;
        Finalize(stm);
        assert start - live == (start - before) + {stm};
      }
      assert start - live == start;
      open := false;
      transaction, ledger := None, RolledBack(ledger, transaction);
    }
  }
}
