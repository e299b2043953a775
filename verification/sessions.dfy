/**
 * The store collaborator, abstracted. A `Database` holds the committed rows
 * of every table; a `Session` holds one open transaction over it: the rows
 * of each table as that transaction sees them (its own adds, attribute
 * changes and deletes included) and the log of calls made on it.
 */
module Sessions {
  import opened Records

  /** Table name to the rows of that table, in the store's order. */
  type Tables = map<string, seq<Record>>

  /** The rows of one table; a table nothing was ever written to is empty. */
  function RowsOf(tables: Tables, name: string): seq<Record>
  {
    if name in tables then tables[name] else []
  }

  /** The calls the repository layer and the unit of work make on a session. */
  datatype Call = Add | Flush | Commit | CommitFailed | Refresh | Delete | Rollback | Close

  class Database {
    /** The committed rows of every table. */
    var tables: Tables

    constructor (tables: Tables)
      ensures this.tables == tables
    {
      this.tables := tables;
    }
  }

  class Session {
    const db: Database
    /** The rows of every table as this session's transaction sees them. */
    var view: Tables
    /** Every call made on the session, oldest first. */
    var calls: seq<Call>
    var closed: bool

    /** A session fresh from the factory: it sees what is committed. */
    constructor (db: Database)
      ensures this.db == db && view == db.tables && calls == [] && !closed
    {
      this.db := db;
      view := db.tables;
      calls := [];
      closed := false;
    }

    /** What `select(model)` reads: the rows of the model's table. */
    function Table(name: string): seq<Record>
      reads this
    {
      RowsOf(view, name)
    }

    /** `session.add(instance)`: the instance is pending in its table. */
    method Add(name: string, r: Record)
      modifies this
      ensures view == old(view)[name := old(Table(name)) + [r]]
      ensures calls == old(calls) + [Call.Add] && closed == old(closed)
    {
      view := view[name := Table(name) + [r]];
      calls := calls + [Call.Add];
    }

    /** `session.flush()`: pending work is written inside the open transaction. */
    method Flush()
      modifies this
      ensures view == old(view) && calls == old(calls) + [Call.Flush] && closed == old(closed)
    {
      calls := calls + [Call.Flush];
    }

    /** `session.commit()`: the transaction's rows become the committed rows. */
    method Commit()
      modifies this, db
      ensures db.tables == old(view) && view == old(view)
      ensures calls == old(calls) + [Call.Commit] && closed == old(closed)
    {
      db.tables := view;
      calls := calls + [Call.Commit];
    }

    /** A `session.commit()` that raises: nothing is committed and the session stays as it was. */
    method FailCommit()
      modifies this
      ensures view == old(view) && calls == old(calls) + [CommitFailed] && closed == old(closed)
    {
      calls := calls + [CommitFailed];
    }

    /** `session.refresh(instance)`: reloads committed state; after a commit
        the transaction already sees exactly that. */
    method Refresh()
      modifies this
      ensures view == old(view) && calls == old(calls) + [Call.Refresh] && closed == old(closed)
    {
      calls := calls + [Call.Refresh];
    }

    /** `session.delete(instance)` for the instance at position `i` of its table. */
    method Delete(name: string, i: nat)
      requires i < |Table(name)|
      modifies this
      ensures view == old(view)[name := old(Table(name)[..i] + Table(name)[i + 1..])]
      ensures calls == old(calls) + [Call.Delete] && closed == old(closed)
    {
      view := view[name := Table(name)[..i] + Table(name)[i + 1..]];
      calls := calls + [Call.Delete];
    }

    /** `setattr` on the instance at position `i` of its table: the identity
        map hands the same object to every later query of this session. */
    method Assign(name: string, i: nat, r: Record)
      requires i < |Table(name)|
      modifies this
      ensures view == old(view)[name := old(Table(name))[i := r]]
      ensures calls == old(calls) && closed == old(closed)
    {
      view := view[name := Table(name)[i := r]];
    }

    /** `session.rollback()`: the transaction's work is discarded. */
    method Rollback()
      modifies this
      ensures view == db.tables && calls == old(calls) + [Call.Rollback] && closed == old(closed)
    {
      view := db.tables;
      calls := calls + [Call.Rollback];
    }

    /** `session.close()`: connection released; uncommitted work is discarded. */
    method Close()
      modifies this
      ensures view == db.tables && calls == old(calls) + [Call.Close] && closed
    {
      view := db.tables;
      calls := calls + [Call.Close];
      closed := true;
    }
  }
}
