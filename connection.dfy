/** `Database`: the bot's single connection to its SQLite file. Every
    statement runs under the `get_connection` guard: it is refused while the
    store is not connected, committed when it completes and rolled back when
    it raises. */
module Connection {
  import opened Common
  import opened Schema

  class Database {
    /** Whether `_connection` holds a connection object; `disconnect` never
        resets it. */
    var handle: bool
    /** `_is_connected`. */
    var connected: bool
    /** The contents of the database file, which outlive any one connection. */
    var file: Tables
    /** The connection's `last_insert_rowid()`. */
    var lastRowid: int
    /** Wall-clock time in whole seconds: the value `CURRENT_TIMESTAMP` takes. */
    var clock: nat

    ghost predicate Valid()
      reads this
    {
      (connected ==> handle) && WellFormed(file, clock)
    }

    /** A store that has not connected yet. The file `f` is whatever the
        database path already holds at time `now`: empty on the first start,
        the rows of earlier runs after a restart. */
    constructor (f: Tables, now: nat)
      requires WellFormed(f, now)
      ensures Valid()
      ensures !handle && !connected && file == f && lastRowid == 0 && clock == now
    {
      handle, connected := false, false;
      file := f;
      lastRowid, clock := 0, now;
    }

    /** The `is_connected` property: it reports a connection only while a
        connection object is held. */
    predicate IsConnected(): (r: bool)
      reads this
      ensures Valid() && r ==> handle
    {
      connected
    }

    /** Time passes; later rows get a later `CURRENT_TIMESTAMP`. */
    method Tick(seconds: nat)
      requires Valid()
      modifies this`clock
      ensures Valid() && clock == old(clock) + seconds
    {
      clock := clock + seconds;
    }

    /** `connect`: `opens` says whether `aiosqlite.connect` succeeds, and
        `faultAt` is the index of the schema statement the engine fails on
        (none when it is past the last one). The flag is set before the
        schema is created, so it stays set when schema creation raises. */
    method Connect(opens: bool, faultAt: nat) returns (r: Outcome<DbError>)
      requires Valid()
      modifies this`handle, this`connected, this`file, this`lastRowid
      ensures Valid()
      ensures !opens ==> r == Fail(EngineFault)
      ensures !opens ==> handle == old(handle) && connected == old(connected)
      ensures !opens ==> file == old(file) && lastRowid == old(lastRowid)
      ensures opens ==> handle && connected && lastRowid == 0
      ensures opens ==> r == if faultAt < |SchemaStatements| then Fail(EngineFault) else Pass
      ensures opens ==> file == old(file).(usersTable := old(file).usersTable || faultAt > 0,
                                           messagesTable := old(file).messagesTable || faultAt > 1)
    {
      if !opens {
        return Fail(EngineFault);
      }
      handle := true;
      lastRowid := 0;
      connected := true;
      r := InitSchema(faultAt);
    }

    /** `_init_schema`: runs the four schema statements in order and stops at
        the first that raises. `CREATE ... IF NOT EXISTS` leaves existing
        tables and their rows alone. */
    method InitSchema(faultAt: nat) returns (r: Outcome<DbError>)
      requires Valid() && connected
      modifies this`file, this`lastRowid
      ensures Valid() && lastRowid == old(lastRowid)
      ensures r == if faultAt < |SchemaStatements| then Fail(EngineFault) else Pass
      ensures file == old(file).(usersTable := old(file).usersTable || faultAt > 0,
                                 messagesTable := old(file).messagesTable || faultAt > 1)
    {
      var i := 0;
      while i < |SchemaStatements|
        invariant 0 <= i <= |SchemaStatements| && i <= faultAt
        invariant Valid() && lastRowid == old(lastRowid)
        invariant file == old(file).(usersTable := old(file).usersTable || i > 0,
                                     messagesTable := old(file).messagesTable || i > 1)
      {
        if i == faultAt {
          // the engine raises inside the statement; it is rolled back and re-raised
          return Fail(EngineFault);
        }
        var res := Execute(SchemaStatements[i], true);
        match res {
          case Err(e) => return Fail(e);
          case Ok(_) =>
        }
        i := i + 1;
      }
      r := Pass;
    }

    /** `disconnect`: closes a connection that is open; on a store that never
        connected, or already disconnected, it does nothing. */
    method Disconnect()
      requires Valid()
      modifies this`connected
      ensures Valid() && !connected
    {
      if handle && connected {
        connected := false;
      }
    }

    /** `execute`: runs one statement and returns the cursor's `rowcount`.
        Refused with "Database not connected" while disconnected; committed
        when it completes; rolled back, leaving the file as it was, when it
        raises. `ioOk` says whether the engine gets through the statement
        without an I/O fault (disk full, database locked). */
    method Execute(s: Statement, ioOk: bool) returns (r: Result<nat, DbError>)
      requires Valid()
      modifies this`file, this`lastRowid
      ensures Valid()
      ensures !connected ==> r == Err(NotConnected) && file == old(file) && lastRowid == old(lastRowid)
      ensures connected && !ioOk ==> r == Err(EngineFault) && file == old(file) && lastRowid == old(lastRowid)
      ensures connected && ioOk ==>
        match Apply(old(file), clock, s)
        case Ok(c) =>
          && r == Ok(c.rowcount) && file == c.after
          && lastRowid == (if c.rowid.Some? then c.rowid.value else old(lastRowid))
        case Err(e) => r == Err(e) && file == old(file) && lastRowid == old(lastRowid)
    {
      if !connected {
        return Err(NotConnected);
      }
      if !ioOk {
        // rollback: the file keeps its contents
        return Err(EngineFault);
      }
      match Apply(file, clock, s)
      case Ok(c) =>
        // commit
        ApplyPreservesWellFormed(file, clock, s);
        file := c.after;
        if c.rowid.Some? {
          lastRowid := c.rowid.value;
        }
        r := Ok(c.rowcount);
      case Err(e) =>
        // rollback: the file keeps its contents
        r := Err(e);
    }

    /** `fetch_one`: the first selected row, or None when no row matches. */
    method FetchOne(q: Query) returns (r: Result<Option<Row>, DbError>)
      requires Valid()
      ensures !connected ==> r == Err(NotConnected)
      ensures connected ==> r == FirstRow(Select(file, lastRowid, q))
    {
      if !connected {
        return Err(NotConnected);
      }
      r := FirstRow(Select(file, lastRowid, q));
    }

    /** `fetch_all`: every selected row. */
    method FetchAll(q: Query) returns (r: Result<seq<Row>, DbError>)
      requires Valid()
      ensures !connected ==> r == Err(NotConnected)
      ensures connected ==> r == Select(file, lastRowid, q)
    {
      if !connected {
        return Err(NotConnected);
      }
      r := Select(file, lastRowid, q);
    }
  }
}
