/**
 * lib/db.ts: the `tasks` table in the database file, schema creation, and
 * the module-level handle that `getDatabase` creates lazily and
 * `closeDatabase` drops.
 */
module Db {
  import opened Types
  import Table

  /** An open connection; `serial` tells apart the connections opened over time. */
  datatype Handle = Handle(serial: nat)

  /**
   * The step, if any, at which the environment makes the current request
   * throw: opening the file, the foreign-keys pragma, either schema
   * statement, the handler's main statement, or the handler's read-back.
   */
  datatype Fault =
    | NoFault
    | OpenFails
    | PragmaFails
    | CreateTableFails
    | CreateIndexFails
    | StatementFails
    | RereadFails
  {
    /** The steps of a first `getDatabase`, lines 22-28 of lib/db.ts. */
    predicate DuringInit() {
      OpenFails? || PragmaFails? || CreateTableFails? || CreateIndexFails?
    }
  }

  /**
   * The `tasks` table in data/database.db. It outlives connections: closing
   * the handle keeps the rows. `nextId` is the next AUTOINCREMENT value (one
   * more than the largest id ever handed out); `issued` holds every id ever
   * handed out, including those of rows deleted since.
   */
  class TaskTable {
    var created: bool
    var indexed: bool
    var rows: seq<Task>
    var nextId: int
    ghost var issued: set<int>

    ghost predicate Valid()
      reads this
    {
      && 1 <= nextId <= Table.MAX_ROWID + 1
      && (indexed ==> created)
      && (!created ==> rows == [] && nextId == 1 && issued == {})
      && Table.IdsAscending(rows)
      && (forall i :: 0 <= i < |rows| ==> rows[i].id in issued)
      && (forall id :: id in issued ==> 0 < id < nextId)
    }

    /** A database file in which the schema has not been created yet. */
    constructor ()
      ensures Valid()
      ensures !created && !indexed && rows == [] && nextId == 1 && issued == {}
    {
      created, indexed, rows, nextId := false, false, [], 1;
      issued := {};
    }

    /**
     * `initializeTables`: CREATE TABLE IF NOT EXISTS, then CREATE INDEX IF
     * NOT EXISTS on `completed`. Either statement may throw, which stops
     * the rest. Neither touches the rows.
     */
    method InitializeTables(fault: Fault) returns (ok: bool)
      requires Valid()
      modifies this
      ensures Valid()
      ensures ok <==> !fault.CreateTableFails? && !fault.CreateIndexFails?
      ensures created == (old(created) || !fault.CreateTableFails?)
      ensures indexed == (old(indexed) || ok)
      ensures rows == old(rows) && nextId == old(nextId) && issued == old(issued)
      ensures old(created) && old(indexed) ==> unchanged(this)
    {
      if fault.CreateTableFails? {
        return false;
      }
      created := true;
      if fault.CreateIndexFails? {
        return false;
      }
      indexed := true;
      return true;
    }

    /** The table exists and the AUTOINCREMENT sequence is not exhausted. */
    predicate CanInsert()
      reads this
    {
      created && nextId <= Table.MAX_ROWID
    }

    /** Since the old state exactly row `t` was appended, under the next AUTOINCREMENT id. */
    twostate predicate Appended(t: Task)
      reads this
    {
      && t.id == old(nextId)
      && rows == old(rows) + [t]
      && nextId == old(nextId) + 1
      && issued == old(issued) + {t.id}
    }

    /** Rows and the AUTOINCREMENT sequence are as in the old state (the schema may differ). */
    twostate predicate SameContents()
      reads this
    {
      rows == old(rows) && nextId == old(nextId) && issued == old(issued)
    }

    /**
     * `INSERT INTO tasks (...) VALUES (...)` with the columns `cols` names,
     * returning `lastInsertRowid`. It fails when the table does not exist,
     * when the statement throws (`fails`), or when the AUTOINCREMENT
     * sequence is exhausted; a failed insert changes nothing.
     */
    method Insert(cols: Table.Columns, now: Timestamp, fails: bool) returns (rowid: Option<int>)
      requires Valid()
      modifies this
      ensures Valid()
      ensures rowid.Some? <==> old(CanInsert()) && !fails
      ensures rowid.None? ==> unchanged(this)
      ensures created == old(created) && indexed == old(indexed)
      ensures rowid.Some? ==> rowid.value == old(nextId) && Appended(Table.NewRow(rowid.value, cols, now))
      ensures rowid.Some? ==> 0 < rowid.value && forall id :: id in old(issued) ==> id < rowid.value
    {
      if !CanInsert() || fails {
        return None;
      }
      var id := nextId;
      rows := rows + [Table.NewRow(id, cols, now)];
      nextId := nextId + 1;
      issued := issued + {id};
      rowid := Some(id);
    }
  }

  /**
   * The state of lib/db.ts: `db` is the module-level `let db`, `opens`
   * counts the connections opened so far, and `file` is the database file
   * every connection opens. `halfOpen` records a handle that was stored
   * before its pragma or schema creation threw (line 22 assigns `db` before
   * lines 25-28 run).
   */
  class Store {
    var db: Option<Handle>
    var opens: nat
    ghost var foreignKeys: bool
    ghost var halfOpen: bool
    const file: TaskTable

    ghost predicate Valid()
      reads this, file
    {
      && file.Valid()
      && (db.Some? ==> 0 < opens && db == Some(Handle(opens - 1)))
      && (db.None? ==> !foreignKeys && !halfOpen)
      && (Ready() ==> foreignKeys && file.created && file.indexed)
    }

    /** A handle is held and its initialisation ran to the end. */
    ghost predicate Ready()
      reads this
    {
      db.Some? && !halfOpen
    }

    /**
     * The handle state `getDatabase` leaves behind when `fault` names the
     * step that throws: a held handle, or a failed open, changes nothing;
     * otherwise the new connection is stored before the pragma runs, so it
     * stays stored whichever later step throws.
     */
    twostate predicate HandleAcquired(fault: Fault)
      reads this
    {
      if old(db).Some? || fault.OpenFails? then
        db == old(db) && opens == old(opens) && foreignKeys == old(foreignKeys) && halfOpen == old(halfOpen)
      else
        && db == Some(Handle(old(opens)))
        && opens == old(opens) + 1
        && foreignKeys == !fault.PragmaFails?
        && (halfOpen <==> fault.DuringInit())
    }

    /**
     * The schema `getDatabase` leaves in the file: only a new connection
     * initialises it, and a throwing step stops the steps after it (the
     * pragma comes before the table, the table before the index).
     */
    twostate predicate SchemaAcquired(fault: Fault)
      reads this, file
    {
      if old(db).Some? || fault.OpenFails? then
        file.created == old(file.created) && file.indexed == old(file.indexed)
      else
        && file.created == (old(file.created) || !(fault.PragmaFails? || fault.CreateTableFails?))
        && file.indexed == (old(file.indexed) || !fault.DuringInit())
    }

    /** Process start: no handle yet, over whatever the file already holds. */
    constructor (file: TaskTable)
      requires file.Valid()
      ensures Valid() && this.file == file
      ensures db.None? && opens == 0
    {
      this.file := file;
      db, opens := None, 0;
      foreignKeys, halfOpen := false, false;
    }

    /**
     * `getDatabase`: the stored handle if there is one; otherwise open a
     * connection, store it, enable foreign keys and create the schema.
     * `None` stands for a throw.
     */
    method GetDatabase(fault: Fault) returns (h: Option<Handle>)
      requires Valid()
      modifies this, file
      ensures Valid()
      ensures HandleAcquired(fault) && SchemaAcquired(fault) && file.SameContents()
      ensures h.Some? ==> db == h
      ensures old(db).Some? ==> h == old(db) && unchanged(this) && unchanged(file)
      ensures old(db).None? && fault.OpenFails? ==> h.None? && unchanged(this) && unchanged(file)
      ensures old(db).None? ==> (h.Some? <==> !fault.DuringInit())
      ensures old(db).None? && !fault.DuringInit() ==> Ready()
    {
      if db.Some? {
        return db;
      }
      if fault.OpenFails? {
        return None;
      }
      var handle := Handle(opens);
      opens := opens + 1;
      db := Some(handle);
      halfOpen := true;
      if fault.PragmaFails? {
        return None;
      }
      foreignKeys := true;
      var ok := file.InitializeTables(fault);
      if !ok {
        return None;
      }
      halfOpen := false;
      return Some(handle);
    }

    /** `closeDatabase`: close and forget the handle; nothing to do without one. */
    method CloseDatabase()
      requires Valid()
      modifies this
      ensures Valid()
      ensures db.None? && opens == old(opens)
      ensures old(db).None? ==> unchanged(this)
    {
      if db.Some? {
        db := None;
        foreignKeys, halfOpen := false, false;
      }
    }
  }

  /**
   * Two `getDatabase` calls in a row: once the first has produced a handle,
   * the second returns the same one, and at most one connection was opened
   * and initialised between them.
   */
  method GetDatabaseTwice(store: Store, first: Fault, second: Fault) returns (h1: Option<Handle>, h2: Option<Handle>)
    requires store.Valid()
    modifies store, store.file
    ensures store.Valid()
    ensures h1.Some? ==> h2 == h1
    ensures h1.Some? ==> store.opens == old(store.opens) + (if old(store.db).None? then 1 else 0)
    ensures store.file.rows == old(store.file.rows)
  {
    h1 := store.GetDatabase(first);
    h2 := store.GetDatabase(second);
  }

  /** After `closeDatabase`, the next `getDatabase` opens a new connection and initialises it again. */
  method CloseThenGetDatabase(store: Store, fault: Fault) returns (h: Option<Handle>)
    requires store.Valid()
    modifies store, store.file
    ensures store.Valid()
    ensures !fault.DuringInit() ==> h == Some(Handle(old(store.opens))) && store.Ready()
    ensures !fault.DuringInit() && old(store.db).Some? ==> h != old(store.db)
    ensures store.file.rows == old(store.file.rows)
  {
    store.CloseDatabase();
    h := store.GetDatabase(fault);
  }
}
