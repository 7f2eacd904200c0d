/**
 * app/api/tasks/route.ts: `GET /api/tasks` (list, optionally filtered on
 * `completed`) and `POST /api/tasks` (create).
 */
module TaskRoutes {
  import opened Types
  import Text
  import Table
  import opened Db

  /** What a handler answers: a success body with its status, a 400, or a 500. */
  datatype Response<T> = Ok(status: nat, value: T) | BadRequest | ServerError {
    function Status(): nat {
      match this
      case Ok(status, _) => status
      case BadRequest => 400
      case ServerError => 500
    }
  }

  /** The body of a successful listing: `data` and `count`. */
  datatype TaskList = TaskList(data: seq<Task>, count: nat)

  /**
   * The listing query as the handler assembles it: whether
   * ` WHERE completed = ?` was appended to the text, and the bound parameters.
   */
  datatype ListQuery = ListQuery(filtered: bool, params: seq<Bit>) {
    /** The statement has as many placeholders as parameters. */
    predicate WellFormed() {
      |params| == if filtered then 1 else 0
    }

    function Filter(): Option<Bit>
      requires WellFormed()
    {
      if filtered then Some(params[0]) else None
    }
  }

  /**
   * The filter the `completed` query parameter selects. Only the exact
   * string "true" asks for completed rows; any other present value,
   * "false", "" and "TRUE" among them, asks for open ones.
   */
  function CompletedFilter(completed: Option<string>): (r: Option<Bit>)
    ensures r.None? <==> completed.None?
    ensures forall t: Task :: Table.Keeps(r, t) <==>
      (completed.None? || (t.completed == 1 <==> completed.value == "true"))
  {
    match completed
    case None => None
    case Some(v) => Some(if v == "true" then 1 else 0)
  }

  /** Builds the listing query step by step, as the handler builds `query` and `params`. */
  method BuildListQuery(completed: Option<string>) returns (q: ListQuery)
    ensures q.WellFormed()
    ensures q.filtered <==> completed.Some?
    ensures q.Filter() == CompletedFilter(completed)
  {
    var filtered := false;
    var params: seq<Bit> := [];
    if completed.Some? {
      filtered := true;
      params := params + [if completed.value == "true" then 1 else 0];
    }
    q := ListQuery(filtered, params);
  }

  /** `GET /api/tasks`. */
  method List(store: Store, completed: Option<string>, fault: Fault) returns (r: Response<TaskList>)
    requires store.Valid()
    modifies store, store.file
    ensures store.Valid()
    ensures store.HandleAcquired(fault) && store.SchemaAcquired(fault) && store.file.SameContents()
    ensures r.Ok? || r.ServerError?
    ensures r.Ok? <==> (old(store.db).Some? || !fault.DuringInit()) && store.file.created && !fault.StatementFails?
    ensures r.Status() == if r.Ok? then 200 else 500
    ensures r.Ok? ==>
      && r.value.data == Table.Select(store.file.rows, CompletedFilter(completed))
      && r.value.count == |r.value.data|
  {
    var h := store.GetDatabase(fault);
    if h.None? {
      return ServerError;
    }
    var q := BuildListQuery(completed);
    // "no such table", or the statement throws
    if !store.file.created || fault.StatementFails? {
      return ServerError;
    }
    var tasks := Table.Select(store.file.rows, q.Filter());
    r := Ok(200, TaskList(tasks, |tasks|));
  }

  /**
   * Two listings in a row: once the first has answered 200, the handle is
   * held and the table exists, so the second gives the same answer unless
   * its own statement throws, whatever the initialisation steps would do.
   */
  method ListTwice(store: Store, completed: Option<string>, first: Fault, second: Fault)
    returns (r1: Response<TaskList>, r2: Response<TaskList>)
    requires store.Valid()
    modifies store, store.file
    ensures store.Valid()
    ensures r1.Ok? && !second.StatementFails? ==> r2 == r1
    ensures store.file.rows == old(store.file.rows)
  {
    r1 := List(store, completed, first);
    r2 := List(store, completed, second);
  }

  /** `body.description?.trim() || null`. */
  function NormalizeDescription(description: Option<string>): (r: Option<string>)
    ensures r.None? <==> description.None? || Text.AllWhitespace(description.value)
    ensures r.Some? ==> r.value == Text.Trim(description.value) && r.value != [] && Text.Tight(r.value)
  {
    match description
    case None => None
    case Some(d) =>
      Text.TrimEmptyIff(d);
      var t := Text.Trim(d);
      if t == "" then None else Some(t)
  }

  /**
   * The title check of POST and the values it goes on to insert: a missing
   * title, the empty title and an all-whitespace title are refused.
   */
  function ValidateCreate(title: Option<string>, description: Option<string>): (r: Option<CreateTaskInput>)
    ensures r.Some? <==> title.Some? && !Text.AllWhitespace(title.value)
    ensures r.Some? ==>
      && r.value.title == Text.Trim(title.value)
      && r.value.title != []
      && Text.Tight(r.value.title)
      && r.value.description == NormalizeDescription(description)
  {
    match title
    case None => None
    case Some(t) =>
      Text.TrimEmptyIff(t);
      if t == "" || Text.Trim(t) == "" then None
      else Some(CreateTaskInput(Text.Trim(t), NormalizeDescription(description)))
  }

  /**
   * A task just created (so with `completed` 0) shows up in the unfiltered
   * listing and in the listing of open tasks, and not among the completed ones.
   */
  lemma CreatedTaskIsListedAsOpen(rows: seq<Task>, t: Task)
    requires t.completed == 0
    ensures t in Table.Select(rows + [t], None)
    ensures t in Table.Select(rows + [t], CompletedFilter(Some("false")))
    ensures t !in Table.Select(rows + [t], CompletedFilter(Some("true")))
  {
    assert "false"[0] != "true"[0];
    assert CompletedFilter(Some("false")) == Some(0);
    assert CompletedFilter(Some("true")) == Some(1);
    assert t in rows + [t];
    Table.SelectMembership(rows + [t], None, t);
    Table.SelectMembership(rows + [t], Some(0), t);
    Table.SelectMembership(rows + [t], Some(1), t);
  }

  /** Rows the way POST writes them: a tight, non-empty title and `created_at <= updated_at`. */
  ghost predicate Conforming(rows: seq<Task>) {
    forall i :: 0 <= i < |rows| ==>
      rows[i].title != [] && Text.Tight(rows[i].title) && rows[i].createdAt <= rows[i].updatedAt
  }

  /** The row POST stores for `input` at time `now` under the next AUTOINCREMENT id of `nextId`. */
  function PostedRow(nextId: int, input: CreateTaskInput, now: Timestamp): (t: Task)
    ensures t.id == nextId && t.title == input.title && t.description == input.description
    ensures t.completed == 0 && t.createdAt == now && t.updatedAt == now
  {
    Table.NewRow(nextId, Table.Columns(input.title, input.description, None, Some(now), Some(now)), now)
  }

  /**
   * Lines 52-65 of the POST handler, once the store is acquired: insert
   * the validated input with `created_at` and `updated_at` both `now` and
   * `completed` left to its default, then read the row back by
   * `lastInsertRowid`. Whether the row is stored does not depend on the
   * read-back: a read-back that throws comes after the insert.
   */
  method InsertAndReread(file: TaskTable, input: CreateTaskInput, now: Timestamp, fault: Fault)
    returns (r: Response<Task>)
    requires file.Valid()
    modifies file
    ensures file.Valid()
    ensures old(file.CanInsert()) && !fault.StatementFails? ==> file.Appended(PostedRow(old(file.nextId), input, now))
    ensures !(old(file.CanInsert()) && !fault.StatementFails?) ==> unchanged(file)
    ensures file.created == old(file.created) && file.indexed == old(file.indexed)
    ensures r.Ok? || r.ServerError?
    ensures r.Ok? <==> old(file.CanInsert()) && !fault.StatementFails? && !fault.RereadFails?
    ensures r.Ok? ==>
      && r.status == 201
      && r.value == PostedRow(old(file.nextId), input, now)
      && Table.FindById(file.rows, r.value.id) == Some(r.value)
      && r.value.id > 0
      && forall id :: id in old(file.issued) ==> id < r.value.id
  {
    ghost var before := file.rows;
    var cols := Table.Columns(input.title, input.description, None, Some(now), Some(now));
    var id := file.Insert(cols, now, fault.StatementFails?);
    if id.None? {
      r := ServerError;
    } else if fault.RereadFails? {
      r := ServerError;
    } else {
      var row := Table.NewRow(id.value, cols, now);
      forall u | u in before ensures u.id < row.id {
        var i :| 0 <= i < |before| && before[i] == u;
      }
      Table.FindAppended(before, row);
      var task := Table.FindById(file.rows, id.value);
      r := Ok(201, task.value);
    }
  }

  /** Appending a row POST writes keeps a table conforming. */
  lemma AppendConforming(rows: seq<Task>, t: Task)
    requires Conforming(rows)
    requires t.title != [] && Text.Tight(t.title) && t.createdAt <= t.updatedAt
    ensures Conforming(rows + [t])
  {
    forall i | 0 <= i < |rows + [t]|
      ensures (rows + [t])[i].title != [] && Text.Tight((rows + [t])[i].title)
      ensures (rows + [t])[i].createdAt <= (rows + [t])[i].updatedAt
    {
      if i < |rows| { assert (rows + [t])[i] == rows[i]; }
    }
  }

  /**
   * Whether POST stores its row, judged on the state after the store is
   * acquired: a handle, the table, no throwing INSERT and a free id.
   */
  ghost predicate Stores(store: Store, oldDb: Option<Handle>, oldNextId: int, fault: Fault)
    reads store, store.file
  {
    && (oldDb.Some? || !fault.DuringInit())
    && store.file.created
    && !fault.StatementFails?
    && oldNextId <= Table.MAX_ROWID
  }

  /** Lines 51-65 of the POST handler: acquire the store, then insert and read back. */
  method AcquireAndInsert(store: Store, input: CreateTaskInput, now: Timestamp, fault: Fault)
    returns (r: Response<Task>)
    requires store.Valid()
    modifies store, store.file
    ensures store.Valid()
    ensures store.HandleAcquired(fault) && store.SchemaAcquired(fault)
    ensures Stores(store, old(store.db), old(store.file.nextId), fault) ==>
      store.file.Appended(PostedRow(old(store.file.nextId), input, now))
    ensures !Stores(store, old(store.db), old(store.file.nextId), fault) ==> store.file.SameContents()
    ensures r.Ok? || r.ServerError?
    ensures r.Ok? <==> Stores(store, old(store.db), old(store.file.nextId), fault) && !fault.RereadFails?
    ensures r.Ok? ==>
      && r.status == 201
      && r.value == PostedRow(old(store.file.nextId), input, now)
      && Table.FindById(store.file.rows, r.value.id) == Some(r.value)
      && r.value.id > 0
      && forall id :: id in old(store.file.issued) ==> id < r.value.id
  {
    var h := store.GetDatabase(fault);
    if h.None? {
      r := ServerError;
    } else {
      r := InsertAndReread(store.file, input, now, fault);
    }
  }

  /** `POST /api/tasks`: the title is checked before the store is acquired. */
  method Create(store: Store, title: Option<string>, description: Option<string>, now: Timestamp, fault: Fault)
    returns (r: Response<Task>)
    requires store.Valid()
    modifies store, store.file
    ensures store.Valid()
    ensures r.Status() == if r.Ok? then 201 else if r.BadRequest? then 400 else 500
    ensures r.BadRequest? <==> ValidateCreate(title, description).None?
    ensures r.BadRequest? ==> unchanged(store) && unchanged(store.file)
    ensures !r.BadRequest? ==>
      var input := ValidateCreate(title, description).value;
      && store.HandleAcquired(fault) && store.SchemaAcquired(fault)
      && (Stores(store, old(store.db), old(store.file.nextId), fault) ==>
            store.file.Appended(PostedRow(old(store.file.nextId), input, now)))
      && (!Stores(store, old(store.db), old(store.file.nextId), fault) ==> store.file.SameContents())
    ensures r.Ok? <==>
      && ValidateCreate(title, description).Some?
      && Stores(store, old(store.db), old(store.file.nextId), fault)
      && !fault.RereadFails?
    ensures r.Ok? ==>
      var input := ValidateCreate(title, description).value;
      && r.status == 201
      && r.value == PostedRow(old(store.file.nextId), input, now)
      && Table.FindById(store.file.rows, r.value.id) == Some(r.value)
    ensures r.Ok? ==> r.value.id > 0 && forall id :: id in old(store.file.issued) ==> id < r.value.id
    ensures Conforming(old(store.file.rows)) ==> Conforming(store.file.rows)
  {
    var input := ValidateCreate(title, description);
    if input.None? {
      r := BadRequest;
    } else {
      ghost var before := store.file.rows;
      ghost var row := PostedRow(store.file.nextId, input.value, now);
      r := AcquireAndInsert(store, input.value, now, fault);
      if Conforming(before) && store.file.rows != before {
        AppendConforming(before, row);
      }
    }
  }
}
