# Task store behind `/api/tasks`

A Dafny model of the task store of a small Next.js application: the two
handlers of `/api/tasks` (`GET` lists tasks, optionally filtered on
`completed`; `POST` creates one), the lazily opened SQLite handle of
`lib/db.ts` with its schema creation, and the record types of `lib/types.ts`.
SQLite is replaced by an in-memory table whose behaviour matches the
statements the handlers issue.

Files and modules:

- `types.dfy` (`Types`): `Task`, `CreateTaskInput`, `UpdateTaskInput`,
  `Option`, the 0/1 type `Bit` of the `completed` column, and `Timestamp`.
- `text.dfy` (`Text`): ECMAScript `String.prototype.trim` over the ECMAScript
  WhiteSpace and LineTerminator code points, with its characterisation: the
  result is the input less a whitespace-only prefix and suffix, and it is
  the only such string whose ends are not whitespace.
- `table.dfy` (`Table`): what SQLite does with the statements issued: column
  defaults on `INSERT`, `WHERE completed = ?`, `ORDER BY created_at DESC`
  (a stable insertion sort), and the lookup `WHERE id = ?`.
- `db.dfy` (`Db`): the class `TaskTable` (the `tasks` table in the database
  file: rows in rowid order, the AUTOINCREMENT counter `nextId`, and a ghost
  set of every id ever handed out) and the class `Store` (the module-level
  `db` handle of `lib/db.ts`, a counter of connections opened, and the file).
- `routes.dfy` (`TaskRoutes`): the two handlers and their pure parts: the
  title check and the trimming of title and description, and the
  `completed` filter.

Environment behaviour is given to each operation as a parameter: its
timestamp is `now`, and a `Fault` value names the step, if any, at which the
environment makes the request throw. That step may be opening the file, the
foreign-keys pragma, either schema statement, the handler's main statement,
or the POST read-back. Every throw becomes a 500.

Some behaviour of the code is kept as written:

- `getDatabase` stores the new handle before it enables foreign keys and
  creates the schema (lib/db.ts:22-28). If either step throws, the handle
  stays stored with only the steps before the throw done, and later calls
  return it without initialising again until `closeDatabase`. So after a
  throwing CREATE INDEX the table exists and later requests on that handle
  succeed, while after a throwing pragma or CREATE TABLE on a new file every
  later listing or valid create on it answers 500. `Store` records this in
  the ghost flag `halfOpen`. Its invariant `Valid` says that a held handle
  whose initialisation finished (`Ready`) has foreign keys on and both the
  table and the index created.
- A present `completed` parameter other than the exact string `"true"`
  lists the open tasks, `"TRUE"` and `""` included. The filter is not a
  boolean parsed leniently.
- Nothing guards initialisation against concurrent callers. A
  single-threaded run initialises at most once per handle, and the model
  shows exactly that.
- The POST handler inserts first and reads back second. A read-back that
  throws gives a 500 even though the row is already stored.

## Model

| member | source | states |
|---|---|---|
| `Text.TrimStart` | app/api/tasks/route.ts:44 | the result is a suffix of the input, everything dropped is whitespace, and the result does not start with whitespace |
| `Text.TrimEnd` | app/api/tasks/route.ts:44 | the result is a prefix of the input, everything dropped is whitespace, and the result does not end with whitespace |
| `Text.Trim` | app/api/tasks/route.ts:44 | `trim` never lengthens a string and leaves neither end whitespace |
| `Text.TrimSplits` | app/api/tasks/route.ts:58 | the input equals a whitespace-only prefix, then the trimmed string, then a whitespace-only suffix |
| `Text.TrimUnique` | app/api/tasks/route.ts:58 | any string whose ends are not whitespace, surrounded by any whitespace, trims back to exactly itself |
| `Text.TrimIdempotent` | app/api/tasks/route.ts:58 | trimming twice is the same as trimming once |
| `Text.TrimEmptyIff` | app/api/tasks/route.ts:44 | `trim` gives `''` exactly when every character is whitespace |
| `TaskRoutes.ValidateCreate` | app/api/tasks/route.ts:44-59 | the title is accepted iff it is present and not all whitespace (so `''` and `'   '` are refused). An accepted title is stored trimmed, non-empty and with no whitespace at either end, and the description is normalised |
| `TaskRoutes.NormalizeDescription` | app/api/tasks/route.ts:59 | a description is stored as null iff it is absent or all whitespace; otherwise it is stored trimmed and non-empty |
| `TaskRoutes.CompletedFilter` | app/api/tasks/route.ts:16-19 | no parameter means no filter. With a parameter, a row passes iff (`completed == 1`) equals (the parameter is exactly `"true"`) |
| `TaskRoutes.BuildListQuery` | app/api/tasks/route.ts:12-21 | the query gets a `WHERE completed = ?` clause iff the parameter is present, binds as many parameters as it has placeholders, and selects the filter that `CompletedFilter` specifies |
| `TaskRoutes.List` | app/api/tasks/route.ts:6-37 | The result is 200 with the sorted, filtered selection of the table and `count == |data|`, or else 500. It is 500 exactly when acquiring the store throws, the table does not exist, or the statement throws. The handle and schema are left as `getDatabase` leaves them (`HandleAcquired`, `SchemaAcquired`), and the rows and AUTOINCREMENT sequence are never changed |
| `TaskRoutes.PostedRow` | app/api/tasks/route.ts:52-60 | the row POST inserts: the given id, title and description, `completed` defaulted to 0, and both timestamps set to the statement time |
| `TaskRoutes.ListTwice` | app/api/tasks/route.ts:6-23 | once a listing has answered 200, the next one gives the same answer unless its own statement throws: the handle is kept, so initialisation faults no longer matter |
| `TaskRoutes.InsertAndReread` | app/api/tasks/route.ts:52-65 | If the table exists, the INSERT does not throw and an id is free, exactly one row is appended: the next id, the given title and description, `completed = 0`, `created_at == updated_at == now`. The sequence advances by that id. Otherwise the table is unchanged. A read-back that throws does not undo the insert. The answer is 201 with that row, as `WHERE id = lastInsertRowid` finds it, exactly when the row was stored and the read-back did not throw |
| `TaskRoutes.AcquireAndInsert` | app/api/tasks/route.ts:51-65 | Acquires the store as `getDatabase` does and then inserts. The row is stored exactly when acquisition succeeds, the table exists, the INSERT does not throw and an id is free; otherwise rows and sequence are unchanged. The answer is 201 with the stored row exactly when, in addition, the read-back does not throw |
| `TaskRoutes.Create` | app/api/tasks/route.ts:40-82 | An invalid title gives 400, and then neither the handle nor the table changes. Otherwise the handle and schema are left as `getDatabase` leaves them. Exactly one row (trimmed title, normalised description, `completed = 0`, equal timestamps, the next id, larger than any id ever issued) is appended exactly when the store, the table, the INSERT and a free id allow it; otherwise rows and sequence are unchanged. The answer is 201 with that row when the read-back also succeeds, and 500 otherwise. It keeps the table conforming (tight non-empty titles, `created_at <= updated_at`) |
| `TaskRoutes.AppendConforming` | app/api/tasks/route.ts:52-60 | appending a row with a tight non-empty title and ordered timestamps keeps every row conforming |
| `TaskRoutes.CreatedTaskIsListedAsOpen` | app/api/tasks/route.ts:16-23 | a newly created task (with `completed = 0`) appears in the unfiltered listing and in `?completed=false`, but not in `?completed=true` |
| `Table.NewRow` | lib/db.ts:38-43 | a column named in the INSERT is stored as given; an omitted `completed` defaults to 0, and omitted timestamps default to the time of the statement |
| `Table.Where` | app/api/tasks/route.ts:16-19 | every kept row passes the filter, and each row passing the filter is kept exactly as often as it occurs |
| `Table.InsertByCreatedDesc` | app/api/tasks/route.ts:21 | inserting into a newest-first sequence keeps it newest-first and adds exactly that row |
| `Table.OrderByCreatedDesc` | app/api/tasks/route.ts:21 | the result is sorted by `created_at` descending and is a permutation of the input |
| `Table.Select` | app/api/tasks/route.ts:21-23 | the listing is non-increasing in `created_at`, and it is a permutation of exactly the rows that pass the filter |
| `Table.SelectAll` | app/api/tasks/route.ts:12-23 | without a filter the listing is a permutation of the whole table |
| `Table.SelectPartition` | app/api/tasks/route.ts:16-23 | the `completed = 1` listing and the `completed = 0` listing together are the whole table, row for row |
| `Table.SelectPartitionCount` | app/api/tasks/route.ts:25-29 | the two filtered counts add up to the number of rows |
| `Table.SelectMembership` | app/api/tasks/route.ts:16-23 | a row is listed iff it is in the table and passes the filter |
| `Table.FindById` | app/api/tasks/route.ts:63-65 | a row found by id is in the table and has that id. Nothing is found iff no row has that id |
| `Table.FindAppended` | app/api/tasks/route.ts:57-65 | a row appended under an id larger than all others is what `WHERE id = lastInsertRowid` reads back |
| `Db.TaskTable.constructor` | lib/db.ts:22 | a database file without the schema: no table, no index, no rows, next id 1 |
| `Db.TaskTable.InitializeTables` | lib/db.ts:34-52 | Creates the table and then the index, each only if missing. A throw stops the remaining steps. Rows and the id counter never change, and on an initialised file nothing changes at all |
| `Db.TaskTable.Insert` | lib/db.ts:37-45 | The id is the AUTOINCREMENT counter: positive, above every id ever issued, and never reused. The row is appended with the schema defaults and the sequence advances by that id. The insert fails without the table, on a throw, or past rowid 2^63-1. A failed insert changes nothing, and the schema never changes |
| `Db.Store.constructor` | lib/db.ts:15 | a process starts with no handle over whatever the file holds |
| `Db.Store.GetDatabase` | lib/db.ts:17-31 | An existing handle is returned and nothing changes; a failed open changes nothing. Otherwise the new handle is stored before the pragma runs and stays stored whichever later step throws; foreign keys are on unless the pragma throws, the table exists unless the pragma or CREATE TABLE throws, and the index exists unless any init step throws. Success comes exactly when no init step throws, and afterwards the handle is `Ready`. Rows and the AUTOINCREMENT sequence are never touched |
| `Db.Store.CloseDatabase` | lib/db.ts:55-60 | afterwards no handle is held; without a handle nothing changes |
| `Db.GetDatabaseTwice` | lib/db.ts:17-31 | once a handle is obtained, the next `getDatabase` returns the same handle, and at most one connection was opened across both calls |
| `Db.CloseThenGetDatabase` | lib/db.ts:17-60 | after `closeDatabase`, `getDatabase` opens a new connection, distinct from the old one, and initialises it again |

## Left out

- Get, update and delete by id (`app/api/tasks/[id]/route.ts`) are not part of this model. `UpdateTaskInput` is kept only as a type. One behaviour stays unmodelled: on update, a title of spaces is trimmed and stored as `''`, with no emptiness check (app/api/tasks/[id]/route.ts:61-64).
- Ids are never reused after deletes. The model shows this through the ghost `issued` set and the AUTOINCREMENT counter, but no delete operation is modelled.
- JSON parsing of the request body is left out. The handlers take each field as a string or absent. A body that fails to parse, or a non-string `title` (a number title makes `trim` throw and gives 500; `title: 0` is falsy and gives 400), is not modelled.
- The query string is reduced to the first value of `completed` (what `searchParams.get` returns).
- `NextRequest`/`NextResponse`, the message texts of the JSON bodies, and `console.error` logging are left out.
- The data-directory creation and the file path (lib/db.ts:5-12) have no effect on the modelled behaviour. The effect of the foreign-keys pragma is kept only as a ghost flag, because the schema has no foreign keys.
- Timestamps are natural numbers. The "YYYY-MM-DD HH:MM:SS" text that both `CURRENT_TIMESTAMP` and `datetime('now')` produce orders the same way, and its format is not modelled.
- Equal `created_at` values come back in rowid order. SQL leaves that order open; the lemmas use only sortedness and the permutation.
- `lastInsertRowid` is a JavaScript number, so it loses precision above 2^53. Ids are modelled exactly up to SQLite's 2^63-1.
- `db.close()` is assumed not to throw.
- Characters are Unicode scalar values. Lone UTF-16 surrogates cannot occur; `trim` removes only BMP code points, so it acts the same on the rest.
- Concurrent requests, initialisation races and concurrent writers are left out: the code has no locking.
- The React pages, the client-side title check, the demo endpoints (`app/api/hello`, `app/api/user`, `app/api/data`) and `next.config.js` are left out.
