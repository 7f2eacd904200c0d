/**
 * What SQLite does with the few statements the handlers issue on the
 * `tasks` table, with the table held as a sequence of rows in rowid order:
 * column defaults on INSERT, `WHERE completed = ?`,
 * `ORDER BY created_at DESC` and `WHERE id = ?`.
 */
module Table {
  import opened Types

  /** The largest rowid (2^63 - 1); past it an AUTOINCREMENT insert fails with SQLITE_FULL. */
  const MAX_ROWID: int := 0x7FFF_FFFF_FFFF_FFFF

  /** The values an INSERT names; a `None` column is left out of the statement and takes its default. */
  datatype Columns = Columns(
    title: string,
    description: Option<string>,
    completed: Option<Bit>,
    createdAt: Option<Timestamp>,
    updatedAt: Option<Timestamp>)

  /** The row an INSERT stores under rowid `id` when the statement runs at time `now`. */
  function NewRow(id: int, cols: Columns, now: Timestamp): (r: Task)
    ensures r.id == id && r.title == cols.title && r.description == cols.description
    ensures cols.completed.None? ==> r.completed == 0
    ensures cols.createdAt.None? ==> r.createdAt == now
    ensures cols.updatedAt.None? ==> r.updatedAt == now
    ensures cols.completed.Some? ==> r.completed == cols.completed.value
    ensures cols.createdAt.Some? ==> r.createdAt == cols.createdAt.value
    ensures cols.updatedAt.Some? ==> r.updatedAt == cols.updatedAt.value
  {
    Task(id, cols.title, cols.description,
      if cols.completed.Some? then cols.completed.value else 0,
      if cols.createdAt.Some? then cols.createdAt.value else now,
      if cols.updatedAt.Some? then cols.updatedAt.value else now)
  }

  /** Whether a row passes `WHERE completed = ?` (no filter: every row passes). */
  predicate Keeps(filter: Option<Bit>, t: Task) {
    filter.None? || t.completed == filter.value
  }

  /** The rows that pass the filter, each as often as it occurs in `rows`. */
  function Where(rows: seq<Task>, filter: Option<Bit>): (r: seq<Task>)
    ensures forall i :: 0 <= i < |r| ==> Keeps(filter, r[i])
    ensures forall t :: multiset(r)[t] == if Keeps(filter, t) then multiset(rows)[t] else 0
  {
    if rows == [] then []
    else
      var rest := Where(rows[1..], filter);
      assert rows == [rows[0]] + rows[1..];
      if Keeps(filter, rows[0]) then [rows[0]] + rest else rest
  }

  /** Newest first. */
  predicate SortedByCreatedDesc(s: seq<Task>) {
    forall i, j :: 0 <= i < j < |s| ==> s[i].createdAt >= s[j].createdAt
  }

  /** Puts `t` before the first row that is not newer than it. */
  function InsertByCreatedDesc(t: Task, s: seq<Task>): (r: seq<Task>)
    requires SortedByCreatedDesc(s)
    ensures SortedByCreatedDesc(r)
    ensures multiset(r) == multiset(s) + multiset{t}
    ensures forall k :: 0 <= k < |r| ==> r[k] == t || r[k] in s
  {
    if s == [] || t.createdAt >= s[0].createdAt then [t] + s
    else
      var rest := InsertByCreatedDesc(t, s[1..]);
      assert forall k :: 0 <= k < |rest| ==> rest[k].createdAt <= s[0].createdAt;
      assert s == [s[0]] + s[1..];
      [s[0]] + rest
  }

  /**
   * `ORDER BY created_at DESC`. Rows with equal timestamps keep their rowid
   * order; SQL itself leaves that order open.
   */
  function OrderByCreatedDesc(s: seq<Task>): (r: seq<Task>)
    ensures SortedByCreatedDesc(r)
    ensures multiset(r) == multiset(s)
  {
    if s == [] then []
    else
      assert s == [s[0]] + s[1..];
      InsertByCreatedDesc(s[0], OrderByCreatedDesc(s[1..]))
  }

  /** `SELECT * FROM tasks [WHERE completed = ?] ORDER BY created_at DESC`. */
  function Select(rows: seq<Task>, filter: Option<Bit>): (r: seq<Task>)
    ensures SortedByCreatedDesc(r)
    ensures forall i :: 0 <= i < |r| ==> Keeps(filter, r[i])
    ensures forall t :: multiset(r)[t] == if Keeps(filter, t) then multiset(rows)[t] else 0
  {
    OrderByCreatedDesc(Where(rows, filter))
  }

  /** Without a filter the listing is a permutation of the whole table. */
  lemma SelectAll(rows: seq<Task>)
    ensures multiset(Select(rows, None)) == multiset(rows)
  {
  }

  /** The completed and the open listings together are the whole table, row for row. */
  lemma SelectPartition(rows: seq<Task>)
    ensures multiset(Select(rows, Some(1))) + multiset(Select(rows, Some(0))) == multiset(rows)
  {
    var done, open := Select(rows, Some(1)), Select(rows, Some(0));
    forall t: Task ensures (multiset(done) + multiset(open))[t] == multiset(rows)[t] {
      assert t.completed == 0 || t.completed == 1;
    }
  }

  /** So the two filtered counts add up to the size of the table. */
  lemma SelectPartitionCount(rows: seq<Task>)
    ensures |Select(rows, Some(1))| + |Select(rows, Some(0))| == |rows|
  {
    SelectPartition(rows);
    assert |multiset(Select(rows, Some(1))) + multiset(Select(rows, Some(0)))| == |multiset(rows)|;
  }

  /** A row is listed exactly when it is in the table and passes the filter. */
  lemma SelectMembership(rows: seq<Task>, filter: Option<Bit>, t: Task)
    ensures t in Select(rows, filter) <==> t in rows && Keeps(filter, t)
  {
    var r := Select(rows, filter);
    assert t in r <==> t in multiset(r);
    assert t in rows <==> t in multiset(rows);
  }

  /** Rowids strictly increase along the table. */
  predicate IdsAscending(rows: seq<Task>) {
    forall i, j :: 0 <= i < j < |rows| ==> rows[i].id < rows[j].id
  }

  /** `SELECT * FROM tasks WHERE id = ?` with `.get`: the first matching row, if any. */
  function FindById(rows: seq<Task>, id: int): (r: Option<Task>)
    ensures r.Some? ==> r.value in rows && r.value.id == id
    ensures r.None? <==> forall t :: t in rows ==> t.id != id
  {
    if rows == [] then None
    else if rows[0].id == id then Some(rows[0])
    else FindById(rows[1..], id)
  }

  /** Reading back a row appended under an id larger than every other finds that row. */
  lemma FindAppended(rows: seq<Task>, t: Task)
    requires forall u :: u in rows ==> u.id < t.id
    ensures FindById(rows + [t], t.id) == Some(t)
  {
    assert t in rows + [t];
  }
}
