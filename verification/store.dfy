/**
  The four record operations of phonebook-app-secure.py (`find_persons`,
  `insert_person`, `update_person`, `delete_person`) as pure transitions on an
  abstract `phonebook` table.

  The MySQL table is a sequence of rows in store order plus the AUTO_INCREMENT
  counter. Each SQL statement the source issues gets its exact meaning here:
    - `LOWER(name) LIKE '%kw%'`  : `Contains(Lower(name), kw)`
    - `LOWER(name) = key`, `fetchone()` : the first row, in store order, whose
                                   lower-cased name equals `key`
    - `UPDATE ... WHERE id = x`, `DELETE ... WHERE id = x` : every row with id `x`.
  Whether the database could be reached is an input (`Connection`).
*/
module Store {
  import opened Text
  import opened Optional

  /** One row of the `phonebook` table (`id`, `name`, `number`). */
  datatype Row = Row(id: int, name: string, number: string)

  /** The rows in store order, and the id AUTO_INCREMENT hands out next. */
  datatype Table = Table(rows: seq<Row>, nextId: int)

  /** The table as `CREATE TABLE` leaves it: no rows, ids counting from 1. */
  const EmptyTable := Table([], 1)

  /** How the attempt to use the database turns out: it answers, the
      connection cannot be opened (`get_db_connection` returned None), or the
      driver raises while the statements run. */
  datatype Connection = Connected | Unreachable | DriverError

  /** One element of the list `find_persons` returns. Real rows carry their
      id; the sentinels have none. */
  datatype Entry = Entry(id: Option<int>, name: string, number: string)

  const NoResult := Entry(None, "No Result", "No Result")
  const ConnectionFailed := Entry(None, "Database Error", "Connection failed")
  const OperationFailed := Entry(None, "Error", "Database operation failed")

  /** The table after an operation, and the message shown to the user. */
  datatype Reply = Reply(table: Table, message: string)

  const ConnectionFailedMessage := "Database connection failed"
  const AddFailed := "Failed to add person to database"
  const UpdateFailed := "Failed to update person in database"
  const DeleteFailed := "Failed to delete person from database"

  function AlreadyExists(stored: string): string {
    "Person with name " + Title(stored) + " already exists."
  }

  function Added(name: string): string {
    "Person " + Title(Strip(name)) + " added to Phonebook successfully"
  }

  function Missing(name: string): string {
    "Person with name " + Title(Strip(name)) + " does not exist."
  }

  function Updated(name: string): string {
    "Phone record of " + Title(Strip(name)) + " is updated successfully"
  }

  function NothingToDelete(name: string): string {
    "Person with name " + Title(Strip(name)) + " does not exist, no need to delete."
  }

  function Deleted(name: string): string {
    "Phone record of " + Title(Strip(name)) + " is deleted from the phonebook successfully"
  }

  /** `name.strip().lower()`: the form in which names are looked up and stored. */
  function Key(name: string): string {
    Lower(Strip(name))
  }

  /** `LOWER(name) = key` holds of the row. */
  predicate NameIs(row: Row, key: string) {
    Lower(row.name) == key
  }

  /** No row answers to `key`. */
  predicate Absent(rows: seq<Row>, key: string) {
    forall i :: 0 <= i < |rows| ==> !NameIs(rows[i], key)
  }

  /** Row `i` is the one `fetchone()` returns for `key`: it matches, and no
      earlier row does. */
  predicate FirstHit(rows: seq<Row>, key: string, i: int) {
    0 <= i < |rows| && NameIs(rows[i], key) && forall j :: 0 <= j < i ==> !NameIs(rows[j], key)
  }

  /** `SELECT * ... WHERE LOWER(name) = key` followed by `fetchone()`: the
      position of the first matching row, if any. */
  function FirstMatch(rows: seq<Row>, key: string): (r: Option<nat>)
    ensures r.Some? ==> FirstHit(rows, key, r.value)
    ensures r.None? <==> Absent(rows, key)
  {
    if rows == [] then None
    else if NameIs(rows[0], key) then Some(0)
    else match FirstMatch(rows[1..], key)
      case None => None
      case Some(k) => Some(k + 1)
  }

  // ----- find_persons -----

  /** `LOWER(name) LIKE '%kw%'` holds of the row. */
  predicate NameContains(row: Row, kw: string) {
    Contains(Lower(row.name), kw)
  }

  /** How `find_persons` shows a row: `row[1].strip().title()` and the number as stored. */
  function Display(row: Row): Entry {
    Entry(Some(row.id), Title(Strip(row.name)), row.number)
  }

  /** The matching rows, displayed, in store order. */
  function Hits(rows: seq<Row>, kw: string): (r: seq<Entry>)
    ensures |r| <= |rows|
    ensures forall e :: e in r ==> e.id.Some?
    ensures r == [] <==> forall i :: 0 <= i < |rows| ==> !NameContains(rows[i], kw)
  {
    if rows == [] then []
    else
      var head := if NameContains(rows[0], kw) then [Display(rows[0])] else [];
      var rest := Hits(rows[1..], kw);
      assert forall i :: 1 <= i < |rows| ==> rows[1..][i - 1] == rows[i];
      head + rest
  }

  /** `find_persons(keyword)`: the matching rows, or a one-element sentinel
      list; the table is only read. */
  function Find(t: Table, keyword: string, conn: Connection): (r: seq<Entry>)
    ensures |r| >= 1
    ensures conn == Unreachable ==> r == [ConnectionFailed]
    ensures conn == DriverError ==> r == [OperationFailed]
    ensures conn == Connected ==>
              (r == [NoResult] <==> forall i :: 0 <= i < |t.rows| ==> !NameContains(t.rows[i], Key(keyword)))
    ensures conn == Connected && r != [NoResult] ==> r == Hits(t.rows, Key(keyword))
  {
    match conn
    case Unreachable => [ConnectionFailed]
    case DriverError => [OperationFailed]
    case Connected =>
      var hits := Hits(t.rows, Key(keyword));
      if hits == [] then [NoResult] else hits
  }

  // ----- insert_person -----

  /** `insert_person(name, number)`: refuse a name that is already present in
      any letter case, otherwise append one row under a fresh id. */
  function Insert(t: Table, name: string, number: string, conn: Connection): (r: Reply)
    ensures conn == Unreachable ==> r == Reply(t, ConnectionFailedMessage)
    ensures conn == DriverError ==> r == Reply(t, AddFailed)
    ensures conn == Connected ==>
              forall i :: FirstHit(t.rows, Key(name), i) ==> r == Reply(t, AlreadyExists(t.rows[i].name))
    ensures conn == Connected && Absent(t.rows, Key(name)) ==>
              && r.table.rows == t.rows + [Row(t.nextId, Key(name), number)]
              && r.table.nextId == t.nextId + 1
              && r.message == Added(name)
  {
    match conn
    case Unreachable => Reply(t, ConnectionFailedMessage)
    case DriverError => Reply(t, AddFailed)
    case Connected =>
      match FirstMatch(t.rows, Key(name))
      case Some(k) => Reply(t, AlreadyExists(t.rows[k].name))
      case None => Reply(Table(t.rows + [Row(t.nextId, Key(name), number)], t.nextId + 1), Added(name))
  }

  // ----- update_person -----

  /** `UPDATE phonebook SET name = n, number = p WHERE id = x`. */
  function UpdateWhereId(rows: seq<Row>, x: int, n: string, p: string): (r: seq<Row>)
    ensures |r| == |rows|
    ensures forall i :: 0 <= i < |rows| && rows[i].id == x ==> r[i] == Row(x, n, p)
    ensures forall i :: 0 <= i < |rows| && rows[i].id != x ==> r[i] == rows[i]
  {
    if rows == [] then []
    else [if rows[0].id == x then Row(x, n, p) else rows[0]] + UpdateWhereId(rows[1..], x, n, p)
  }

  /** `update_person(name, number)`: on a hit, rewrite the matched row's id
      with its own stored name and the new number. */
  function Update(t: Table, name: string, number: string, conn: Connection): (r: Reply)
    ensures conn == Unreachable ==> r == Reply(t, ConnectionFailedMessage)
    ensures conn == DriverError ==> r == Reply(t, UpdateFailed)
    ensures conn == Connected && Absent(t.rows, Key(name)) ==> r == Reply(t, Missing(name))
    ensures conn == Connected ==>
              forall k :: FirstHit(t.rows, Key(name), k) ==>
                && r.message == Updated(name)
                && r.table.nextId == t.nextId
                && |r.table.rows| == |t.rows|
                && r.table.rows[k] == t.rows[k].(number := number)
                && forall i :: 0 <= i < |t.rows| && t.rows[i].id != t.rows[k].id ==>
                     r.table.rows[i] == t.rows[i]
  {
    match conn
    case Unreachable => Reply(t, ConnectionFailedMessage)
    case DriverError => Reply(t, UpdateFailed)
    case Connected =>
      match FirstMatch(t.rows, Key(name))
      case None => Reply(t, Missing(name))
      case Some(k) =>
        var row := t.rows[k];
        Reply(Table(UpdateWhereId(t.rows, row.id, row.name, number), t.nextId), Updated(name))
  }

  // ----- delete_person -----

  /** The ids present in `rows`. */
  function Ids(rows: seq<Row>): set<int> {
    set i | 0 <= i < |rows| :: rows[i].id
  }

  /** `DELETE FROM phonebook WHERE id = x`: the other rows, in order. */
  function DeleteWhereId(rows: seq<Row>, x: int): (r: seq<Row>)
    ensures |r| <= |rows|
    ensures forall i :: 0 <= i < |r| ==> r[i].id != x
    ensures x in Ids(rows) ==> |r| < |rows|
  {
    if rows == [] then []
    else (if rows[0].id == x then [] else [rows[0]]) + DeleteWhereId(rows[1..], x)
  }

  /** `delete_person(name)`: on a hit, remove every row carrying the matched row's id. */
  function Delete(t: Table, name: string, conn: Connection): (r: Reply)
    ensures conn == Unreachable ==> r == Reply(t, ConnectionFailedMessage)
    ensures conn == DriverError ==> r == Reply(t, DeleteFailed)
    ensures conn == Connected && Absent(t.rows, Key(name)) ==> r == Reply(t, NothingToDelete(name))
    ensures conn == Connected ==>
              forall k :: FirstHit(t.rows, Key(name), k) ==>
                && r.message == Deleted(name)
                && r.table.nextId == t.nextId
                && |r.table.rows| < |t.rows|
                && forall i :: 0 <= i < |r.table.rows| ==> r.table.rows[i].id != t.rows[k].id
  {
    match conn
    case Unreachable => Reply(t, ConnectionFailedMessage)
    case DriverError => Reply(t, DeleteFailed)
    case Connected =>
      match FirstMatch(t.rows, Key(name))
      case None => Reply(t, NothingToDelete(name))
      case Some(k) =>
        assert t.rows[k].id in Ids(t.rows);
        Reply(Table(DeleteWhereId(t.rows, t.rows[k].id), t.nextId), Deleted(name))
  }

  // ----- the table invariant -----

  predicate IdsUnique(rows: seq<Row>) {
    forall i, j :: 0 <= i < j < |rows| ==> rows[i].id != rows[j].id
  }

  /** Every id was handed out by AUTO_INCREMENT before `nextId`. */
  predicate IdsIssued(t: Table) {
    forall i :: 0 <= i < |t.rows| ==> t.rows[i].id < t.nextId
  }

  /** At most one row per lower-cased name. */
  predicate NamesUnique(rows: seq<Row>) {
    forall i, j :: 0 <= i < j < |rows| ==> Lower(rows[i].name) != Lower(rows[j].name)
  }

  predicate Wf(t: Table) {
    IdsUnique(t.rows) && IdsIssued(t) && NamesUnique(t.rows)
  }
}
