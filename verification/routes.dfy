/**
  The decision layer of the four Flask handlers of phonebook-app-secure.py
  (`find_records`, `add_record`, `update_record`, `delete_record`), without any
  rendering. A handler first decides, from the request alone, what to do
  (`Decide*`); only some decisions reach the store (`Perform`). The page that
  would be rendered is reduced to which outcome it shows.
*/
module Routes {
  import opened Text
  import opened Optional
  import opened Validation
  import opened Store
  import opened StoreProperties

  /** A request as a handler sees it: a GET, or a POST with its form fields. */
  datatype Request = Get | Post(form: map<string, string>)

  /** `request.form.get(key, '')`: a missing field reads as the empty string. */
  function Field(form: map<string, string>, key: string): string {
    if key in form then form[key] else ""
  }

  /** The form fields, stripped as every handler strips them. */
  function NameField(form: map<string, string>): string {
    Strip(Field(form, "username"))
  }

  function NumberField(form: map<string, string>): string {
    Strip(Field(form, "phonenumber"))
  }

  /** What a handler decides to do before it touches the store. */
  datatype Action =
    | ShowForm                                // a GET: the empty form
    | AskForKeyword                           // a blank search: "Please enter a search term"
    | Reject(message: string)                 // validation failed: its message
    | Search(keyword: string)                 // find_persons(keyword)
    | Add(name: string, number: string)       // insert_person(name, number)
    | Change(name: string, number: string)    // update_person(name, number)
    | Remove(name: string)                    // delete_person(name)

  predicate TouchesStore(a: Action) {
    a.Search? || a.Add? || a.Change? || a.Remove?
  }

  /** `find_records`: a blank stripped keyword performs no query. */
  function DecideFind(req: Request): (a: Action)
    ensures req.Get? ==> a == ShowForm
    ensures req.Post? && NameField(req.form) == [] ==> a == AskForKeyword
    ensures TouchesStore(a) <==> req.Post? && NameField(req.form) != []
    ensures TouchesStore(a) ==> a == Search(NameField(req.form))
  {
    match req
    case Get => ShowForm
    case Post(form) =>
      var keyword := NameField(form);
      if keyword == [] then AskForKeyword else Search(keyword)
  }

  /** `add_record`: the store is reached only with a name and number that
      pass `validate_input`, both stripped. */
  function DecideAdd(req: Request): (a: Action)
    ensures req.Get? ==> a == ShowForm
    ensures TouchesStore(a) <==>
              req.Post? && AcceptableName(NameField(req.form)) && AcceptableNumber(NumberField(req.form))
    ensures TouchesStore(a) ==> a == Add(NameField(req.form), NumberField(req.form))
    ensures req.Post? && !TouchesStore(a) ==>
              a == Reject(ValidateInput(NameField(req.form), Some(NumberField(req.form))).1)
  {
    match req
    case Get => ShowForm
    case Post(form) =>
      var name := NameField(form);
      var number := NumberField(form);
      var (ok, message) := ValidateInput(name, Some(number));
      if !ok then Reject(message) else Add(name, number)
  }

  /** `update_record`: gated exactly like `add_record`. */
  function DecideUpdate(req: Request): (a: Action)
    ensures req.Get? ==> a == ShowForm
    ensures TouchesStore(a) <==>
              req.Post? && AcceptableName(NameField(req.form)) && AcceptableNumber(NumberField(req.form))
    ensures TouchesStore(a) ==> a == Change(NameField(req.form), NumberField(req.form))
    ensures req.Post? && !TouchesStore(a) ==>
              a == Reject(ValidateInput(NameField(req.form), Some(NumberField(req.form))).1)
  {
    match req
    case Get => ShowForm
    case Post(form) =>
      var name := NameField(form);
      var number := NumberField(form);
      var (ok, message) := ValidateInput(name, Some(number));
      if !ok then Reject(message) else Change(name, number)
  }

  /** `delete_record`: only the name is validated; a number field, if sent, is ignored. */
  function DecideDelete(req: Request): (a: Action)
    ensures req.Get? ==> a == ShowForm
    ensures TouchesStore(a) <==> req.Post? && AcceptableName(NameField(req.form))
    ensures TouchesStore(a) ==> a == Remove(NameField(req.form))
    ensures req.Post? && !TouchesStore(a) ==> a == Reject(ValidateInput(NameField(req.form), None).1)
  {
    match req
    case Get => ShowForm
    case Post(form) =>
      var name := NameField(form);
      var (ok, message) := ValidateInput(name, None);
      if !ok then Reject(message) else Remove(name)
  }

  /** Which outcome the rendered page shows. */
  datatype Page =
    | EmptyForm
    | SearchPrompt
    | Invalid(message: string)
    | Listing(keyword: string, entries: seq<Entry>)
    | Outcome(message: string)

  datatype Response = Response(table: Table, page: Page)

  /** Carry out a decision. Only store actions read or change the table, and
      when the database cannot be reached nothing changes. */
  function Perform(a: Action, t: Table, conn: Connection): (r: Response)
    ensures !TouchesStore(a) ==> r.table == t && !r.page.Outcome? && !r.page.Listing?
    ensures a.Search? ==> r.table == t && r.page.Listing? && |r.page.entries| >= 1
    ensures conn != Connected ==> r.table == t
  {
    match a
    case ShowForm => Response(t, EmptyForm)
    case AskForKeyword => Response(t, SearchPrompt)
    case Reject(message) => Response(t, Invalid(message))
    case Search(keyword) => Response(t, Listing(keyword, Find(t, keyword, conn)))
    case Add(name, number) =>
      var reply := Insert(t, name, number, conn);
      Response(reply.table, Outcome(reply.message))
    case Change(name, number) =>
      var reply := Update(t, name, number, conn);
      Response(reply.table, Outcome(reply.message))
    case Remove(name) =>
      var reply := Delete(t, name, conn);
      Response(reply.table, Outcome(reply.message))
  }

  /** A decision that does not reach the store gives the same response whatever
      state the database is in: no query is made. */
  lemma GatedActionsIgnoreStore(a: Action, t: Table, c1: Connection, c2: Connection)
    requires !TouchesStore(a)
    ensures Perform(a, t, c1) == Perform(a, t, c2)
  {
  }

  // ----- the table the routes maintain -----

  /** A row as the routes write it: the name stored stripped and lower-cased
      and passing the name checks, the number all digits and long enough. */
  predicate SaneRow(row: Row) {
    && row.name == Key(row.name)
    && AcceptableName(row.name)
    && IsDigits(row.number) && |row.number| >= MinNumberLength
  }

  predicate AllSane(rows: seq<Row>) {
    forall i :: 0 <= i < |rows| ==> SaneRow(rows[i])
  }

  /** The invariant the routes keep: a well-formed table of sane rows. */
  predicate Sane(t: Table) {
    Wf(t) && AllSane(t.rows)
  }

  /** A name that passes validation is stored in a form that passes it too. */
  lemma StoredNameIsSane(name: string)
    requires AcceptableName(name)
    ensures Key(name) == Key(Key(name))
    ensures AcceptableName(Key(name))
  {
    KeyIsStable(name);
    DigitsOfLower(Strip(name));
  }

  /** The row `insert_person` writes for a validated, stripped name and number. */
  lemma NewRowIsSane(id: int, name: string, number: string)
    requires AcceptableName(name) && AcceptableNumber(number) && number == Strip(number)
    ensures SaneRow(Row(id, Key(name), number))
  {
    StoredNameIsSane(name);
  }

  lemma AppendKeepsSane(rows: seq<Row>, row: Row)
    requires AllSane(rows) && SaneRow(row)
    ensures AllSane(rows + [row])
  {
    assert forall i :: 0 <= i < |rows| ==> (rows + [row])[i] == rows[i];
  }

  lemma ReplaceKeepsSane(rows: seq<Row>, k: int, row: Row)
    requires 0 <= k < |rows| && AllSane(rows) && SaneRow(row)
    ensures AllSane(rows[k := row])
  {
  }

  lemma RemovalKeepsSane(rows: seq<Row>, k: int)
    requires 0 <= k < |rows| && AllSane(rows)
    ensures AllSane(rows[..k] + rows[k + 1..])
  {
    var rest := rows[..k] + rows[k + 1..];
    assert forall i :: 0 <= i < |rest| ==> rest[i] == rows[if i < k then i else i + 1];
  }

  /** Insert of a validated, stripped name and number keeps the table sane. */
  lemma InsertKeepsSane(t: Table, name: string, number: string, conn: Connection)
    requires Sane(t)
    requires AcceptableName(name) && AcceptableNumber(number) && number == Strip(number)
    ensures Sane(Insert(t, name, number, conn).table)
  {
    InsertPreservesWf(t, name, number, conn);
    if conn == Connected && Absent(t.rows, Key(name)) {
      NewRowIsSane(t.nextId, name, number);
      AppendKeepsSane(t.rows, Row(t.nextId, Key(name), number));
    }
  }

  /** Update with a validated, stripped number keeps the table sane. */
  lemma UpdateKeepsSaneTable(t: Table, name: string, number: string, conn: Connection)
    requires Sane(t)
    requires AcceptableNumber(number) && number == Strip(number)
    ensures Sane(Update(t, name, number, conn).table)
  {
    UpdatePreservesWf(t, name, number, conn);
    if conn == Connected && !Absent(t.rows, Key(name)) {
      var k := FirstMatch(t.rows, Key(name)).value;
      UpdateHitChangesOnlyNumber(t, name, number, k);
      assert SaneRow(t.rows[k]);
      ReplaceKeepsSane(t.rows, k, t.rows[k].(number := number));
    }
  }

  lemma DeleteKeepsSaneTable(t: Table, name: string, conn: Connection)
    requires Sane(t)
    ensures Sane(Delete(t, name, conn).table)
  {
    DeletePreservesWf(t, name, conn);
    if conn == Connected && !Absent(t.rows, Key(name)) {
      var k := FirstMatch(t.rows, Key(name)).value;
      DeleteHitRemovesRow(t, name, k);
      RemovalKeepsSane(t.rows, k);
    }
  }

  /** What the gate guarantees about the fields a store action carries: the
      name passes the name checks, and a number to be written passes the
      number checks and is already stripped. */
  predicate Cleared(a: Action) {
    && (a.Add? ==> AcceptableName(a.name) && AcceptableNumber(a.number) && a.number == Strip(a.number))
    && (a.Change? ==> AcceptableNumber(a.number) && a.number == Strip(a.number))
  }

  /** Carrying out a cleared action keeps the table sane. */
  lemma PerformKeepsSane(a: Action, t: Table, conn: Connection)
    requires Sane(t) && Cleared(a)
    ensures Sane(Perform(a, t, conn).table)
  {
    match a
    case Add(name, number) => InsertKeepsSane(t, name, number, conn);
    case Change(name, number) => UpdateKeepsSaneTable(t, name, number, conn);
    case Remove(name) => DeleteKeepsSaneTable(t, name, conn);
    case _ =>
  }

  /** Every decision the four handlers can take is cleared. */
  lemma DecisionsAreCleared(req: Request)
    ensures Cleared(DecideFind(req))
    ensures Cleared(DecideAdd(req))
    ensures Cleared(DecideUpdate(req))
    ensures Cleared(DecideDelete(req))
  {
    if req.Post? {
      StripIdempotent(Field(req.form, "phonenumber"));
    }
  }

  /** Every route keeps the table sane: whatever request arrives, the rows
      stay unique by id and by lower-cased name, names stay stored stripped,
      lower-cased and valid, and numbers stay all digits and at least ten long. */
  lemma RoutesKeepSane(t: Table, req: Request, conn: Connection)
    requires Sane(t)
    ensures Sane(Perform(DecideFind(req), t, conn).table)
    ensures Sane(Perform(DecideAdd(req), t, conn).table)
    ensures Sane(Perform(DecideUpdate(req), t, conn).table)
    ensures Sane(Perform(DecideDelete(req), t, conn).table)
  {
    DecisionsAreCleared(req);
    PerformKeepsSane(DecideFind(req), t, conn);
    PerformKeepsSane(DecideAdd(req), t, conn);
    PerformKeepsSane(DecideUpdate(req), t, conn);
    PerformKeepsSane(DecideDelete(req), t, conn);
  }
}
