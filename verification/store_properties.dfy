/**
  Properties of the record operations of `Store`: what search returns and in
  which order, that insert, update and delete keep the table well formed
  (unique ids below the AUTO_INCREMENT counter, at most one row per
  lower-cased name), that update and delete touch exactly the matched row,
  and how the operations compose.
*/
module StoreProperties {
  import opened Text
  import opened Optional
  import opened Store

  // ----- search -----

  /** An entry is in the search result exactly when it is the display form of
      a row whose lower-cased name contains the keyword. */
  lemma {:induction false} HitsMembership(rows: seq<Row>, kw: string, e: Entry)
    ensures e in Hits(rows, kw) <==>
              exists i :: 0 <= i < |rows| && NameContains(rows[i], kw) && e == Display(rows[i])
    decreases |rows|
  {
    if rows != [] {
      HitsMembership(rows[1..], kw, e);
      if e in Hits(rows[1..], kw) {
        var i :| 0 <= i < |rows[1..]| && NameContains(rows[1..][i], kw) && e == Display(rows[1..][i]);
        assert rows[i + 1] == rows[1..][i];
      }
      if exists i :: 0 <= i < |rows| && NameContains(rows[i], kw) && e == Display(rows[i]) {
        var i :| 0 <= i < |rows| && NameContains(rows[i], kw) && e == Display(rows[i]);
        if i > 0 {
          assert rows[1..][i - 1] == rows[i];
        }
      }
    }
  }

  /** Search keeps store order: the hits of a concatenation are the hits of
      the first part followed by the hits of the second. */
  lemma {:induction false} HitsConcat(a: seq<Row>, b: seq<Row>, kw: string)
    ensures Hits(a + b, kw) == Hits(a, kw) + Hits(b, kw)
    decreases |a|
  {
    if a == [] {
      assert a + b == b;
    } else {
      assert (a + b)[1..] == a[1..] + b;
      HitsConcat(a[1..], b, kw);
    }
  }

  /** A connected search never answers with an empty list: either the rows
      that match, with their display names, or the single "No Result" entry,
      which cannot be confused with a real row. */
  lemma FindResult(t: Table, keyword: string, e: Entry)
    ensures Find(t, keyword, Connected) == [NoResult] || NoResult !in Find(t, keyword, Connected)
    ensures Find(t, keyword, Connected) != [NoResult] ==>
              (e in Find(t, keyword, Connected) <==>
                 exists i :: 0 <= i < |t.rows| && NameContains(t.rows[i], Key(keyword))
                             && e == Display(t.rows[i]))
  {
    HitsMembership(t.rows, Key(keyword), e);
  }

  // ----- the stored name -----

  /** A stored name is its own key: lower-cased, stripped, and lower-cased again it is unchanged. */
  lemma KeyIsStable(name: string)
    ensures Lower(Key(name)) == Key(name)
    ensures Strip(Key(name)) == Key(name)
    ensures Key(Key(name)) == Key(name)
  {
    LowerIdempotent(Strip(name));
    StripOfLower(Strip(name));
    StripIdempotent(name);
  }

  /** The name search shows for a stored row is the title-cased name the user typed. */
  lemma DisplayOfStoredName(name: string)
    ensures Title(Strip(Key(name))) == Title(Strip(name))
  {
    KeyIsStable(name);
    TitleOfLower(Strip(name));
  }

  // ----- insert -----

  /** Insert keeps the table well formed; in particular it never adds a second
      row under a lower-cased name that is already present. */
  lemma InsertPreservesWf(t: Table, name: string, number: string, conn: Connection)
    requires Wf(t)
    ensures Wf(Insert(t, name, number, conn).table)
  {
    if conn == Connected && Absent(t.rows, Key(name)) {
      KeyIsStable(name);
      var rows := Insert(t, name, number, conn).table.rows;
      assert forall i :: 0 <= i < |t.rows| ==> rows[i] == t.rows[i];
      assert rows[|t.rows|] == Row(t.nextId, Key(name), number);
    }
  }

  /** Adding a name a second time, in any letter case, is refused and names
      the row the first call stored; the table keeps the original number. */
  lemma InsertTwiceConflicts(t: Table, name: string, again: string, n1: string, n2: string)
    requires Wf(t) && Absent(t.rows, Key(name))
    requires Key(again) == Key(name)
    ensures var t1 := Insert(t, name, n1, Connected).table;
            Insert(t1, again, n2, Connected) == Reply(t1, AlreadyExists(Key(name)))
  {
    var t1 := Insert(t, name, n1, Connected).table;
    KeyIsStable(name);
    InsertPreservesWf(t, name, n1, Connected);
    var k := |t.rows|;
    assert t1.rows[k] == Row(t.nextId, Key(name), n1);
    assert FirstHit(t1.rows, Key(again), k);
  }

  /** Round trip: after a successful insert, searching for any part of the
      name finds the new row, shown title-cased with the number as given. */
  lemma InsertThenFind(t: Table, name: string, number: string, keyword: string)
    requires Absent(t.rows, Key(name))
    requires Contains(Key(name), Key(keyword))
    ensures Entry(Some(t.nextId), Title(Strip(name)), number)
              in Find(Insert(t, name, number, Connected).table, keyword, Connected)
  {
    var t1 := Insert(t, name, number, Connected).table;
    var row := Row(t.nextId, Key(name), number);
    KeyIsStable(name);
    DisplayOfStoredName(name);
    assert t1.rows[|t.rows|] == row;
    assert NameContains(row, Key(keyword));
    HitsMembership(t1.rows, Key(keyword), Display(row));
  }

  // ----- update -----

  /** In a well-formed table, update on a hit replaces the number of the
      matched row and nothing else: not its id, not its stored name, and no
      other row. */
  lemma UpdateHitChangesOnlyNumber(t: Table, name: string, number: string, k: int)
    requires Wf(t) && FirstHit(t.rows, Key(name), k)
    ensures Update(t, name, number, Connected)
              == Reply(Table(t.rows[k := t.rows[k].(number := number)], t.nextId), Updated(name))
  {
    var r := Update(t, name, number, Connected);
    assert forall i :: 0 <= i < |t.rows| && i != k ==> t.rows[i].id != t.rows[k].id;
  }

  /** Round trip: after an update hit, searching for the name shows the
      matched row, under its id and display name, with the new number. */
  lemma UpdateThenFind(t: Table, name: string, number: string, k: int)
    requires Wf(t) && FirstHit(t.rows, Key(name), k)
    ensures Entry(Some(t.rows[k].id), Title(Strip(t.rows[k].name)), number)
              in Find(Update(t, name, number, Connected).table, name, Connected)
  {
    UpdateHitChangesOnlyNumber(t, name, number, k);
    var rows := t.rows[k := t.rows[k].(number := number)];
    assert NameContains(rows[k], Key(name));
    HitsMembership(rows, Key(name), Display(rows[k]));
  }

  lemma UpdatePreservesWf(t: Table, name: string, number: string, conn: Connection)
    requires Wf(t)
    ensures Wf(Update(t, name, number, conn).table)
  {
    if conn == Connected && !Absent(t.rows, Key(name)) {
      var k := FirstMatch(t.rows, Key(name)).value;
      UpdateHitChangesOnlyNumber(t, name, number, k);
    }
  }

  // ----- delete -----

  /** Deleting by an id no row carries leaves the rows as they are. */
  lemma {:induction false} DeleteAbsentId(rows: seq<Row>, x: int)
    requires forall i :: 0 <= i < |rows| ==> rows[i].id != x
    ensures DeleteWhereId(rows, x) == rows
    decreases |rows|
  {
    if rows != [] {
      DeleteAbsentId(rows[1..], x);
    }
  }

  /** With unique ids, deleting by the id of row `k` removes exactly that row
      and keeps the others in order. */
  lemma {:induction false} DeleteUniqueId(rows: seq<Row>, k: int)
    requires IdsUnique(rows) && 0 <= k < |rows|
    ensures DeleteWhereId(rows, rows[k].id) == rows[..k] + rows[k + 1..]
    decreases |rows|
  {
    var x := rows[k].id;
    var tail := rows[1..];
    assert forall i :: 0 <= i < |tail| ==> tail[i] == rows[i + 1];
    if k == 0 {
      assert forall i :: 0 <= i < |tail| ==> tail[i].id != x;
      DeleteAbsentId(tail, x);
      assert rows[k + 1..] == tail;
    } else {
      assert rows[0].id != x;
      assert IdsUnique(tail);
      assert tail[k - 1] == rows[k];
      DeleteUniqueId(tail, k - 1);
      assert DeleteWhereId(rows, x) == [rows[0]] + DeleteWhereId(tail, x);
      assert tail[..k - 1] + tail[k..] == rows[1..k] + rows[k + 1..];
      assert [rows[0]] + rows[1..k] == rows[..k];
    }
  }

  /** In a well-formed table, delete on a hit removes exactly the matched row. */
  lemma DeleteHitRemovesRow(t: Table, name: string, k: int)
    requires Wf(t) && FirstHit(t.rows, Key(name), k)
    ensures Delete(t, name, Connected)
              == Reply(Table(t.rows[..k] + t.rows[k + 1..], t.nextId), Deleted(name))
  {
    DeleteUniqueId(t.rows, k);
  }

  /** Round trip: after a delete hit, no search shows the deleted row's id. */
  lemma DeleteThenFind(t: Table, name: string, k: int, keyword: string, e: Entry)
    requires Wf(t) && FirstHit(t.rows, Key(name), k)
    requires e in Find(Delete(t, name, Connected).table, keyword, Connected)
    ensures e.id != Some(t.rows[k].id)
  {
    var rows := Delete(t, name, Connected).table.rows;
    if e != NoResult {
      HitsMembership(rows, Key(keyword), e);
    }
  }

  /** Removing one row keeps the table well formed. */
  lemma RemovalKeepsWf(t: Table, k: int)
    requires Wf(t) && 0 <= k < |t.rows|
    ensures Wf(Table(t.rows[..k] + t.rows[k + 1..], t.nextId))
  {
    var rows := t.rows[..k] + t.rows[k + 1..];
    assert forall i :: 0 <= i < |rows| ==> rows[i] == t.rows[if i < k then i else i + 1];
  }

  lemma DeletePreservesWf(t: Table, name: string, conn: Connection)
    requires Wf(t)
    ensures Wf(Delete(t, name, conn).table)
  {
    if conn == Connected && !Absent(t.rows, Key(name)) {
      var k := FirstMatch(t.rows, Key(name)).value;
      DeleteHitRemovesRow(t, name, k);
      RemovalKeepsWf(t, k);
    }
  }

  /** Delete is idempotent: the second of two identical calls finds nothing to
      delete (or fails the same way) and leaves the table as the first left it. */
  lemma DeleteTwice(t: Table, name: string, conn: Connection)
    requires Wf(t)
    ensures var r1 := Delete(t, name, conn);
            Delete(r1.table, name, conn)
              == if conn == Connected then Reply(r1.table, NothingToDelete(name)) else r1
  {
    if conn == Connected && !Absent(t.rows, Key(name)) {
      var k := FirstMatch(t.rows, Key(name)).value;
      DeleteHitRemovesRow(t, name, k);
      var rows := t.rows[..k] + t.rows[k + 1..];
      assert forall i :: 0 <= i < |rows| ==> rows[i] == t.rows[if i < k then i else i + 1];
      assert Absent(rows, Key(name));
    }
  }
}
