/** The file index of an old database. */
module FileIndex {
  // The file table has no readiness flag: a query uses it whether or not a backfill has been through.

  import opened Base
  import opened Sorting
  import opened Over
  import opened OverScan

  /** A chunk of a file backfill has moved past the rowid. */
  ghost predicate PagedPast(ms: seq<Machine>, es: seq<Event>, i: nat, id: nat)
    requires |ms| == |es| + 1 && i < |ms|
  {
    exists k: nat :: k < i && PagesPast(es[k], ms[k + 1], id)
  }

  predicate PagesPast(e: Event, m': Machine, id: nat) {
    e == Page && m'.job.FilesJob? && m'.job.cursor >= id
  }

  /** The row was inserted during the run, or a file backfill has come past it. */
  ghost predicate Filled(ms: seq<Machine>, es: seq<Event>, i: nat, id: nat)
    requires |ms| == |es| + 1 && i < |ms|
  {
    id > ms[0].db.lastId || PagedPast(ms, es, i, id)
  }

  lemma PagedOneMore(ms: seq<Machine>, es: seq<Event>, i: nat, id: nat)
    requires |ms| == |es| + 1 && i + 1 < |ms|
    ensures PagedPast(ms, es, i + 1, id) <==> PagedPast(ms, es, i, id) || PagesPast(es[i], ms[i + 1], id)
  {
  }

  // ----- What a batch does to one row's entries -----------------------------

  lemma {:induction false} InsertAllEntries(db: Db, batch: seq<Row>, id: nat, s: SideRow)
    requires Valid(db) && id in InsertAll(db, batch).rows && s.key == InsertAll(db, batch).rows[id].key
    ensures var after := InsertAll(db, batch);
      if id <= db.lastId then id in db.rows && db.rows[id] == after.rows[id] && (s in after.files <==> s in db.files)
      else s in after.files <==> s in OfRow(after.rows[id], FILES)
    decreases |batch|
  {
    hide NoOrphans, OfRow, InsertRow;
    if batch != [] {
      var front := batch[..|batch| - 1];
      var before := InsertAll(db, front);
      InsertAllGrows(db, front);
      InsertAllKeepsValid(db, front);
      assert InsertAll(db, batch) == InsertRow(before, batch[|batch| - 1]);
      InsertOneEntries(before, batch[|batch| - 1], id, s);
      if id != before.lastId + 1 {
        InsertAllEntries(db, front, id, s);
      }
    }
  }

  lemma {:induction false} InsertAllGrows(db: Db, batch: seq<Row>)
    ensures InsertAll(db, batch).lastId == db.lastId + |batch|
    decreases |batch|
  {
    if batch != [] {
      InsertAllGrows(db, batch[..|batch| - 1]);
    }
  }

  lemma InsertOneEntries(db: Db, row: Row, id: nat, s: SideRow)
    requires id in InsertRow(db, row).rows && s.key == InsertRow(db, row).rows[id].key
    ensures var after := InsertRow(db, row);
      if id == db.lastId + 1 then s in after.files <==> s in OfRow(after.rows[id], FILES)
      else id in db.rows && db.rows[id] == after.rows[id] && (s in after.files <==> s in db.files)
  {
  }

  // ----- The file table in closed form --------------------------------------

  /** The table holds the entries of the filled rows, and what a running backfill has passed is filled. */
  ghost predicate HoldsFilled(ms: seq<Machine>, es: seq<Event>, i: nat)
    requires |ms| == |es| + 1 && i < |ms|
  {
    && ms[i].db.lastId >= ms[0].db.lastId
    && (forall id, s: SideRow :: id in ms[i].db.rows && s.key == ms[i].db.rows[id].key ==>
          (s in ms[i].db.files <==> s in OfRow(ms[i].db.rows[id], FILES) && Filled(ms, es, i, id)))
    && (ms[i].job.FilesJob? ==> forall id: nat :: 0 < id <= ms[i].job.cursor ==> PagedPast(ms, es, i, id))
  }

  lemma PageFills(ms: seq<Machine>, es: seq<Event>, i: nat)
    requires Run(ms, es) && i + 1 < |ms| && Inv(ms[i]) && HoldsFilled(ms, es, i)
    requires es[i] == Page && ms[i].job.FilesJob?
    ensures HoldsFilled(ms, es, i + 1)
  {
    hide RefillIds, Pending, Derived, OfRow, PagedPast, NoOrphans;
    var m, m' := ms[i], ms[i + 1];
    assert Next(m, es[i], m');
    var n := i + 1;
    var rows, page := m.db.rows, Pending(m.db.rows, m.job.cursor);
    forall id: nat ensures PagedPast(ms, es, n, id) <==> PagedPast(ms, es, i, id) || id <= m'.job.cursor {
      PagedOneMore(ms, es, i, id);
    }
    assert m'.db.rows == rows && m'.job.FilesJob? && m'.job.cursor == LastOf(page);
    forall id, s: SideRow | id in rows && s.key == rows[id].key
      ensures s in m'.db.files <==> s in OfRow(rows[id], FILES) && Filled(ms, es, n, id)
    {
      assert Filled(ms, es, n, id) <==> Filled(ms, es, i, id) || id <= m'.job.cursor;
      RefillIdsIs(m.db.files, rows, m.db.lastId, page, FILES, s);
      OwnEntries(rows, m.db.lastId, id, FILES, s);
      AmongExactly(rows, m.db.lastId, m.job.cursor, id, s.key);
    }
  }

  lemma AmongExactly(rows: Table, lastId: nat, cursor: nat, id: nat, key: Key)
    requires TableOk(rows, lastId) && id in rows && key == rows[id].key && Pending(rows, cursor) != []
    requires forall i :: 0 <= i < |Pending(rows, cursor)| ==> Pending(rows, cursor)[i] in rows
    ensures id > 0
    ensures KeyAmong(rows, Pending(rows, cursor), key) <==> cursor < id <= LastOf(Pending(rows, cursor))
  {
    hide Pending, Listing;
    var page := Pending(rows, cursor);
    PendingIds(rows, cursor);
    if cursor < id <= LastOf(page) {
      PageCovers(rows, cursor, id);
      var i :| 0 <= i < |page| && page[i] == id;
      assert rows[page[i]].key == key;
    }
    if KeyAmong(rows, page, key) {
      var i :| 0 <= i < |page| && rows[page[i]].key == key;
      assert page[i] == id;
      assert i < |page| - 1 ==> page[i] < page[|page| - 1];
    }
  }

  lemma BatchFills(ms: seq<Machine>, es: seq<Event>, i: nat)
    requires Run(ms, es) && i + 1 < |ms| && Inv(ms[i]) && HoldsFilled(ms, es, i) && es[i].Insert?
    ensures HoldsFilled(ms, es, i + 1)
  {
    hide InsertAll, OfRow, PagedPast, Valid;
    var m, m' := ms[i], ms[i + 1];
    assert Next(m, es[i], m');
    var n := i + 1;
    InsertAllGrows(m.db, es[i].batch);
    forall id, s: SideRow | id in m'.db.rows && s.key == m'.db.rows[id].key
      ensures s in m'.db.files <==> s in OfRow(m'.db.rows[id], FILES) && Filled(ms, es, n, id)
    {
      InsertAllEntries(m.db, es[i].batch, id, s);
      PagedOneMore(ms, es, i, id);
    }
  }

  lemma OtherFills(ms: seq<Machine>, es: seq<Event>, i: nat)
    requires Run(ms, es) && i + 1 < |ms| && HoldsFilled(ms, es, i) && !es[i].Insert?
    requires es[i] == Page ==> !ms[i].job.FilesJob?
    ensures HoldsFilled(ms, es, i + 1)
  {
    hide RefillIds, Pending, OfRow, PagedPast;
    assert Next(ms[i], es[i], ms[i + 1]);
    var n := i + 1;
    forall id: nat ensures PagedPast(ms, es, n, id) <==> PagedPast(ms, es, i, id) {
      PagedOneMore(ms, es, i, id);
    }
  }

  /** A database of an older version, whose file table was never filled. */
  ghost predicate Unfilled(m: Machine) {
    m.job == NoJob && Valid(m.db) && m.db.files == {}
  }

  lemma {:induction false} RunHoldsFilled(ms: seq<Machine>, es: seq<Event>, i: nat)
    requires Run(ms, es) && i < |ms| && Unfilled(ms[0])
    ensures Inv(ms[i]) && HoldsFilled(ms, es, i)
    decreases i
  {
    hide Valid, HoldsFilled, Next;
    RunKeepsInv(ms, es, i);
    if i == 0 {
      NothingFilled(ms, es);
    } else {
      RunHoldsFilled(ms, es, i - 1);
      if es[i - 1].Insert? {
        BatchFills(ms, es, i - 1);
      } else if es[i - 1] == Page && ms[i - 1].job.FilesJob? {
        PageFills(ms, es, i - 1);
      } else {
        OtherFills(ms, es, i - 1);
      }
    }
  }

  lemma NothingFilled(ms: seq<Machine>, es: seq<Event>)
    requires |ms| == |es| + 1 && Unfilled(ms[0])
    ensures HoldsFilled(ms, es, 0)
  {
  }

  /**
    In every run (batches, backfills, crashes) that begins with an unfilled file table, a file query finds a
    dated row that has the path exactly if the row was inserted since or a chunk of a file backfill
    has moved past its rowid.
   */
  lemma FileQueryFindsExactly(ms: seq<Machine>, es: seq<Event>, i: nat, id: nat, value: Bytes, q: Query)
    requires Run(ms, es) && i < |ms| && Unfilled(ms[0]) && id in ms[i].db.rows
    requires var row := ms[i].db.rows[id];
      value != [] && value in row.files && row.date.Some? && Passes(q, row.key, row.date)
    ensures SideOf(value)(ms[i].db.rows[id]) in Inner(ms[i].db.files, value, q) <==> Filled(ms, es, i, id)
  {
    hide Valid, PagedPast, Next;
    RunHoldsFilled(ms, es, i);
    var row := ms[i].db.rows[id];
    var s := SideRow(value, row.key, row.date);
    assert s in OfRow(row, FILES);
  }

  lemma EveryEntryIsDerived(ms: seq<Machine>, es: seq<Event>, i: nat)
    requires Run(ms, es) && i < |ms| && Unfilled(ms[0])
    ensures ms[i].db.files <= Derived(ms[i].db.rows, FILES)
  {
    hide Filled, OfRow, Next;
    RunHoldsFilled(ms, es, i);
    var rows, files := ms[i].db.rows, ms[i].db.files;
    forall s | s in files ensures s in Derived(rows, FILES) {
      var id :| id in rows && rows[id].key == s.key;
      assert s in OfRow(rows[id], FILES);
    }
  }

  /** The dated rows with the path that pass the filters and have been filled. */
  ghost predicate FilledMatch(ms: seq<Machine>, es: seq<Event>, i: nat, value: Bytes, q: Query, r: Row)
    requires |ms| == |es| + 1 && i < |ms|
  {
    && r in Indexed(ms[i].db.rows, FILES, value, q)
    && exists id :: id in ms[i].db.rows && ms[i].db.rows[id] == r && Filled(ms, es, i, id)
  }

  lemma FoundAreFilled(ms: seq<Machine>, es: seq<Event>, i: nat, value: Bytes, q: Query, r: Row)
    requires Run(ms, es) && i < |ms| && Unfilled(ms[0])
    ensures r in Found(ms[i].db.rows, FILES, ms[i].db.files, value, q) <==> FilledMatch(ms, es, i, value, q, r)
  {
    hide Filled, Next, Passes;
    RunHoldsFilled(ms, es, i);
    var rows := ms[i].db.rows;
    if r in Indexed(rows, FILES, value, q) {
      var s := SideOf(value)(r);
      forall id | id in rows && rows[id] == r ensures s in ms[i].db.files <==> Filled(ms, es, i, id) {
        assert s in OfRow(rows[id], FILES);
      }
    }
  }

  /**
    So in every such run the answer to a file query is a newest-first top `limit` of exactly the
    matching rows that have been filled.
   */
  lemma FileQueryReturnsFilled(ms: seq<Machine>, es: seq<Event>, i: nat, value: Bytes, q: Query, limit: nat,
                               out: seq<Row>)
    requires Run(ms, es) && i < |ms| && Unfilled(ms[0])
    requires var db := ms[i].db;
      db.files <= Derived(db.rows, FILES) ==> IsTop(out, Found(db.rows, FILES, db.files, value, q), limit, ROW_DATE)
    ensures exists all: set<Row> ::
      (forall r :: r in all <==> FilledMatch(ms, es, i, value, q, r)) && IsTop(out, all, limit, ROW_DATE)
  {
    hide IsTop, FilledMatch, Found, Derived, Next;
    EveryEntryIsDerived(ms, es, i);
    var all := Found(ms[i].db.rows, FILES, ms[i].db.files, value, q);
    forall r ensures r in all <==> FilledMatch(ms, es, i, value, q, r) {
      FoundAreFilled(ms, es, i, value, q, r);
    }
  }

  /** The query itself, at any point of such a run. */
  method QueryFiles(ghost ms: seq<Machine>, ghost es: seq<Event>, ghost i: nat, db: Db, value: Bytes, q: Query,
                    limit: nat)
    returns (out: seq<Row>)
    requires Run(ms, es) && i < |ms| && Unfilled(ms[0]) && db == ms[i].db
    ensures exists all: set<Row> ::
      (forall r :: r in all <==> FilledMatch(ms, es, i, value, q, r)) && IsTop(out, all, limit, ROW_DATE)
    ensures forall r :: r in out ==> FilledMatch(ms, es, i, value, q, r) && r.date.Some?
    ensures forall a, b :: 0 <= a < b < |out| && out[a].date.Some? && out[b].date.Some? ==>
      out[a].date.value >= out[b].date.value
    ensures forall x, y :: FilledMatch(ms, es, i, value, q, x) && x !in out && y in out ==>
      |out| == limit && x.date.Some? && y.date.Some? && y.date.value >= x.date.value
  {
    hide IsTop, FilledMatch, Found, Derived, Next, Valid;
    RunKeepsInv(ms, es, i);
    out := ScanFiles(db, value, q, limit);
    FileQueryReturnsFilled(ms, es, i, value, q, limit, out);
    EveryEntryIsDerived(ms, es, i);
    ghost var all := Found(db.rows, FILES, db.files, value, q);
    TopDates(out, all, limit);
    FilledIsDated(ms, es, i, value, q);
    TopIsFull(out, all, limit);
    forall x | FilledMatch(ms, es, i, value, q, x) ensures x in all {
      FoundAreFilled(ms, es, i, value, q, x);
    }
    forall x | x in out ensures FilledMatch(ms, es, i, value, q, x) {
      FoundAreFilled(ms, es, i, value, q, x);
    }
  }

  lemma FilledIsDated(ms: seq<Machine>, es: seq<Event>, i: nat, value: Bytes, q: Query)
    requires |ms| == |es| + 1 && i < |ms|
    ensures forall r :: FilledMatch(ms, es, i, value, q, r) ==> r.date.Some?
  {
  }

  lemma TopIsFull(out: seq<Row>, all: set<Row>, limit: nat)
    requires IsTop(out, all, limit, ROW_DATE)
    ensures forall x :: x in out ==> x in all
    ensures forall x :: x in all && x !in out ==> |out| == limit
  {
    if x :| x in all && x !in out {
      DistinctFits(out, all - {x});
    }
  }

  /** The whole table is the derived one exactly if every row that touches a file has been filled. */
  lemma FileTableIsDerivedExactly(ms: seq<Machine>, es: seq<Event>, i: nat)
    requires Run(ms, es) && i < |ms| && Unfilled(ms[0])
    ensures ms[i].db.files == Derived(ms[i].db.rows, FILES)
       <==> forall id :: id in ms[i].db.rows && OfRow(ms[i].db.rows[id], FILES) != {} ==> Filled(ms, es, i, id)
  {
    hide Filled, OfRow, Next;
    RunHoldsFilled(ms, es, i);
    var rows, files := ms[i].db.rows, ms[i].db.files;
    if files == Derived(rows, FILES) {
      forall id | id in rows && OfRow(rows[id], FILES) != {} ensures Filled(ms, es, i, id) {
        var s :| s in OfRow(rows[id], FILES);
        MadeHasKey(rows[id], s);
        assert s in files;
      }
    }
    if forall id :: id in rows && OfRow(rows[id], FILES) != {} ==> Filled(ms, es, i, id) {
      forall s: SideRow ensures s in files <==> s in Derived(rows, FILES) {
        if id :| id in rows && rows[id].key == s.key {
          OwnEntries(rows, ms[i].db.lastId, id, FILES, s);
        } else if id :| id in rows && s in OfRow(rows[id], FILES) {
          MadeHasKey(rows[id], s);
        }
      }
    }
  }

  lemma MadeHasKey(row: Row, s: SideRow)
    requires s in OfRow(row, FILES)
    ensures s.key == row.key
  {
  }

  /** Once a file backfill has come to its end the table is the derived one for good. */
  lemma {:induction false} FilesStayDerived(ms: seq<Machine>, es: seq<Event>, k: nat, i: nat)
    requires Run(ms, es) && Inv(ms[0]) && k < i < |ms| && es[k] == Finish && ms[k].job.FilesJob?
    ensures ms[i].db.files == Derived(ms[i].db.rows, FILES)
    decreases i
  {
    hide Derived, RefillIds, Pending, InsertAll;
    RunKeepsInv(ms, es, i - 1);
    NextKeepsInv(ms[i - 1], es[i - 1], ms[i]);
    if k < i - 1 {
      FilesStayDerived(ms, es, k, i - 1);
      var db := ms[i - 1].db;
      assert Next(ms[i - 1], es[i - 1], ms[i]);
      match es[i - 1]
      case Insert(batch) => InsertAllKeepsValid(db, batch);
      case Page =>
        if ms[i - 1].job.FilesJob? {
          RefillOfDerived(db.rows, db.lastId, db.files, Pending(db.rows, ms[i - 1].job.cursor), FILES);
        }
      case _ =>
    }
  }
}
