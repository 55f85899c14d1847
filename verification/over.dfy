/** over.db: rows, side tables and backfills. */
module Over {
  import opened Base
  import opened Sorting

  const CHUNK: nat := 50_000

  datatype Key = Key(mid: Bytes, list: Bytes)

  /** A row of `over`; `rest` stands for the columns and payload fields not looked at here. */
  datatype Row = Row(key: Key, date: Option<int>, files: seq<Bytes>, functions: seq<Bytes>, rest: Bytes)

  /** A row of `over_touched_file` or `over_touched_function`. */
  datatype SideRow = SideRow(value: Bytes, key: Key, date: Option<int>)

  /** `over`, by rowid. */
  type Table = map<nat, Row>

  const FILES: Row -> seq<Bytes> := (r: Row) => r.files
  const FUNCTIONS: Row -> seq<Bytes> := (r: Row) => r.functions

  datatype IndexState = Absent | Building | Complete

  datatype Db = Db(rows: Table, lastId: nat, files: set<SideRow>, functions: set<SideRow>, state: IndexState)

  // ----- What the side tables should hold -----------------------------------

  /** One side row per distinct non-empty value. */
  function Made(row: Row, values: seq<Bytes>): set<SideRow> {
    set v | v in values && v != [] :: SideRow(v, row.key, row.date)
  }

  function OfRow(row: Row, pick: Row -> seq<Bytes>): set<SideRow> {
    Made(row, pick(row))
  }

  function Derived(rows: Table, pick: Row -> seq<Bytes>): set<SideRow> {
    set id, s | id in rows && s in OfRow(rows[id], pick) :: s
  }

  // ----- Statements ---------------------------------------------------------

  function Without(side: set<SideRow>, key: Key): set<SideRow> {
    set s | s in side && s.key != key
  }

  /** DELETE by key, then INSERT the row's non-empty values. */
  function Refill(side: set<SideRow>, row: Row, pick: Row -> seq<Bytes>): set<SideRow> {
    Without(side, row.key) + OfRow(row, pick)
  }

  predicate Taken(side: set<SideRow>, s: SideRow) {
    exists t :: t in side && t.value == s.value && t.key == s.key
  }

  /** The unique index on the key makes INSERT OR REPLACE drop the old row; the new one gets a fresh rowid. */
  function Replace(rows: Table, id: nat, row: Row): Table {
    (map i | i in rows && rows[i].key != row.key :: rows[i])[id := row]
  }

  function InsertRow(db: Db, row: Row): Db {
    Db(Replace(db.rows, db.lastId + 1, row), db.lastId + 1,
       Refill(db.files, row, FILES), Refill(db.functions, row, FUNCTIONS), db.state)
  }

  function InsertAll(db: Db, batch: seq<Row>): Db {
    if batch == [] then db else InsertRow(InsertAll(db, batch[..|batch| - 1]), batch[|batch| - 1])
  }

  // ----- Invariants ---------------------------------------------------------

  ghost predicate TableOk(rows: Table, lastId: nat) {
    && (forall id :: id in rows ==> 1 <= id <= lastId)
    && (forall i, j :: i in rows && j in rows && rows[i].key == rows[j].key ==> i == j)
  }

  /** No side row without its main row. */
  ghost predicate NoOrphans(side: set<SideRow>, rows: Table) {
    forall s :: s in side ==> exists id :: id in rows && rows[id].key == s.key
  }

  ghost predicate Valid(db: Db) {
    && TableOk(db.rows, db.lastId)
    && NoOrphans(db.files, db.rows) && NoOrphans(db.functions, db.rows)
    && (db.state == Complete ==> db.functions == Derived(db.rows, FUNCTIONS))
  }

  lemma InsertKeepsDerived(rows: Table, lastId: nat, side: set<SideRow>, row: Row, pick: Row -> seq<Bytes>)
    requires TableOk(rows, lastId) && side == Derived(rows, pick)
    ensures Refill(side, row, pick) == Derived(Replace(rows, lastId + 1, row), pick)
  {
    var rows' := Replace(rows, lastId + 1, row);
    forall s | s in Derived(rows', pick) ensures s in Refill(side, row, pick) {
      var id :| id in rows' && s in OfRow(rows'[id], pick);
      if id != lastId + 1 {
        assert rows'[id] == rows[id];
      }
    }
    forall s | s in Refill(side, row, pick) ensures s in Derived(rows', pick) {
      if s in OfRow(row, pick) {
        assert rows'[lastId + 1] == row;
      } else {
        var id :| id in rows && s in OfRow(rows[id], pick);
        assert rows'[id] == rows[id];
      }
    }
  }

  lemma InsertKeepsNoOrphans(rows: Table, lastId: nat, side: set<SideRow>, row: Row, pick: Row -> seq<Bytes>)
    requires TableOk(rows, lastId) && NoOrphans(side, rows)
    ensures NoOrphans(Refill(side, row, pick), Replace(rows, lastId + 1, row))
  {
    var rows' := Replace(rows, lastId + 1, row);
    forall s | s in Refill(side, row, pick) ensures exists id :: id in rows' && rows'[id].key == s.key {
      if s in OfRow(row, pick) {
        assert rows'[lastId + 1].key == s.key;
      } else {
        var id :| id in rows && rows[id].key == s.key;
        assert rows'[id].key == s.key;
      }
    }
  }

  lemma InsertRowKeepsValid(db: Db, row: Row)
    requires Valid(db)
    ensures Valid(InsertRow(db, row))
    ensures db.files == Derived(db.rows, FILES) ==> InsertRow(db, row).files == Derived(InsertRow(db, row).rows, FILES)
    ensures db.functions == Derived(db.rows, FUNCTIONS) ==>
      InsertRow(db, row).functions == Derived(InsertRow(db, row).rows, FUNCTIONS)
  {
    hide Refill, Derived, NoOrphans;
    InsertKeepsNoOrphans(db.rows, db.lastId, db.files, row, FILES);
    InsertKeepsNoOrphans(db.rows, db.lastId, db.functions, row, FUNCTIONS);
    if db.files == Derived(db.rows, FILES) {
      InsertKeepsDerived(db.rows, db.lastId, db.files, row, FILES);
    }
    if db.functions == Derived(db.rows, FUNCTIONS) {
      InsertKeepsDerived(db.rows, db.lastId, db.functions, row, FUNCTIONS);
    }
  }

  /** Any batch keeps both side tables equal to what the main rows say. */
  lemma {:induction false} InsertAllKeepsValid(db: Db, batch: seq<Row>)
    requires Valid(db)
    ensures Valid(InsertAll(db, batch))
    ensures InsertAll(db, batch).state == db.state
    ensures db.files == Derived(db.rows, FILES) ==>
      InsertAll(db, batch).files == Derived(InsertAll(db, batch).rows, FILES)
    ensures db.functions == Derived(db.rows, FUNCTIONS) ==>
      InsertAll(db, batch).functions == Derived(InsertAll(db, batch).rows, FUNCTIONS)
    decreases |batch|
  {
    hide Valid, Derived;
    if batch != [] {
      var front := batch[..|batch| - 1];
      InsertAllKeepsValid(db, front);
      InsertRowKeepsValid(InsertAll(db, front), batch[|batch| - 1]);
    }
  }

  /** After a batch: the last row for every key it names, and the old rows of all other keys where they were. */
  ghost predicate BatchLanded(before: Table, batch: seq<Row>, after: Table) {
    && (forall n :: 0 <= n < |batch| && LastOfKey(batch, n) ==> exists id :: id in after && after[id] == batch[n])
    && (forall id :: id in before && !NamesKey(batch, before[id].key) ==> id in after && after[id] == before[id])
    && (forall id :: id in after ==>
          (id in before && after[id] == before[id] && !NamesKey(batch, after[id].key)) || after[id] in batch)
  }

  ghost predicate LastOfKey(batch: seq<Row>, n: nat) {
    n < |batch| && forall m :: n < m < |batch| ==> batch[m].key != batch[n].key
  }

  ghost predicate NamesKey(batch: seq<Row>, key: Key) {
    exists n :: 0 <= n < |batch| && batch[n].key == key
  }

  lemma {:induction false} InsertAllLands(db: Db, batch: seq<Row>)
    requires TableOk(db.rows, db.lastId)
    ensures BatchLanded(db.rows, batch, InsertAll(db, batch).rows)
    ensures TableOk(InsertAll(db, batch).rows, InsertAll(db, batch).lastId)
    decreases |batch|
  {
    hide BatchLanded, TableOk, Refill, Replace;
    if batch == [] {
      NothingLands(db.rows);
    } else {
      var front, row := batch[..|batch| - 1], batch[|batch| - 1];
      InsertAllLands(db, front);
      assert batch == front + [row];
      LandOne(db.rows, front, InsertAll(db, front).rows, InsertAll(db, front).lastId, row);
    }
  }

  lemma NothingLands(rows: Table)
    ensures BatchLanded(rows, [], rows)
  {
  }

  lemma LandOne(before: Table, front: seq<Row>, mid: Table, lastId: nat, row: Row)
    requires BatchLanded(before, front, mid) && TableOk(mid, lastId)
    ensures BatchLanded(before, front + [row], Replace(mid, lastId + 1, row))
    ensures TableOk(Replace(mid, lastId + 1, row), lastId + 1)
  {
    hide NamesKey, LastOfKey;
    var batch, after := front + [row], Replace(mid, lastId + 1, row);
    assert after[lastId + 1] == row && batch[|front|] == row;
    forall n | 0 <= n < |batch| && LastOfKey(batch, n) ensures exists id :: id in after && after[id] == batch[n] {
      if n < |front| {
        StillLast(front, row, n);
        var id :| id in mid && mid[id] == front[n];
        assert after[id] == mid[id];
      }
    }
    forall id | id in before && !NamesKey(batch, before[id].key) ensures id in after && after[id] == before[id] {
      NotNamed(front, row, before[id].key);
    }
    forall id | id in after
      ensures (id in before && after[id] == before[id] && !NamesKey(batch, after[id].key)) || after[id] in batch
    {
      if id != lastId + 1 {
        assert after[id] == mid[id] && mid[id].key != row.key;
        NotNamed(front, row, mid[id].key);
      }
    }
  }

  lemma StillLast(front: seq<Row>, row: Row, n: nat)
    requires n < |front| && LastOfKey(front + [row], n)
    ensures LastOfKey(front, n) && front[n].key != row.key
  {
    var batch := front + [row];
    assert batch[n] == front[n] && batch[|front|] == row;
    assert forall m :: n < m < |front| ==> batch[m] == front[m];
  }

  lemma NotNamed(front: seq<Row>, row: Row, key: Key)
    ensures NamesKey(front + [row], key) <==> NamesKey(front, key) || row.key == key
  {
    if n :| 0 <= n < |front| && front[n].key == key {
      assert (front + [row])[n].key == key;
    }
    assert (front + [row])[|front|] == row;
  }

  // ----- Chunks -------------------------------------------------------------

  function Above(rows: Table, cursor: nat): set<nat> {
    set id | id in rows && id > cursor
  }

  /** SELECT ... WHERE rowid > cursor ORDER BY rowid LIMIT chunk. */
  function Pending(rows: Table, cursor: nat): (ids: seq<nat>)
    ensures |ids| <= 50_000
  {
    Take(Listing(Above(rows, cursor)), CHUNK)
  }

  lemma PendingIds(rows: Table, cursor: nat)
    ensures forall i :: 0 <= i < |Pending(rows, cursor)| ==>
      Pending(rows, cursor)[i] in rows && Pending(rows, cursor)[i] > cursor
    ensures Ascending(Pending(rows, cursor))
    ensures Pending(rows, cursor) == [] <==> Above(rows, cursor) == {}
  {
    ListingIsAscending(Above(rows, cursor));
    var all := Listing(Above(rows, cursor));
    forall i | 0 <= i < |Pending(rows, cursor)| ensures Pending(rows, cursor)[i] in Above(rows, cursor) {
      assert all[i] in all;
    }
  }

  lemma AscendingIsUnique(a: seq<nat>, b: seq<nat>)
    requires Ascending(a) && Ascending(b) && forall x :: x in a <==> x in b
    ensures a == b
  {
    OrderedIsUnique(a, b, (x: nat, y: nat) => x < y);
  }

  lemma SuffixMember(all: seq<nat>, n: nat, x: nat)
    requires Ascending(all) && 0 < n <= |all|
    ensures x in all[n..] <==> x in all && x > all[n - 1]
    ensures Ascending(all[n..])
  {
    if x in all[n..] {
      var i :| 0 <= i < |all[n..]| && all[n..][i] == x;
      assert all[n + i] == x;
    }
    if x in all && x > all[n - 1] {
      var i :| 0 <= i < |all| && all[i] == x;
      assert i >= n;
      assert all[n..][i - n] == x;
    }
  }

  /** The next page starts where this one ends: the rest of the listing is the listing of the rest. */
  lemma PagesFollow(rows: Table, cursor: nat)
    requires Pending(rows, cursor) != []
    ensures var page := Pending(rows, cursor);
      Listing(Above(rows, cursor)) == page + Listing(Above(rows, page[|page| - 1]))
  {
    hide Listing, Ascending;
    var page := Pending(rows, cursor);
    var last := page[|page| - 1];
    var all := Listing(Above(rows, cursor));
    ListingIsAscending(Above(rows, cursor));
    ListingIsAscending(Above(rows, last));
    PendingIds(rows, cursor);
    var n := |page|;
    assert page == all[..n] && all[n - 1] == last;
    forall x ensures x in all[n..] <==> x in Listing(Above(rows, last)) {
      SuffixMember(all, n, x);
    }
    SuffixMember(all, n, 0);
    AscendingIsUnique(all[n..], Listing(Above(rows, last)));
    assert all == all[..n] + all[n..];
  }

  /** Refill for the rows with these ids, in order. */
  function RefillIds(side: set<SideRow>, rows: Table, ids: seq<nat>, pick: Row -> seq<Bytes>): set<SideRow>
    requires forall i :: 0 <= i < |ids| ==> ids[i] in rows
  {
    if ids == [] then side
    else Refill(RefillIds(side, rows, ids[..|ids| - 1], pick), rows[ids[|ids| - 1]], pick)
  }

  ghost predicate KeyAmong(rows: Table, ids: seq<nat>, key: Key)
    requires forall i :: 0 <= i < |ids| ==> ids[i] in rows
  {
    exists i :: 0 <= i < |ids| && rows[ids[i]].key == key
  }

  /** After refilling some rows, those rows' entries are right and the others' are as they were. */
  lemma {:induction false} RefillIdsIs(side: set<SideRow>, rows: Table, lastId: nat, ids: seq<nat>,
                                       pick: Row -> seq<Bytes>, s: SideRow)
    requires TableOk(rows, lastId) && forall i :: 0 <= i < |ids| ==> ids[i] in rows
    ensures KeyAmong(rows, ids, s.key) ==> (s in RefillIds(side, rows, ids, pick) <==> s in Derived(rows, pick))
    ensures !KeyAmong(rows, ids, s.key) ==> (s in RefillIds(side, rows, ids, pick) <==> s in side)
    decreases |ids|
  {
    hide Derived;
    if ids != [] {
      var front, last := ids[..|ids| - 1], ids[|ids| - 1];
      RefillIdsIs(side, rows, lastId, front, pick, s);
      if KeyAmong(rows, front, s.key) {
        var i :| 0 <= i < |front| && rows[front[i]].key == s.key;
        assert rows[ids[i]].key == s.key;
      }
      if KeyAmong(rows, ids, s.key) && rows[last].key != s.key {
        var i :| 0 <= i < |ids| && rows[ids[i]].key == s.key;
        assert rows[front[i]].key == s.key;
      }
      if rows[last].key == s.key {
        OwnEntries(rows, lastId, last, pick, s);
        assert rows[ids[|ids| - 1]].key == s.key;
      }
    }
  }

  lemma OwnEntries(rows: Table, lastId: nat, id: nat, pick: Row -> seq<Bytes>, s: SideRow)
    requires TableOk(rows, lastId) && id in rows && s.key == rows[id].key
    ensures s in Derived(rows, pick) <==> s in OfRow(rows[id], pick)
  {
  }

  /** Refilling every row gives the derived table, whatever was there before. */
  lemma RefillAllIsDerived(side: set<SideRow>, rows: Table, lastId: nat, pick: Row -> seq<Bytes>)
    requires TableOk(rows, lastId) && NoOrphans(side, rows)
    requires forall i :: 0 <= i < |Listing(Above(rows, 0))| ==> Listing(Above(rows, 0))[i] in rows
    ensures RefillIds(side, rows, Listing(Above(rows, 0)), pick) == Derived(rows, pick)
  {
    var ids := Listing(Above(rows, 0));
    ListingIsAscending(Above(rows, 0));
    forall s: SideRow ensures s in RefillIds(side, rows, ids, pick) <==> s in Derived(rows, pick) {
      RefillIdsIs(side, rows, lastId, ids, pick, s);
      if !KeyAmong(rows, ids, s.key) {
        forall id | id in rows ensures rows[id].key != s.key {
          assert id in Above(rows, 0) && id in ids;
          var i :| 0 <= i < |ids| && ids[i] == id;
        }
      }
    }
  }

  lemma {:induction false} RefillIdsCompose(side: set<SideRow>, rows: Table, a: seq<nat>, b: seq<nat>,
                                            pick: Row -> seq<Bytes>)
    requires (forall i :: 0 <= i < |a| ==> a[i] in rows) && (forall i :: 0 <= i < |b| ==> b[i] in rows)
    ensures RefillIds(RefillIds(side, rows, a, pick), rows, b, pick) == RefillIds(side, rows, a + b, pick)
    decreases |b|
  {
    if b == [] {
      assert a + b == a;
    } else {
      RefillIdsCompose(side, rows, a, b[..|b| - 1], pick);
      assert (a + b)[..|a + b| - 1] == a + b[..|b| - 1];
    }
  }

  /** How many side rows the rows with these ids make. */
  function Total(rows: Table, ids: seq<nat>, pick: Row -> seq<Bytes>): nat
    requires forall i :: 0 <= i < |ids| ==> ids[i] in rows
  {
    if ids == [] then 0 else Total(rows, ids[..|ids| - 1], pick) + |OfRow(rows[ids[|ids| - 1]], pick)|
  }

  lemma {:induction false} TotalAppend(rows: Table, a: seq<nat>, b: seq<nat>, pick: Row -> seq<Bytes>)
    requires (forall i :: 0 <= i < |a| ==> a[i] in rows) && (forall i :: 0 <= i < |b| ==> b[i] in rows)
    ensures Total(rows, a + b, pick) == Total(rows, a, pick) + Total(rows, b, pick)
    decreases |b|
  {
    if b == [] {
      assert a + b == a;
    } else {
      TotalAppend(rows, a, b[..|b| - 1], pick);
      assert (a + b)[..|a + b| - 1] == a + b[..|b| - 1];
    }
  }

  /** The side rows of the rows with these ids. */
  function DerivedOf(rows: Table, ids: seq<nat>, pick: Row -> seq<Bytes>): set<SideRow>
    requires forall i :: 0 <= i < |ids| ==> ids[i] in rows
  {
    set i, s | 0 <= i < |ids| && s in OfRow(rows[ids[i]], pick) :: s
  }

  lemma {:induction false} TotalCounts(rows: Table, lastId: nat, ids: seq<nat>, pick: Row -> seq<Bytes>)
    requires TableOk(rows, lastId) && Ascending(ids) && forall i :: 0 <= i < |ids| ==> ids[i] in rows
    ensures Total(rows, ids, pick) == |DerivedOf(rows, ids, pick)|
    decreases |ids|
  {
    if ids != [] {
      var front, last := ids[..|ids| - 1], ids[|ids| - 1];
      TotalCounts(rows, lastId, front, pick);
      forall s | s in DerivedOf(rows, front, pick) ensures s !in OfRow(rows[last], pick) {
        var i :| 0 <= i < |front| && s in OfRow(rows[front[i]], pick);
        assert front[i] == ids[i] && ids[i] < last;
      }
      assert ids == front + [last];
      DerivedOfStep(rows, front, last, pick);
    }
  }

  lemma DerivedOfStep(rows: Table, ids: seq<nat>, id: nat, pick: Row -> seq<Bytes>)
    requires id in rows && forall i :: 0 <= i < |ids| ==> ids[i] in rows
    ensures DerivedOf(rows, ids + [id], pick) == DerivedOf(rows, ids, pick) + OfRow(rows[id], pick)
  {
    hide OfRow;
    var whole := ids + [id];
    forall s | s in DerivedOf(rows, ids, pick) + OfRow(rows[id], pick) ensures s in DerivedOf(rows, whole, pick) {
      if s in OfRow(rows[id], pick) {
        assert whole[|ids|] == id;
      } else {
        var i :| 0 <= i < |ids| && s in OfRow(rows[ids[i]], pick);
        assert whole[i] == ids[i];
      }
    }
  }

  /** Where a backfill stands: the pages read so far, and what they made of the side table. */
  ghost predicate Progress(rows: Table, before: set<SideRow>, pick: Row -> seq<Bytes>,
                           cursor: nat, visited: seq<nat>, side: set<SideRow>, total: nat)
  {
    && (forall i :: 0 <= i < |visited| ==> visited[i] in rows)
    && Listing(Above(rows, 0)) == visited + Listing(Above(rows, cursor))
    && side == RefillIds(before, rows, visited, pick)
    && total == Total(rows, visited, pick)
  }

  lemma ProgressStarts(rows: Table, before: set<SideRow>, pick: Row -> seq<Bytes>)
    ensures Progress(rows, before, pick, 0, [], before, 0)
  {
  }

  lemma ProgressGoesOn(rows: Table, before: set<SideRow>, pick: Row -> seq<Bytes>,
                       cursor: nat, visited: seq<nat>, side: set<SideRow>, total: nat)
    requires Progress(rows, before, pick, cursor, visited, side, total) && Pending(rows, cursor) != []
    ensures var page := Pending(rows, cursor);
      && (forall i :: 0 <= i < |page| ==> page[i] in rows)
      && page[|page| - 1] > cursor
      && Above(rows, page[|page| - 1]) < Above(rows, cursor)
      && Progress(rows, before, pick, page[|page| - 1], visited + page, RefillIds(side, rows, page, pick),
                  total + Total(rows, page, pick))
  {
    hide Listing, Pending, RefillIds, Total;
    var page := Pending(rows, cursor);
    PendingIds(rows, cursor);
    PagesFollow(rows, cursor);
    RefillIdsCompose(before, rows, visited, page, pick);
    TotalAppend(rows, visited, page, pick);
    assert page[|page| - 1] in Above(rows, cursor);
    assert visited + (page + Listing(Above(rows, page[|page| - 1])))
      == visited + page + Listing(Above(rows, page[|page| - 1]));
  }

  lemma ProgressEnds(rows: Table, lastId: nat, before: set<SideRow>, pick: Row -> seq<Bytes>,
                     cursor: nat, visited: seq<nat>, side: set<SideRow>, total: nat)
    requires TableOk(rows, lastId) && NoOrphans(before, rows)
    requires Progress(rows, before, pick, cursor, visited, side, total) && Pending(rows, cursor) == []
    ensures side == Derived(rows, pick) && total == |Derived(rows, pick)| && visited == Listing(rows.Keys)
  {
    hide RefillIds, Total, Pending;
    PendingIds(rows, cursor);
    assert Above(rows, 0) == rows.Keys;
    assert Listing(Above(rows, cursor)) == [];
    assert visited == Listing(Above(rows, 0));
    RefillAllIsDerived(before, rows, lastId, pick);
    ListingIsAscending(Above(rows, 0));
    TotalCounts(rows, lastId, visited, pick);
    forall s | s in Derived(rows, pick) ensures s in DerivedOf(rows, visited, pick) {
      var id :| id in rows && s in OfRow(rows[id], pick);
      assert id in visited;
    }
    assert DerivedOf(rows, visited, pick) == Derived(rows, pick);
  }

  // ----- The connection -----------------------------------------------------

  /** DELETE by key, then INSERT OR IGNORE each non-empty value. */
  method PutValues(side: set<SideRow>, row: Row, values: seq<Bytes>) returns (r: set<SideRow>, added: nat)
    ensures r == Without(side, row.key) + Made(row, values)
    ensures added == |Made(row, values)|
  {
    hide Made, Without, Taken;
    r, added := Without(side, row.key), 0;
    MadeOfNothing(row);
    assert values[..0] == [];
    for i := 0 to |values|
      invariant r == Without(side, row.key) + Made(row, values[..i])
      invariant added == |Made(row, values[..i])|
    {
      var s := SideRow(values[i], row.key, row.date);
      assert values[..i + 1] == values[..i] + [values[i]];
      MadeStep(row, values[..i], values[i]);
      TakenExactly(side, row, values[..i], s);
      if values[i] != [] && !Taken(r, s) {
        r := r + {s};
        added := added + 1;
      }
    }
    assert values[..|values|] == values;
  }

  lemma MadeStep(row: Row, values: seq<Bytes>, v: Bytes)
    ensures Made(row, values + [v]) == Made(row, values) + if v != [] then {SideRow(v, row.key, row.date)} else {}
    ensures |Made(row, values + [v])|
         == |Made(row, values)| + if v != [] && SideRow(v, row.key, row.date) !in Made(row, values) then 1 else 0
  {
    var s := SideRow(v, row.key, row.date);
    assert Made(row, values + [v]) == Made(row, values) + if v != [] then {s} else {};
    if s in Made(row, values) {
      assert Made(row, values) + {s} == Made(row, values);
    }
  }

  lemma MadeOfNothing(row: Row)
    ensures Made(row, []) == {}
  {
  }

  /** After the DELETE only the same row's values can be in the way. */
  lemma TakenExactly(side: set<SideRow>, row: Row, values: seq<Bytes>, s: SideRow)
    requires s.key == row.key && s.date == row.date
    ensures Taken(Without(side, row.key) + Made(row, values), s) <==> s in Made(row, values)
    ensures s !in Without(side, row.key)
  {
  }

  class OverDb {
    var rows: Table
    var lastId: nat
    var files: set<SideRow>
    var functions: set<SideRow>
    var state: IndexState

    ghost function Now(): Db
      reads this
    {
      Db(rows, lastId, files, functions, state)
    }

    /** `open` on a path that does not exist: empty tables, function index complete. */
    constructor Create()
      ensures Now() == Db(map[], 0, {}, {}, Complete)
    {
      rows, lastId, files, functions, state := map[], 0, {}, {}, Complete;
    }

    /** `open` on an existing file: the tables and the index state stay as they are. */
    constructor Open(db: Db)
      ensures Now() == db
    {
      rows, lastId, files, functions, state := db.rows, db.lastId, db.files, db.functions, db.state;
    }

    /** One transaction of `insert_batch_in_tx`. */
    method InsertBatch(batch: seq<Row>)
      modifies this
      ensures Now() == InsertAll(old(Now()), batch)
      ensures TableOk(old(rows), old(lastId)) ==> BatchLanded(old(rows), batch, rows)
    {
      hide Made, Without, Replace, BatchLanded;
      assert batch[..0] == [];
      for i := 0 to |batch|
        invariant Now() == InsertAll(old(Now()), batch[..i])
      {
        var row := batch[i];
        assert batch[..i + 1][..i] == batch[..i];
        lastId := lastId + 1;
        rows := Replace(rows, lastId, row);
        var added;
        files, added := PutValues(files, row, row.files);
        functions, added := PutValues(functions, row, row.functions);
      }
      assert batch[..|batch|] == batch;
      if TableOk(old(rows), old(lastId)) {
        InsertAllLands(old(Now()), batch);
      }
    }

    /** `backfill_touched_files`: chunks in rowid order; `visited` records the ids in the order read. */
    method BackfillFiles() returns (total: nat, ghost visited: seq<nat>)
      requires Valid(Now())
      modifies `files
      ensures Now() == old(Now()).(files := Derived(rows, FILES))
      ensures total == |Derived(rows, FILES)|
      ensures visited == Listing(rows.Keys)
    {
      hide Pending, RefillIds, Total, Progress, Derived, Above;
      ghost var before := files;
      total, visited := 0, [];
      var cursor := 0;
      ProgressStarts(rows, before, FILES);
      while true
        invariant Progress(rows, before, FILES, cursor, visited, files, total)
        decreases Above(rows, cursor)
      {
        var pending := Pending(rows, cursor);
        if pending == [] {
          break;
        }
        ProgressGoesOn(rows, before, FILES, cursor, visited, files, total);
        var added;
        files, added := RefillPage(files, rows, pending, FILES);
        total, visited := total + added, visited + pending;
        cursor := pending[|pending| - 1];
      }
      ProgressEnds(rows, lastId, before, FILES, cursor, visited, files, total);
    }

    /** `backfill_touched_functions`: "building" while it runs, "complete" only after the last chunk. */
    method BackfillFunctions() returns (total: nat, ghost visited: seq<nat>)
      requires Valid(Now())
      modifies `functions, `state
      ensures Now() == old(Now()).(functions := Derived(rows, FUNCTIONS), state := Complete)
      ensures total == |Derived(rows, FUNCTIONS)|
      ensures visited == Listing(rows.Keys)
    {
      hide Pending, RefillIds, Total, Progress, Derived, Above;
      ghost var before := functions;
      total, visited := 0, [];
      var cursor := 0;
      state := Building;
      ProgressStarts(rows, before, FUNCTIONS);
      while true
        invariant state == Building && Progress(rows, before, FUNCTIONS, cursor, visited, functions, total)
        decreases Above(rows, cursor)
      {
        var pending := Pending(rows, cursor);
        if pending == [] {
          break;
        }
        ProgressGoesOn(rows, before, FUNCTIONS, cursor, visited, functions, total);
        var added;
        functions, added := RefillPage(functions, rows, pending, FUNCTIONS);
        total, visited := total + added, visited + pending;
        cursor := pending[|pending| - 1];
      }
      ProgressEnds(rows, lastId, before, FUNCTIONS, cursor, visited, functions, total);
      state := Complete;
    }
  }

  /** The transaction of one chunk. */
  method RefillPage(side: set<SideRow>, rows: Table, pending: seq<nat>, pick: Row -> seq<Bytes>)
    returns (r: set<SideRow>, added: nat)
    requires forall i :: 0 <= i < |pending| ==> pending[i] in rows
    ensures r == RefillIds(side, rows, pending, pick) && added == Total(rows, pending, pick)
  {
    hide Made, Without;
    r, added := side, 0;
    assert pending[..0] == [];
    for i := 0 to |pending|
      invariant r == RefillIds(side, rows, pending[..i], pick) && added == Total(rows, pending[..i], pick)
    {
      assert pending[..i + 1][..i] == pending[..i];
      var n;
      r, n := PutValues(r, rows[pending[i]], pick(rows[pending[i]]));
      added := added + n;
    }
    assert pending[..|pending|] == pending;
  }

  // ----- Every run ----------------------------------------------------------

  datatype Job = NoJob | FilesJob(cursor: nat) | FunctionsJob(cursor: nat)

  datatype Machine = Machine(db: Db, job: Job)

  /**
    What happens under the writer lock: a batch, the begin of a backfill, one chunk, its end, or a
    crash, after which the file is opened again and no backfill is under way.
   */
  datatype Event = Insert(batch: seq<Row>) | BeginFiles | BeginFunctions | Page | Finish | Crash

  function LastOf(ids: seq<nat>): nat
    requires ids != []
  {
    ids[|ids| - 1]
  }

  ghost predicate Next(m: Machine, e: Event, m': Machine) {
    match e
    case Insert(batch) => m.job == NoJob && m' == m.(db := InsertAll(m.db, batch))
    case BeginFiles => m.job == NoJob && m' == m.(job := FilesJob(0))
    case BeginFunctions => m.job == NoJob && m' == Machine(m.db.(state := Building), FunctionsJob(0))
    case Page => m.job != NoJob && PageStep(m, Pending(m.db.rows, m.job.cursor), m')
    case Finish =>
      && m.job != NoJob && Pending(m.db.rows, m.job.cursor) == []
      && m' == Machine(if m.job.FunctionsJob? then m.db.(state := Complete) else m.db, NoJob)
    case Crash => m' == m.(job := NoJob)
  }

  ghost predicate PageStep(m: Machine, page: seq<nat>, m': Machine)
    requires m.job != NoJob
  {
    && page != [] && (forall i :: 0 <= i < |page| ==> page[i] in m.db.rows)
    && m' == if m.job.FilesJob?
             then Machine(m.db.(files := RefillIds(m.db.files, m.db.rows, page, FILES)), FilesJob(LastOf(page)))
             else Machine(m.db.(functions := RefillIds(m.db.functions, m.db.rows, page, FUNCTIONS)),
               FunctionsJob(LastOf(page)))
  }

  ghost predicate Run(ms: seq<Machine>, es: seq<Event>) {
    && |ms| == |es| + 1
    && forall i :: 0 <= i < |es| ==> Next(ms[i], es[i], ms[i + 1])
  }

  /** A database of an older version: no function index yet. */
  ghost predicate Legacy(db: Db) {
    Valid(db) && db.state == Absent
  }

  const CREATED: Db := Db(map[], 0, {}, {}, Complete)

  /** The rows up to the cursor are right. */
  ghost predicate DoneUpTo(rows: Table, side: set<SideRow>, cursor: nat, pick: Row -> seq<Bytes>) {
    forall id: nat, s: SideRow :: id in rows && id <= cursor && s.key == rows[id].key ==>
      (s in side <==> s in OfRow(rows[id], pick))
  }

  ghost predicate Inv(m: Machine) {
    && Valid(m.db)
    && (m.job.FunctionsJob? ==>
          m.db.state == Building && DoneUpTo(m.db.rows, m.db.functions, m.job.cursor, FUNCTIONS))
    && (m.job.FilesJob? ==> DoneUpTo(m.db.rows, m.db.files, m.job.cursor, FILES))
  }

  lemma PageCovers(rows: Table, cursor: nat, id: nat)
    requires Pending(rows, cursor) != [] && id in rows && cursor < id <= LastOf(Pending(rows, cursor))
    ensures id in Pending(rows, cursor)
  {
    ListingIsAscending(Above(rows, cursor));
    var all := Listing(Above(rows, cursor));
    assert id in Above(rows, cursor) && id in all;
    var i :| 0 <= i < |all| && all[i] == id;
    var page := Pending(rows, cursor);
    assert LastOf(page) == all[|page| - 1];
    assert page[i] == id;
  }

  lemma PageKeepsNoOrphans(side: set<SideRow>, rows: Table, lastId: nat, page: seq<nat>, pick: Row -> seq<Bytes>)
    requires TableOk(rows, lastId) && NoOrphans(side, rows) && forall i :: 0 <= i < |page| ==> page[i] in rows
    ensures NoOrphans(RefillIds(side, rows, page, pick), rows)
  {
    hide RefillIds;
    forall s | s in RefillIds(side, rows, page, pick) ensures exists id :: id in rows && rows[id].key == s.key {
      RefillIdsIs(side, rows, lastId, page, pick, s);
      if KeyAmong(rows, page, s.key) {
        var i :| 0 <= i < |page| && rows[page[i]].key == s.key;
      }
    }
  }

  lemma PageExtends(rows: Table, lastId: nat, side: set<SideRow>, cursor: nat, pick: Row -> seq<Bytes>)
    requires TableOk(rows, lastId) && DoneUpTo(rows, side, cursor, pick) && Pending(rows, cursor) != []
    requires forall i :: 0 <= i < |Pending(rows, cursor)| ==> Pending(rows, cursor)[i] in rows
    ensures DoneUpTo(rows, RefillIds(side, rows, Pending(rows, cursor), pick), LastOf(Pending(rows, cursor)), pick)
  {
    hide RefillIds, Pending, Derived, OfRow;
    var page := Pending(rows, cursor);
    forall id: nat, s: SideRow | id in rows && id <= LastOf(page) && s.key == rows[id].key
      ensures s in RefillIds(side, rows, page, pick) <==> s in OfRow(rows[id], pick)
    {
      RefillIdsIs(side, rows, lastId, page, pick, s);
      OwnEntries(rows, lastId, id, pick, s);
      if id > cursor {
        PageCovers(rows, cursor, id);
        var i :| 0 <= i < |page| && page[i] == id;
        assert KeyAmong(rows, page, s.key);
      } else {
        PendingIds(rows, cursor);
      }
    }
  }

  lemma AllDone(rows: Table, lastId: nat, side: set<SideRow>, cursor: nat, pick: Row -> seq<Bytes>)
    requires TableOk(rows, lastId) && NoOrphans(side, rows) && DoneUpTo(rows, side, cursor, pick)
    requires Pending(rows, cursor) == []
    ensures side == Derived(rows, pick)
  {
    PendingIds(rows, cursor);
    forall s: SideRow ensures s in side <==> s in Derived(rows, pick) {
      if id :| id in rows && rows[id].key == s.key {
        assert id !in Above(rows, cursor);
        OwnEntries(rows, lastId, id, pick, s);
      }
    }
  }

  lemma RefillOfDerived(rows: Table, lastId: nat, side: set<SideRow>, page: seq<nat>, pick: Row -> seq<Bytes>)
    requires TableOk(rows, lastId) && side == Derived(rows, pick) && forall i :: 0 <= i < |page| ==> page[i] in rows
    ensures RefillIds(side, rows, page, pick) == side
  {
    forall s: SideRow ensures s in RefillIds(side, rows, page, pick) <==> s in side {
      RefillIdsIs(side, rows, lastId, page, pick, s);
    }
  }

  /** Every event keeps the invariant; a chunk moves the cursor up, so every backfill comes to an end. */
  lemma NextKeepsInv(m: Machine, e: Event, m': Machine)
    requires Inv(m) && Next(m, e, m')
    ensures Inv(m')
    ensures e == Page ==> m'.job != NoJob && m'.job.cursor > m.job.cursor
    ensures e == Page ==> Above(m'.db.rows, m'.job.cursor) < Above(m.db.rows, m.job.cursor)
    ensures e == Finish && m.job.FilesJob? ==> m'.db.files == Derived(m'.db.rows, FILES)
  {
    hide RefillIds, Pending, Derived, OfRow, Above, NoOrphans, TableOk;
    var rows, lastId := m.db.rows, m.db.lastId;
    match e
    case Insert(batch) => InsertAllKeepsValid(m.db, batch);
    case BeginFiles => NothingDone(rows, lastId, m.db.files, FILES);
    case BeginFunctions => NothingDone(rows, lastId, m.db.functions, FUNCTIONS);
    case Page =>
      var c := m.job.cursor;
      CursorMoves(rows, c);
      if m.job.FilesJob? {
        PageExtends(rows, lastId, m.db.files, c, FILES);
        PageKeepsNoOrphans(m.db.files, rows, lastId, Pending(rows, c), FILES);
      } else {
        PageExtends(rows, lastId, m.db.functions, c, FUNCTIONS);
        PageKeepsNoOrphans(m.db.functions, rows, lastId, Pending(rows, c), FUNCTIONS);
      }
    case Finish =>
      if m.job.FilesJob? {
        AllDone(rows, lastId, m.db.files, m.job.cursor, FILES);
      } else {
        AllDone(rows, lastId, m.db.functions, m.job.cursor, FUNCTIONS);
      }
    case Crash =>
  }

  lemma NothingDone(rows: Table, lastId: nat, side: set<SideRow>, pick: Row -> seq<Bytes>)
    requires TableOk(rows, lastId)
    ensures DoneUpTo(rows, side, 0, pick)
  {
  }

  lemma CursorMoves(rows: Table, cursor: nat)
    requires Pending(rows, cursor) != []
    ensures LastOf(Pending(rows, cursor)) > cursor
    ensures Above(rows, LastOf(Pending(rows, cursor))) < Above(rows, cursor)
  {
    PendingIds(rows, cursor);
    assert LastOf(Pending(rows, cursor)) in Above(rows, cursor);
  }

  lemma {:induction false} RunKeepsInv(ms: seq<Machine>, es: seq<Event>, i: nat)
    requires Run(ms, es) && i < |ms| && Inv(ms[0])
    ensures Inv(ms[i])
    decreases i
  {
    if i > 0 {
      RunKeepsInv(ms, es, i - 1);
      NextKeepsInv(ms[i - 1], es[i - 1], ms[i]);
    }
  }

  /**
    Readiness: whenever the state says "complete", in any run from a created or a legacy database, the
    function index is exactly the one the main rows give. So the fast path is taken only when it is right.
   */
  lemma CompleteMeansDerived(ms: seq<Machine>, es: seq<Event>, i: nat)
    requires Run(ms, es) && i < |ms| && ms[0].job == NoJob && (ms[0].db == CREATED || Legacy(ms[0].db))
    ensures ms[i].db.state == Complete ==> ms[i].db.functions == Derived(ms[i].db.rows, FUNCTIONS)
  {
    hide Derived;
    CreatedIsValid();
    RunKeepsInv(ms, es, i);
  }

  lemma CreatedIsValid()
    ensures Valid(CREATED) && CREATED.files == Derived(CREATED.rows, FILES)
    ensures CREATED.functions == Derived(CREATED.rows, FUNCTIONS)
  {
  }

  /** From an empty database both side tables are right in every reachable state, even inside a backfill. */
  lemma {:induction false} FromEmptyAlwaysDerived(ms: seq<Machine>, es: seq<Event>, i: nat)
    requires Run(ms, es) && i < |ms| && ms[0] == Machine(CREATED, NoJob)
    ensures ms[i].db.files == Derived(ms[i].db.rows, FILES)
    ensures ms[i].db.functions == Derived(ms[i].db.rows, FUNCTIONS)
    decreases i
  {
    hide Derived, RefillIds, Pending, InsertAll;
    CreatedIsValid();
    if i > 0 {
      FromEmptyAlwaysDerived(ms, es, i - 1);
      RunKeepsInv(ms, es, i - 1);
      var db := ms[i - 1].db;
      assert Next(ms[i - 1], es[i - 1], ms[i]);
      match es[i - 1]
      case Insert(batch) => InsertAllKeepsValid(db, batch);
      case Page =>
        var page := Pending(db.rows, ms[i - 1].job.cursor);
        if ms[i - 1].job.FilesJob? {
          RefillOfDerived(db.rows, db.lastId, db.files, page, FILES);
        } else {
          RefillOfDerived(db.rows, db.lastId, db.functions, page, FUNCTIONS);
        }
      case _ =>
    }
  }
}
