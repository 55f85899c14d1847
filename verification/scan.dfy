/** The Parquet scan: every message id once, from its newest file. */
module Scan {
  import opened Base
  import opened Sorting

  datatype MessageRow = MessageRow(mid: Mid, list: Bytes, date: Option<int>, inReplyTo: Option<Mid>,
                                   references: seq<Mid>,
                                   segmentId: nat, offset: nat)

  datatype ParquetFile = ParquetFile(mtime: nat, rows: seq<MessageRow>)

  function DateKey(r: MessageRow): int {
    match r.date
    case None => I64_MIN
    case Some(d) => d
  }

  // ----- File order ---------------------------------------------------------

  const NEWEST_FILE_FIRST: (ParquetFile, ParquetFile) -> bool := (a: ParquetFile, b: ParquetFile) => a.mtime >= b.mtime

  /** `parquet_files`: by modification time, newest first. */
  function ParquetFiles(dir: seq<ParquetFile>): seq<ParquetFile> {
    Sort(dir, NEWEST_FILE_FIRST)
  }

  function AllRows(files: seq<ParquetFile>): seq<MessageRow> {
    if files == [] then [] else AllRows(files[..|files| - 1]) + files[|files| - 1].rows
  }

  function Mids(rows: seq<MessageRow>): set<Mid> {
    set r | r in rows :: r.mid
  }

  /** The first row of every message id. */
  function Dedup(rows: seq<MessageRow>): seq<MessageRow> {
    if rows == [] then []
    else
      var front, last := rows[..|rows| - 1], rows[|rows| - 1];
      Dedup(front) + if last.mid in Mids(front) then [] else [last]
  }

  /** The corpus as every scan sees it. */
  function Corpus(dir: seq<ParquetFile>): seq<MessageRow> {
    Dedup(AllRows(ParquetFiles(dir)))
  }

  ghost predicate DistinctMids(rows: seq<MessageRow>) {
    forall i, j :: 0 <= i < j < |rows| ==> rows[i].mid != rows[j].mid
  }

  lemma MidsAppend(rows: seq<MessageRow>, more: seq<MessageRow>)
    ensures Mids(rows + more) == Mids(rows) + Mids(more)
  {
  }

  lemma {:induction false} DedupKeepsMids(rows: seq<MessageRow>)
    ensures Mids(Dedup(rows)) == Mids(rows)
    ensures DistinctMids(Dedup(rows))
    ensures forall r :: r in Dedup(rows) ==> r in rows
    decreases |rows|
  {
    if rows != [] {
      var front, last := rows[..|rows| - 1], rows[|rows| - 1];
      DedupKeepsMids(front);
      assert rows == front + [last];
      MidsAppend(front, [last]);
      MidsAppend(Dedup(front), [last]);
      assert Mids([last]) == {last.mid};
      if last.mid !in Mids(front) {
        forall i | 0 <= i < |Dedup(front)| ensures Dedup(front)[i].mid != last.mid {
          assert Dedup(front)[i] in Dedup(front);
        }
      }
    }
  }

  /** What survives is the first row with its id. */
  ghost predicate FirstOfMid(rows: seq<MessageRow>, i: nat) {
    i < |rows| && forall j :: 0 <= j < i ==> rows[j].mid != rows[i].mid
  }

  lemma {:induction false} DedupKeepsFirst(rows: seq<MessageRow>, i: nat)
    requires FirstOfMid(rows, i)
    ensures rows[i] in Dedup(rows)
    decreases |rows|
  {
    var front, last := rows[..|rows| - 1], rows[|rows| - 1];
    if i < |rows| - 1 {
      assert FirstOfMid(front, i);
      DedupKeepsFirst(front, i);
    } else {
      forall r | r in front ensures r.mid != last.mid {
        var j :| 0 <= j < |front| && front[j] == r;
        assert rows[j] == r;
      }
    }
  }

  lemma {:induction false} FirstExists(rows: seq<MessageRow>, mid: Mid) returns (i: nat)
    requires mid in Mids(rows)
    ensures FirstOfMid(rows, i) && rows[i].mid == mid
  {
    i := 0;
    var r :| r in rows && r.mid == mid;
    while rows[i].mid != mid
      invariant i < |rows|
      invariant forall j :: 0 <= j < i ==> rows[j].mid != mid
      decreases |rows| - i
    {
      if i == |rows| - 1 {
        assert false;
      }
      i := i + 1;
    }
  }

  /** The row at position `i` of the concatenation, and the file it comes from. */
  lemma {:induction false} RowHasFile(files: seq<ParquetFile>, i: nat) returns (f: nat)
    requires i < |AllRows(files)|
    ensures f < |files| && AllRows(files)[i] in files[f].rows
    ensures forall g, r :: 0 <= g < |files| && r in files[g].rows && r !in AllRows(files)[..i] ==> f <= g
    decreases |files|
  {
    var front, last := files[..|files| - 1], files[|files| - 1];
    var before := AllRows(front);
    if i < |before| {
      f := RowHasFile(front, i);
      assert AllRows(files)[..i] == before[..i];
      forall g, r | 0 <= g < |files| && r in files[g].rows && r !in AllRows(files)[..i] ensures f <= g {
        if g < |files| - 1 {
          assert r in front[g].rows;
        }
      }
    } else {
      f := |files| - 1;
      assert AllRows(files)[i] == last.rows[i - |before|];
      assert AllRows(files)[..i] == before + last.rows[..i - |before|];
      forall g, r | 0 <= g < |files| && r in files[g].rows && r !in AllRows(files)[..i] ensures f <= g {
        if g < f {
          AllRowsHolds(front, g, r);
        }
      }
    }
  }

  lemma {:induction false} AllRowsHolds(files: seq<ParquetFile>, f: nat, r: MessageRow)
    requires f < |files| && r in files[f].rows
    ensures r in AllRows(files)
    decreases |files|
  {
    if f < |files| - 1 {
      AllRowsHolds(files[..|files| - 1], f, r);
    }
  }

  /**
    A scan yields each message id of the directory exactly once, and the row it yields comes from a
    file no older than any other file that has the id.
   */
  lemma ScanIsFreshestOnce(dir: seq<ParquetFile>, file: ParquetFile, row: MessageRow)
    requires file in dir && row in file.rows
    ensures DistinctMids(Corpus(dir))
    ensures exists r, f :: r in Corpus(dir) && r.mid == row.mid && f in dir && r in f.rows && f.mtime >= file.mtime
  {
    hide AllRows, Dedup, Sort;
    var files := ParquetFiles(dir);
    var rows := AllRows(files);
    DedupKeepsMids(rows);
    SortMember(dir, NEWEST_FILE_FIRST, file);
    var k :| 0 <= k < |files| && files[k] == file;
    AllRowsHolds(files, k, row);
    var i := FirstExists(rows, row.mid);
    DedupKeepsFirst(rows, i);
    var f := RowHasFile(files, i);
    SortMember(dir, NEWEST_FILE_FIRST, files[f]);
    assert row !in rows[..i] by {
      forall r | r in rows[..i] ensures r.mid != row.mid {
        var j :| 0 <= j < i && rows[j] == r;
      }
    }
    assert f <= k;
    SortSorts(dir, NEWEST_FILE_FIRST);
    assert files[f].mtime >= file.mtime;
  }

  lemma CorpusComesFromFiles(dir: seq<ParquetFile>, r: MessageRow)
    requires r in Corpus(dir)
    ensures exists f :: f in dir && r in f.rows
  {
    var files := ParquetFiles(dir);
    DedupKeepsMids(AllRows(files));
    var i :| 0 <= i < |AllRows(files)| && AllRows(files)[i] == r;
    var f := RowHasFile(files, i);
    SortMember(dir, NEWEST_FILE_FIRST, files[f]);
  }

  // ----- The scan loop ------------------------------------------------------

  /**
    Visiting `rows` in order with a visitor that collects and, after each row, may ask to stop:
    the rows collected, and whether it stopped.
   */
  function Visit(rows: seq<MessageRow>, keep: MessageRow -> bool, stop: seq<MessageRow> -> bool)
    : (seq<MessageRow>, bool)
  {
    if rows == [] then ([], false)
    else
      var (out, stopped) := Visit(rows[..|rows| - 1], keep, stop);
      var last := rows[|rows| - 1];
      if stopped || !keep(last) then (out, stopped)
      else (out + [last], stop(out + [last]))
  }

  /** The loop state after the rows `met`: the ids seen, and what the visitor holds without having stopped. */
  ghost predicate ScannedTo(met: seq<MessageRow>, seen: set<Mid>, out: seq<MessageRow>, keep: MessageRow -> bool,
                            stop: seq<MessageRow> -> bool) {
    seen == Mids(met) && Visit(Dedup(met), keep, stop) == (out, false)
  }

  lemma ScanOne(met: seq<MessageRow>, row: MessageRow, seen: set<Mid>, out: seq<MessageRow>, keep: MessageRow -> bool,
                stop: seq<MessageRow> -> bool)
    requires ScannedTo(met, seen, out, keep, stop)
    ensures row.mid in seen ==> ScannedTo(met + [row], seen, out, keep, stop)
    ensures row.mid !in seen && !keep(row) ==> ScannedTo(met + [row], seen + {row.mid}, out, keep, stop)
    ensures row.mid !in seen && keep(row) ==> Visit(Dedup(met + [row]), keep, stop) == (out + [row], stop(out + [row]))
    ensures row.mid !in seen && keep(row) && !stop(out + [row]) ==>
      ScannedTo(met + [row], seen + {row.mid}, out + [row], keep, stop)
  {
    MidsAppend(met, [row]);
    assert Mids([row]) == {row.mid};
    assert (met + [row])[..|met|] == met;
    assert Dedup(met + [row]) == Dedup(met) + if row.mid in seen then [] else [row];
    if row.mid in seen {
      assert Dedup(met + [row]) == Dedup(met);
    } else {
      assert Dedup(met + [row])[..|Dedup(met)|] == Dedup(met);
    }
  }

  method ScanDir(dir: seq<ParquetFile>, keep: MessageRow -> bool, stop: seq<MessageRow> -> bool)
    returns (out: seq<MessageRow>)
    ensures out == Visit(Corpus(dir), keep, stop).0
  {
    hide Visit, Dedup, Mids, ScannedTo, AllRows, ParquetFiles;
    var seen: set<Mid> := {};
    out := [];
    var files := ParquetFiles(dir);
    var f := 0;
    ScanBegins(files, keep, stop);
    while f < |files|
      invariant f <= |files| && ScannedTo(AllRows(files[..f]), seen, out, keep, stop)
    {
      var rows := files[f].rows;
      var i := 0;
      assert AllRows(files[..f]) + rows[..0] == AllRows(files[..f]);
      while i < |rows|
        invariant i <= |rows| && ScannedTo(AllRows(files[..f]) + rows[..i], seen, out, keep, stop)
      {
        var row := rows[i];
        ghost var met := AllRows(files[..f]) + rows[..i];
        assert AllRows(files[..f]) + rows[..i + 1] == met + [row];
        ScanOne(met, row, seen, out, keep, stop);
        i := i + 1;
        if row.mid in seen {
          continue;
        }
        seen := seen + {row.mid};
        if !keep(row) {
          continue;
        }
        out := out + [row];
        if stop(out) {
          StoppedForGood(files, f, rows, i, keep, stop);
          return;
        }
      }
      FileDone(files, f);
      assert rows[..i] == rows;
      f := f + 1;
    }
    assert files[..f] == files;
    ScanEnds(AllRows(files), seen, out, keep, stop);
  }

  lemma ScanBegins(files: seq<ParquetFile>, keep: MessageRow -> bool, stop: seq<MessageRow> -> bool)
    ensures ScannedTo(AllRows(files[..0]), {}, [], keep, stop)
  {
  }

  lemma ScanEnds(met: seq<MessageRow>, seen: set<Mid>, out: seq<MessageRow>, keep: MessageRow -> bool,
                 stop: seq<MessageRow> -> bool)
    requires ScannedTo(met, seen, out, keep, stop)
    ensures Visit(Dedup(met), keep, stop).0 == out
  {
  }

  lemma FileDone(files: seq<ParquetFile>, f: nat)
    requires f < |files|
    ensures AllRows(files[..f + 1]) == AllRows(files[..f]) + files[f].rows
  {
    assert files[..f + 1][..f] == files[..f];
  }

  lemma {:induction false} VisitStopped(a: seq<MessageRow>, b: seq<MessageRow>, keep: MessageRow -> bool,
                                        stop: seq<MessageRow> -> bool)
    requires Visit(a, keep, stop).1
    ensures Visit(a + b, keep, stop) == Visit(a, keep, stop)
    decreases |b|
  {
    if b == [] {
      assert a + b == a;
    } else {
      VisitStopped(a, b[..|b| - 1], keep, stop);
      assert (a + b)[..|a + b| - 1] == a + b[..|b| - 1];
    }
  }

  lemma {:induction false} DedupExtends(a: seq<MessageRow>, b: seq<MessageRow>)
    ensures Dedup(a) <= Dedup(a + b)
    decreases |b|
  {
    if b == [] {
      assert a + b == a;
    } else {
      DedupExtends(a, b[..|b| - 1]);
      assert (a + b)[..|a + b| - 1] == a + b[..|b| - 1];
    }
  }

  lemma {:induction false} AllRowsExtends(files: seq<ParquetFile>, f: nat)
    requires f <= |files|
    ensures AllRows(files[..f]) <= AllRows(files)
    decreases |files| - f
  {
    if f == |files| {
      assert files[..f] == files;
    } else {
      AllRowsExtends(files, f + 1);
      assert files[..f + 1][..f] == files[..f];
    }
  }

  lemma StoppedForGood(files: seq<ParquetFile>, f: nat, rows: seq<MessageRow>, i: nat, keep: MessageRow -> bool,
                       stop: seq<MessageRow> -> bool)
    requires f < |files| && rows == files[f].rows && i <= |rows|
    requires Visit(Dedup(AllRows(files[..f]) + rows[..i]), keep, stop).1
    ensures Visit(Dedup(AllRows(files)), keep, stop) == Visit(Dedup(AllRows(files[..f]) + rows[..i]), keep, stop)
  {
    hide Visit, Dedup, AllRows;
    var met := AllRows(files[..f]) + rows[..i];
    FileDone(files, f);
    AllRowsExtends(files, f + 1);
    var all := AllRows(files);
    assert met <= AllRows(files[..f + 1]) <= all;
    DedupExtends(met, all[|met|..]);
    assert all == met + all[|met|..];
    var d, e := Dedup(met), Dedup(all);
    assert e == d + e[|d|..];
    VisitStopped(d, e[|d|..], keep, stop);
  }

  const NEVER: seq<MessageRow> -> bool := s => false

  /** A visitor that never stops sees all rows that pass the filter. */
  lemma {:induction false} VisitAll(rows: seq<MessageRow>, keep: MessageRow -> bool)
    ensures Visit(rows, keep, NEVER) == (Filter(rows, keep), false)
    decreases |rows|
  {
    if rows != [] {
      var front, last := rows[..|rows| - 1], rows[|rows| - 1];
      VisitAll(front, keep);
      assert Filter(rows, keep) == if keep(last) then Filter(front, keep) + [last] else Filter(front, keep);
    }
  }

  function AtLeast(n: nat): seq<MessageRow> -> bool {
    s => |s| >= n
  }

  /** A visitor that stops at `n` rows gets the first `n`, but one even when it wants none. */
  lemma {:induction false} VisitFirst(rows: seq<MessageRow>, keep: MessageRow -> bool, n: nat)
    ensures var wanted := if n == 0 then 1 else n;
      && Visit(rows, keep, AtLeast(n)).0 == Take(Filter(rows, keep), wanted)
      && (Visit(rows, keep, AtLeast(n)).1 <==> |Filter(rows, keep)| >= wanted)
    decreases |rows|
  {
    if rows != [] {
      var front, last := rows[..|rows| - 1], rows[|rows| - 1];
      var wanted := if n == 0 then 1 else n;
      VisitFirst(front, keep, n);
      var kept := Filter(front, keep);
      assert Filter(rows, keep) == kept + if keep(last) then [last] else [];
      if |kept| >= wanted {
        assert Take(Filter(rows, keep), wanted) == Take(kept, wanted);
      } else {
        assert Take(kept, wanted) == kept;
        assert Take(kept + [last], wanted) == kept + [last];
        assert AtLeast(n)(kept + [last]) <==> |kept| + 1 >= wanted;
      }
    }
  }
}
