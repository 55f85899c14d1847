/** What a scan finds of a saved commit. */
module Visible {
  // The scan reads the Parquet files of the data directory, newest first; the order of the renames
  // is the order of the modification times.

  import opened Base
  import opened Ingest
  import S = Store
  import C = Scan

  /** What the mail parser makes of a commit's message, besides its id. */
  datatype Header = Header(date: Option<int>, inReplyTo: Option<Bytes>, references: seq<Bytes>)

  type Parser = Oid -> Header

  /** The row as a reader decodes it. */
  function MessageRowOf(list: Bytes, parse: Parser, row: Row): C.MessageRow {
    var h := parse(row.oid);
    C.MessageRow(row.mid, list, h.date, h.inReplyTo, h.references, row.ptr.segmentId, row.ptr.offset)
  }

  function MessageRows(list: Bytes, parse: Parser, rows: seq<Row>): seq<C.MessageRow> {
    seq(|rows|, i requires 0 <= i < |rows| => MessageRowOf(list, parse, rows[i]))
  }

  /** The directory of Parquet files; a later rename has a later modification time. */
  function Directory(list: Bytes, parse: Parser, d: Disk): seq<C.ParquetFile> {
    seq(|d.files|, k requires 0 <= k < |d.files| => C.ParquetFile(k, MessageRows(list, parse, d.files[k].rows)))
  }

  function CorpusOf(list: Bytes, parse: Parser, d: Disk): seq<C.MessageRow> {
    C.Corpus(Directory(list, parse, d))
  }

  ghost predicate FileHasMid(d: Disk, k: nat, mid: Bytes) {
    k < |d.files| && exists row :: row in d.files[k].rows && row.mid == mid
  }

  ghost predicate NewestWith(d: Disk, k: nat, mid: Bytes) {
    FileHasMid(d, k, mid) && forall j: nat :: FileHasMid(d, j, mid) ==> j <= k
  }

  lemma {:induction false} NewestExists(d: Disk, j: nat, mid: Bytes) returns (k: nat)
    requires FileHasMid(d, j, mid)
    ensures NewestWith(d, k, mid)
    decreases |d.files| - j
  {
    if i: nat :| FileHasMid(d, i, mid) && i > j {
      k := NewestExists(d, i, mid);
    } else {
      k := j;
    }
  }

  lemma DirectoryRow(list: Bytes, parse: Parser, d: Disk, k: nat, row: Row)
    requires k < |d.files| && row in d.files[k].rows
    ensures Directory(list, parse, d)[k] in Directory(list, parse, d)
    ensures MessageRowOf(list, parse, row) in Directory(list, parse, d)[k].rows
  {
    var i :| 0 <= i < |d.files[k].rows| && d.files[k].rows[i] == row;
    assert MessageRows(list, parse, d.files[k].rows)[i] == MessageRowOf(list, parse, row);
  }

  lemma RowOfDirectory(list: Bytes, parse: Parser, d: Disk, f: C.ParquetFile, r: C.MessageRow) returns (k: nat, i: nat)
    requires f in Directory(list, parse, d) && r in f.rows
    ensures k == f.mtime < |d.files| && i < |d.files[k].rows|
    ensures MessageRowOf(list, parse, d.files[k].rows[i]) == r
  {
    k :| k < |d.files| && Directory(list, parse, d)[k] == f;
    i :| i < |f.rows| && f.rows[i] == r;
  }

  /** Where the corpus row `r` points, there is the blob of the commit of `row`, which has its id. */
  ghost predicate ServesCommit(g: Graph, codec: Codec<Bytes>, d: Disk, row: Row, r: C.MessageRow) {
    && row.oid in g && Ingestible(g[row.oid]) && g[row.oid].mid == Some(r.mid)
    && S.ReadAt(codec, d.segs, r.segmentId, r.offset) == Ok(g[row.oid].data.value)
  }

  /** The corpus row `r` is row `i` of file `k`. */
  ghost predicate IsRow(list: Bytes, parse: Parser, d: Disk, r: C.MessageRow, k: nat, i: nat) {
    k < |d.files| && i < |d.files[k].rows| && r == MessageRowOf(list, parse, d.files[k].rows[i])
  }

  lemma NewestRowIsScanned(list: Bytes, parse: Parser, d: Disk, k: nat, mid: Bytes) returns (r: C.MessageRow, i: nat)
    requires NewestWith(d, k, mid)
    ensures r in CorpusOf(list, parse, d) && r.mid == mid && IsRow(list, parse, d, r, k, i)
    ensures C.DistinctMids(CorpusOf(list, parse, d))
  {
    hide C.Corpus, C.DistinctMids;
    var dir := Directory(list, parse, d);
    var row :| row in d.files[k].rows && row.mid == mid;
    DirectoryRow(list, parse, d, k, row);
    C.ScanIsFreshestOnce(dir, dir[k], MessageRowOf(list, parse, row));
    var f: C.ParquetFile;
    r, f :| r in C.Corpus(dir) && r.mid == mid && f in dir && r in f.rows && f.mtime >= dir[k].mtime;
    var j, n := RowOfDirectory(list, parse, d, f, r);
    assert d.files[j].rows[n] in d.files[j].rows;
    assert FileHasMid(d, j, mid);
    i := n;
  }

  /** Exactly one row of `rows` has the id. */
  ghost predicate Once(rows: seq<C.MessageRow>, mid: Bytes, r: C.MessageRow) {
    exists n ::
      && 0 <= n < |rows| && rows[n] == r && r.mid == mid
      && forall j :: 0 <= j < |rows| && rows[j].mid == mid ==> j == n
  }

  lemma DistinctIsOnce(rows: seq<C.MessageRow>, mid: Bytes, r: C.MessageRow)
    requires C.DistinctMids(rows) && r in rows && r.mid == mid
    ensures Once(rows, mid, r)
  {
    var n :| 0 <= n < |rows| && rows[n] == r;
    forall j | 0 <= j < |rows| && rows[j].mid == mid ensures j == n {
      assert rows[j].mid == rows[n].mid;
    }
  }

  /**
    No saved commit is invisible: in every reachable state of any history of runs and crashes, a scan
    yields exactly one row with the id of each ingestible commit that the saved tip reaches. The row
    comes from the newest file that has the id, and reads back the blob of a commit with that id.
   */
  lemma SavedCommitIsScanned(g: Graph, codec: Codec<Bytes>, list: Bytes, parse: Parser, trace: seq<State>, n: nat,
                             shard: Shard, c: Oid)
    requires SelfDelimiting(codec) && Behaviour(g, codec, false, trace) && n < |trace|
    requires shard in trace[n].disk.oids && c in g && Ingestible(g[c]) && Reaches(g, trace[n].disk.oids[shard], c)
    ensures var d, mid := trace[n].disk, g[c].mid.value;
      exists r, k: nat, i: nat ::
        && Once(CorpusOf(list, parse, d), mid, r)
        && NewestWith(d, k, mid) && IsRow(list, parse, d, r, k, i)
        && ServesCommit(g, codec, d, d.files[k].rows[i], r)
  {
    hide Behaviour, Reaches, CorpusOf, Once, C.DistinctMids, IsRow, ServesCommit, NewestWith;
    NoLostCommit(g, codec, trace, n, shard, c);
    var d, mid := trace[n].disk, g[c].mid.value;
    var f, j :| 0 <= f < |d.files| && 0 <= j < |d.files[f].rows|
      && RowReadsBack(g, codec, d, d.files[f].rows[j], shard, c);
    FilesAreOk(g, codec, trace, n);
    EveryRowReadsBack(g, codec, d, f, j);
    assert d.files[f].rows[j] in d.files[f].rows;
    var k := NewestExists(d, f, mid);
    var r, i := NewestRowIsScanned(list, parse, d, k, mid);
    DistinctIsOnce(CorpusOf(list, parse, d), mid, r);
    RowServes(g, codec, list, parse, d, r, k, i);
  }

  lemma FilesAreOk(g: Graph, codec: Codec<Bytes>, trace: seq<State>, n: nat)
    requires SelfDelimiting(codec) && Behaviour(g, codec, false, trace) && n < |trace|
    ensures FilesOk(g, codec, trace[n].disk)
  {
    ReachableIsInv(g, codec, false, trace, n);
  }

  lemma RowServes(g: Graph, codec: Codec<Bytes>, list: Bytes, parse: Parser, d: Disk, r: C.MessageRow, k: nat, i: nat)
    requires SelfDelimiting(codec) && FilesOk(g, codec, d) && IsRow(list, parse, d, r, k, i)
    ensures ServesCommit(g, codec, d, d.files[k].rows[i], r)
  {
    EveryRowReadsBack(g, codec, d, k, i);
  }

  /** Saved or not, every row a scan yields reads back the blob of a commit with its id. */
  lemma ScannedRowServes(g: Graph, codec: Codec<Bytes>, list: Bytes, parse: Parser, trace: seq<State>, n: nat,
                         r: C.MessageRow)
    requires SelfDelimiting(codec) && Behaviour(g, codec, false, trace) && n < |trace|
    requires r in CorpusOf(list, parse, trace[n].disk)
    ensures var d := trace[n].disk;
      exists k: nat, i: nat :: IsRow(list, parse, d, r, k, i) && ServesCommit(g, codec, d, d.files[k].rows[i], r)
  {
    hide Behaviour, C.Corpus, ServesCommit;
    var d := trace[n].disk;
    FilesAreOk(g, codec, trace, n);
    C.CorpusComesFromFiles(Directory(list, parse, d), r);
    var f :| f in Directory(list, parse, d) && r in f.rows;
    var k, i := RowOfDirectory(list, parse, d, f, r);
    RowServes(g, codec, list, parse, d, r, k, i);
  }
}
