/** Crash-safe ingest. */
module Ingest {
  // One ingest run as a sequence of atomic steps on the data directory, any of which a process crash
  // may follow. The order of the steps is the order of the source.

  import opened Base
  import opened Whitespace
  import Sorting
  import S = Store

  type Oid = nat
  type Shard = nat
  type RunId = nat

  // ----- History ------------------------------------------------------------

  /** A commit and what the message parser makes of its blob `m`; `None` when there is no such blob. */
  datatype Commit = Commit(parents: set<Oid>, data: Option<Bytes>, mid: Option<Bytes>, patch: Option<Bytes>,
                           prose: bool)

  /** Every commit any shard ever had; object ids are content addresses, so this never changes. */
  type Graph = map<Oid, Commit>

  ghost predicate IsPath(g: Graph, path: seq<Oid>, from: Oid, to: Oid) {
    && path != [] && path[0] == from && path[|path| - 1] == to
    && (forall i :: 0 <= i < |path| ==> path[i] in g)
    && (forall i :: 0 <= i < |path| - 1 ==> path[i + 1] in g[path[i]].parents)
  }

  ghost predicate Reaches(g: Graph, from: Oid, to: Oid) {
    exists path: seq<Oid> :: IsPath(g, path, from, to)
  }

  predicate Ingestible(c: Commit) {
    c.data.Some? && c.data.value != [] && c.mid.Some?
  }

  // ----- The data directory -------------------------------------------------

  datatype Row = Row(oid: Oid, shard: Shard, mid: Bytes, ptr: S.Ptr)

  datatype File = File(runId: RunId, rows: seq<Row>)

  datatype TriDoc = TriDoc(mid: Bytes, patch: Bytes)

  datatype Segment = Segment(runId: RunId, docs: seq<TriDoc>)

  datatype Tier = OverTier | Bm25Tier | TrigramTier

  datatype Disk = Disk(
    segs: map<nat, Bytes>,
    files: seq<File>,        // Parquet files, in the order of their renames
    over: set<Bytes>,        // message ids with a row in over.db
    trigram: seq<Segment>,
    bm25: seq<Bytes>,        // committed documents
    oids: map<Shard, Oid>,
    generation: nat,
    markers: map<Tier, nat>)

  const EMPTY_DISK := Disk(map[], [], {}, [], [], map[], 0, map[])

  /** A rename puts the file in place of an older one of the same run. */
  function WriteParquet(files: seq<File>, f: File): seq<File> {
    WithoutRun(files, f.runId) + [f]
  }

  function WithoutRun(files: seq<File>, runId: RunId): seq<File> {
    if files == [] then []
    else (if files[0].runId == runId then [] else [files[0]]) + WithoutRun(files[1..], runId)
  }

  // ----- One run ------------------------------------------------------------

  /**
    What a call of `ingest_shard` is given and what its environment does: the walk the repository
    yields, whether an over.db writer was supplied and works, and whether new segments can be created.
   */
  datatype Run = Run(shard: Shard, head: Oid, runId: RunId, present: set<Oid>, walk: seq<Oid>,
                     withOver: bool, overOk: bool, createOk: bool)

  datatype Pc =
    | Walking(todo: seq<Oid>)
    | Flushed
    | Written
    | OverDone
    | TrigramDone
    | Bm25Done
    | OidSaved
    | Bumped(newGen: nat)
    | OverMarked(newGen: nat)
    | Bm25Marked(newGen: nat)
    | Finished
    | Failed

  datatype Mem = Mem(run: Run, pc: Pc, segmentId: nat, active: nat, position: nat,
                     batch: seq<Row>, tri: seq<TriDoc>, prose: seq<Bytes>, overRows: set<Bytes>)

  datatype State = State(disk: Disk, proc: Option<Mem>)

  function StoreOf(d: Disk, m: Mem): S.State {
    S.State(d.segs, m.segmentId, m.active, m.position)
  }

  /** The hidden tip is used only while its object exists; a dangling one means a full walk. */
  ghost predicate IsWalk(g: Graph, d: Disk, run: Run) {
    && run.head in run.present
    && (forall c :: c in run.walk <==> Reaches(g, run.head, c) && !Hidden(g, d, run, c))
  }

  ghost predicate Hidden(g: Graph, d: Disk, run: Run, c: Oid) {
    run.shard in d.oids && d.oids[run.shard] in run.present && Reaches(g, d.oids[run.shard], c)
  }

  ghost predicate FreshRun(d: Disk, runId: RunId) {
    && (forall i :: 0 <= i < |d.files| ==> d.files[i].runId != runId)
    && (forall i :: 0 <= i < |d.trigram| ==> d.trigram[i].runId != runId)
  }

  function Begin(d: Disk, run: Run): State {
    var s := S.OpenActive(d.segs);
    State(d.(segs := s.segs), Some(Mem(run, Walking(run.walk), s.segmentId, s.active, s.position, [], [], [], {})))
  }

  function IngestOne(codec: Codec<Bytes>, c: Commit, oid: Oid, d: Disk, m: Mem): (Disk, Mem)
    requires Ingestible(c) && m.active in d.segs && m.pc.Walking? && m.pc.todo != []
  {
    if c.patch.Some? && |m.tri| > U32_MAX then (d, m.(pc := Failed))
    else
      var mid := Squeeze(c.mid.value);
      var (r, s) := S.Append(codec, StoreOf(d, m), c.data.value, m.run.createOk);
      var d1 := d.(segs := s.segs);
      match r
      case Err(_) => (d1, m.(pc := Failed, segmentId := s.segmentId, active := s.active, position := s.position))
      case Ok(ptr) =>
        (d1, m.(pc := Walking(m.pc.todo[1..]), segmentId := s.segmentId, active := s.active, position := s.position,
                batch := m.batch + [Row(oid, m.run.shard, c.mid.value, ptr)],
                tri := if c.patch.Some? then m.tri + [TriDoc(mid, c.patch.value)] else m.tri,
                prose := if c.prose then m.prose + [mid] else m.prose,
                overRows := if m.run.withOver then m.overRows + {mid} else m.overRows))
  }

  function SetMarker(d: Disk, tier: Tier, n: nat): Disk {
    d.(markers := d.markers[tier := n])
  }

  /** `saturating_add(1)` on a 64-bit counter. */
  function NextGeneration(n: nat): nat {
    if n >= U64_MAX then U64_MAX else n + 1
  }

  function Step(g: Graph, codec: Codec<Bytes>, d: Disk, m: Mem): (Disk, Mem)
    requires m.active in d.segs
    requires m.pc.Walking? && m.pc.todo != [] ==> m.pc.todo[0] in g
  {
    match m.pc
    case Walking(todo) =>
      if todo == [] then (d, m.(pc := Flushed))
      else if Ingestible(g[todo[0]]) then IngestOne(codec, g[todo[0]], todo[0], d, m)
      else (d, m.(pc := Walking(todo[1..])))
    case Flushed =>
      if m.batch == [] then (d.(oids := d.oids[m.run.shard := m.run.head]), m.(pc := Finished))
      else (d.(files := WriteParquet(d.files, File(m.run.runId, m.batch))), m.(pc := Written))
    case Written =>
      (if m.run.withOver && m.run.overOk then d.(over := d.over + m.overRows) else d, m.(pc := OverDone))
    case OverDone =>
      if m.tri == [] then (d, m.(pc := TrigramDone))
      else if exists i :: 0 <= i < |d.trigram| && d.trigram[i].runId == m.run.runId then (d, m.(pc := Failed))
      else (d.(trigram := d.trigram + [Segment(m.run.runId, m.tri)]), m.(pc := TrigramDone))
    case TrigramDone => (d.(bm25 := d.bm25 + m.prose), m.(pc := Bm25Done))
    case Bm25Done => (d.(oids := d.oids[m.run.shard := m.run.head]), m.(pc := OidSaved))
    case OidSaved =>
      var n := NextGeneration(d.generation);
      (d.(generation := n), m.(pc := Bumped(n)))
    case Bumped(n) =>
      (if m.run.withOver && !m.run.overOk then d else SetMarker(d, OverTier, n), m.(pc := OverMarked(n)))
    case OverMarked(n) => (SetMarker(d, Bm25Tier, n), m.(pc := Bm25Marked(n)))
    case Bm25Marked(n) => (SetMarker(d, TrigramTier, n), m.(pc := Finished))
    case Finished => (d, m)
    case Failed => (d, m)
  }

  /** A crash in mid-append leaves `written` bytes of the frame behind; elsewhere it leaves nothing. */
  function CrashDisk(g: Graph, codec: Codec<Bytes>, d: Disk, m: Mem, written: nat): Disk
    requires m.active in d.segs
  {
    if m.pc.Walking? && m.pc.todo != [] && m.pc.todo[0] in g && Ingestible(g[m.pc.todo[0]]) then
      d.(segs := S.TornAppend(codec, StoreOf(d, m), g[m.pc.todo[0]].data.value, m.run.createOk, written).segs)
    else d
  }

  // ----- Behaviours ---------------------------------------------------------

  ghost predicate Starts(g: Graph, allOver: bool, s: State, s': State, run: Run) {
    && s.proc.None? && IsWalk(g, s.disk, run) && FreshRun(s.disk, run.runId)
    && (allOver ==> run.withOver && run.overOk)
    && s' == Begin(s.disk, run)
  }

  ghost predicate Steps(g: Graph, codec: Codec<Bytes>, s: State, s': State) {
    && s.proc.Some? && s.proc.value.active in s.disk.segs
    && (s.proc.value.pc.Walking? && s.proc.value.pc.todo != [] ==> s.proc.value.pc.todo[0] in g)
    && var (d, m) := Step(g, codec, s.disk, s.proc.value);
       s' == State(d, Some(m))
  }

  /** The process ends: at the end of the run, on an error, or killed at any point. */
  ghost predicate Ends(g: Graph, codec: Codec<Bytes>, s: State, s': State, written: nat) {
    && s.proc.Some? && s.proc.value.active in s.disk.segs
    && s' == State(CrashDisk(g, codec, s.disk, s.proc.value, written), None)
  }

  /** `allOver` restricts attention to histories in which every run writes over.db successfully. */
  ghost predicate Next(g: Graph, codec: Codec<Bytes>, allOver: bool, s: State, s': State) {
    || (exists run: Run :: Starts(g, allOver, s, s', run))
    || Steps(g, codec, s, s')
    || (exists written: nat :: Ends(g, codec, s, s', written))
  }

  ghost predicate Behaviour(g: Graph, codec: Codec<Bytes>, allOver: bool, trace: seq<State>) {
    && trace != [] && trace[0] == State(EMPTY_DISK, None)
    && forall i :: 0 <= i < |trace| - 1 ==> Next(g, codec, allOver, trace[i], trace[i + 1])
  }

  // ----- What every reachable state satisfies -------------------------------

  ghost predicate RowOk(g: Graph, codec: Codec<Bytes>, segs: map<nat, Bytes>, row: Row) {
    && row.oid in g && Ingestible(g[row.oid]) && g[row.oid].mid == Some(row.mid)
    && S.Holds(codec, segs, S.Issued(row.ptr, g[row.oid].data.value))
  }

  ghost predicate RowsOk(g: Graph, codec: Codec<Bytes>, segs: map<nat, Bytes>, rows: seq<Row>) {
    forall i :: 0 <= i < |rows| ==> RowOk(g, codec, segs, rows[i])
  }

  ghost predicate FilesOk(g: Graph, codec: Codec<Bytes>, d: Disk) {
    && (forall id :: id in d.segs ==> id <= U32_MAX)
    && forall f :: 0 <= f < |d.files| ==> RowsOk(g, codec, d.segs, d.files[f].rows)
  }

  ghost predicate InRows(rows: seq<Row>, shard: Shard, c: Oid) {
    exists i :: 0 <= i < |rows| && rows[i].oid == c && rows[i].shard == shard
  }

  ghost predicate Recorded(d: Disk, shard: Shard, c: Oid) {
    exists f :: 0 <= f < |d.files| && InRows(d.files[f].rows, shard, c)
  }

  ghost predicate InTrigram(d: Disk, doc: TriDoc) {
    exists i :: 0 <= i < |d.trigram| && doc in d.trigram[i].docs
  }

  /** The commit has its row, and the trigram and prose documents its message calls for. */
  ghost predicate Landed(g: Graph, d: Disk, allOver: bool, shard: Shard, c: Oid)
    requires c in g && Ingestible(g[c])
  {
    && Recorded(d, shard, c)
    && HasTriDoc(g[c], d)
    && (g[c].prose ==> Squeeze(g[c].mid.value) in d.bm25)
    && (allOver ==> Squeeze(g[c].mid.value) in d.over)
  }

  ghost predicate HasTriDoc(c: Commit, d: Disk)
    requires Ingestible(c)
  {
    c.patch.Some? ==> InTrigram(d, TriDoc(Squeeze(c.mid.value), c.patch.value))
  }

  ghost predicate AllLanded(g: Graph, d: Disk, allOver: bool, shard: Shard, tip: Oid) {
    forall c :: c in g && Ingestible(g[c]) && Reaches(g, tip, c) ==> Landed(g, d, allOver, shard, c)
  }

  ghost predicate SavedLanded(g: Graph, d: Disk, allOver: bool) {
    forall shard :: shard in d.oids ==> AllLanded(g, d, allOver, shard, d.oids[shard])
  }

  /** Progress of a run, as a number. */
  function Rank(pc: Pc): nat {
    match pc
    case Walking(_) => 0
    case Flushed => 1
    case Written => 2
    case OverDone => 3
    case TrigramDone => 4
    case Bm25Done => 5
    case _ => 6
  }

  /** Where the message of one walked commit has got to. */
  ghost predicate Carried(g: Graph, d: Disk, m: Mem, allOver: bool, c: Oid)
    requires c in g && Ingestible(g[c])
  {
    var mid, rank := Squeeze(g[c].mid.value), Rank(m.pc);
    && InRows(m.batch, m.run.shard, c)
    && (g[c].patch.Some? ==> TriDoc(mid, g[c].patch.value) in m.tri)
    && (g[c].prose ==> mid in m.prose)
    && (allOver ==> mid in m.overRows)
    && (rank >= 2 ==> Recorded(d, m.run.shard, c))
    && (rank >= 3 && allOver ==> mid in d.over)
    && (rank >= 4 ==> HasTriDoc(g[c], d))
    && (rank >= 5 && g[c].prose ==> mid in d.bm25)
  }

  function Todo(pc: Pc): seq<Oid> {
    if pc.Walking? then pc.todo else []
  }

  ghost predicate RunOk(g: Graph, codec: Codec<Bytes>, d: Disk, m: Mem, allOver: bool) {
    && S.WriterOk(StoreOf(d, m))
    && RowsOk(g, codec, d.segs, m.batch)
    && (allOver ==> m.run.withOver && m.run.overOk)
    && (m.pc.Walking? ==> forall c :: c in m.pc.todo ==> c in g)
    && (m.pc != Failed && Rank(m.pc) <= 1 ==> forall i :: 0 <= i < |d.files| ==> d.files[i].runId != m.run.runId)
    && (Rank(m.pc) <= 5 ==> forall c :: c in g && Ingestible(g[c]) && Reaches(g, m.run.head, c) && c !in Todo(m.pc) ==>
          Landed(g, d, allOver, m.run.shard, c) || Carried(g, d, m, allOver, c))
  }

  ghost predicate Inv(g: Graph, codec: Codec<Bytes>, allOver: bool, s: State) {
    && FilesOk(g, codec, s.disk)
    && SavedLanded(g, s.disk, allOver)
    && (s.proc.Some? ==> RunOk(g, codec, s.disk, s.proc.value, allOver))
  }

  // ----- The tiers only grow ------------------------------------------------

  ghost predicate Extends(d: Disk, d': Disk) {
    && S.Grew(d.segs, d'.segs) && d.files <= d'.files && d.trigram <= d'.trigram
    && d.bm25 <= d'.bm25 && d.over <= d'.over
  }

  lemma LandedStays(g: Graph, d: Disk, d': Disk, allOver: bool, shard: Shard, c: Oid)
    requires c in g && Ingestible(g[c]) && Extends(d, d') && Landed(g, d, allOver, shard, c)
    ensures Landed(g, d', allOver, shard, c)
  {
  }

  lemma SavedStays(g: Graph, d: Disk, d': Disk, allOver: bool)
    requires Extends(d, d') && d'.oids == d.oids && SavedLanded(g, d, allOver)
    ensures SavedLanded(g, d', allOver)
  {
    forall shard | shard in d'.oids ensures AllLanded(g, d', allOver, shard, d'.oids[shard]) {
      assert AllLanded(g, d, allOver, shard, d.oids[shard]);
      forall c | c in g && Ingestible(g[c]) && Reaches(g, d'.oids[shard], c) ensures Landed(g, d', allOver, shard, c) {
        LandedStays(g, d, d', allOver, shard, c);
      }
    }
  }

  lemma RowStays(g: Graph, codec: Codec<Bytes>, segs: map<nat, Bytes>, segs': map<nat, Bytes>, row: Row)
    requires S.Grew(segs, segs') && RowOk(g, codec, segs, row)
    ensures RowOk(g, codec, segs', row)
  {
    S.HoldsAfterGrowth(codec, segs, segs', S.Issued(row.ptr, g[row.oid].data.value));
  }

  lemma RowsStay(g: Graph, codec: Codec<Bytes>, segs: map<nat, Bytes>, segs': map<nat, Bytes>, rows: seq<Row>)
    requires S.Grew(segs, segs') && RowsOk(g, codec, segs, rows)
    ensures RowsOk(g, codec, segs', rows)
  {
    forall i | 0 <= i < |rows| ensures RowOk(g, codec, segs', rows[i]) {
      RowStays(g, codec, segs, segs', rows[i]);
    }
  }

  lemma FilesStay(g: Graph, codec: Codec<Bytes>, d: Disk, d': Disk)
    requires FilesOk(g, codec, d) && S.Grew(d.segs, d'.segs) && d'.files == d.files
    requires forall id :: id in d'.segs ==> id <= U32_MAX
    ensures FilesOk(g, codec, d')
  {
    forall f | 0 <= f < |d'.files| ensures RowsOk(g, codec, d'.segs, d'.files[f].rows) {
      RowsStay(g, codec, d.segs, d'.segs, d.files[f].rows);
    }
  }

  /** `m'` carries at least what `m` carries, in the same phase. */
  ghost predicate CarriesMore(m: Mem, m': Mem) {
    && m'.run == m.run && Rank(m'.pc) == Rank(m.pc)
    && m.batch <= m'.batch && m.tri <= m'.tri && m.prose <= m'.prose && m.overRows <= m'.overRows
  }

  // ----- Each step keeps the invariant --------------------------------------

  /** The part of `RunOk` about the commits of the walk. */
  ghost predicate WalkOk(g: Graph, d: Disk, m: Mem, allOver: bool) {
    Rank(m.pc) <= 5 ==> forall c :: c in g && Ingestible(g[c]) && Reaches(g, m.run.head, c) && c !in Todo(m.pc) ==>
      Landed(g, d, allOver, m.run.shard, c) || Carried(g, d, m, allOver, c)
  }

  lemma WalkStays(g: Graph, d: Disk, d': Disk, m: Mem, m': Mem, allOver: bool)
    requires WalkOk(g, d, m, allOver) && Extends(d, d') && CarriesMore(m, m')
    requires forall c :: c in Todo(m.pc) && c in g && Ingestible(g[c]) && c !in Todo(m'.pc) ==>
      Carried(g, d', m', allOver, c)
    ensures WalkOk(g, d', m', allOver)
  {
    if Rank(m'.pc) <= 5 {
      forall c | c in g && Ingestible(g[c]) && Reaches(g, m'.run.head, c) && c !in Todo(m'.pc)
        ensures Landed(g, d', allOver, m'.run.shard, c) || Carried(g, d', m', allOver, c)
      {
        if c !in Todo(m.pc) {
          if Landed(g, d, allOver, m.run.shard, c) {
            LandedStays(g, d, d', allOver, m.run.shard, c);
          }
        }
      }
    }
  }

  lemma AppendFacts(codec: Codec<Bytes>, c: Commit, d: Disk, m: Mem)
    requires SelfDelimiting(codec) && S.WriterOk(StoreOf(d, m)) && Ingestible(c)
    ensures var (r, s) := S.Append(codec, StoreOf(d, m), c.data.value, m.run.createOk);
      && S.WriterOk(s) && S.Grew(d.segs, s.segs)
      && (r.Ok? ==> S.Holds(codec, s.segs, S.Issued(r.value, c.data.value)))
  {
    S.AppendKeepsAll(codec, StoreOf(d, m), c.data.value, m.run.createOk, []);
    var (r, s) := S.Append(codec, StoreOf(d, m), c.data.value, m.run.createOk);
    if r.Ok? {
      assert ([] + [S.Issued(r.value, c.data.value)])[0] == S.Issued(r.value, c.data.value);
    }
  }

  lemma IngestOneKeeps(g: Graph, codec: Codec<Bytes>, allOver: bool, d: Disk, m: Mem)
    requires SelfDelimiting(codec) && Inv(g, codec, allOver, State(d, Some(m)))
    requires m.pc.Walking? && m.pc.todo != [] && m.pc.todo[0] in g && Ingestible(g[m.pc.todo[0]])
    ensures var (d', m') := IngestOne(codec, g[m.pc.todo[0]], m.pc.todo[0], d, m);
      Inv(g, codec, allOver, State(d', Some(m')))
  {
    hide S.WriterOk, S.Append, S.Grew, S.Holds, FilesOk, SavedLanded, Landed, Carried;
    var oid := m.pc.todo[0];
    var c := g[oid];
    WriterIds(d, m);
    var (d', m') := IngestOne(codec, c, oid, d, m);
    AppendFacts(codec, c, d, m);
    var (r, s) := S.Append(codec, StoreOf(d, m), c.data.value, m.run.createOk);
    GrewSame(d.segs);
    WriterIds(d', m');
    FilesStay(g, codec, d, d');
    SavedStays(g, d, d', allOver);
    RowsStay(g, codec, d.segs, d'.segs, m.batch);
    if m'.pc != Failed {
      NewlyCarried(g, codec, d, m, allOver);
      WalkStays(g, d, d', m, m', allOver);
    }
  }

  lemma GrewSame(segs: map<nat, Bytes>)
    ensures S.Grew(segs, segs)
  {
  }

  lemma WriterIds(d: Disk, m: Mem)
    requires S.WriterOk(StoreOf(d, m))
    ensures m.active in d.segs && forall id :: id in d.segs ==> id <= U32_MAX
  {
  }

  lemma NewlyCarried(g: Graph, codec: Codec<Bytes>, d: Disk, m: Mem, allOver: bool)
    requires m.active in d.segs && m.pc.Walking? && m.pc.todo != [] && m.pc.todo[0] in g && Ingestible(g[m.pc.todo[0]])
    requires allOver ==> m.run.withOver
    ensures var (d', m') := IngestOne(codec, g[m.pc.todo[0]], m.pc.todo[0], d, m);
      m'.pc.Walking? ==> Carried(g, d', m', allOver, m.pc.todo[0])
  {
    var (d', m') := IngestOne(codec, g[m.pc.todo[0]], m.pc.todo[0], d, m);
    if m'.pc.Walking? {
      var i := |m.batch|;
      assert m'.batch[i].oid == m.pc.todo[0];
    }
  }

  lemma BeginKeeps(g: Graph, codec: Codec<Bytes>, allOver: bool, s: State, s': State, run: Run)
    requires Inv(g, codec, allOver, s) && Starts(g, allOver, s, s', run)
    ensures Inv(g, codec, allOver, s')
  {
    hide Landed, Carried, S.Grew;
    var d, d', m' := s.disk, s'.disk, s'.proc.value;
    OpenFacts(codec, d.segs);
    FilesStay(g, codec, d, d');
    SavedStays(g, d, d', allOver);
    forall c | c in g && Ingestible(g[c]) && Reaches(g, run.head, c) && c !in run.walk
      ensures Landed(g, d', allOver, run.shard, c)
    {
      assert Hidden(g, d, run, c);
      assert AllLanded(g, d', allOver, run.shard, d'.oids[run.shard]);
    }
    forall c | c in run.walk ensures c in g {
      var path: seq<Oid> :| IsPath(g, path, run.head, c);
    }
  }

  lemma OpenFacts(codec: Codec<Bytes>, segs: map<nat, Bytes>)
    requires forall id :: id in segs ==> id <= U32_MAX
    ensures var s := S.OpenActive(segs); S.WriterOk(s) && S.Grew(segs, s.segs)
    ensures forall id :: id in S.OpenActive(segs).segs ==> id <= U32_MAX
  {
    S.OpenKeepsFiles(codec, segs, []);
  }

  lemma EndKeeps(g: Graph, codec: Codec<Bytes>, allOver: bool, s: State, s': State, written: nat)
    requires Inv(g, codec, allOver, s) && Ends(g, codec, s, s', written)
    ensures Inv(g, codec, allOver, s')
  {
    hide Landed, Carried, S.Grew, S.WriterOk, S.TornAppend;
    var d, d', m := s.disk, s'.disk, s.proc.value;
    GrewSame(d.segs);
    if d' != d {
      S.TornKeepsFilesAlone(codec, StoreOf(d, m), g[m.pc.todo[0]].data.value, m.run.createOk, written);
    }
    FilesStay(g, codec, d, d');
    SavedStays(g, d, d', allOver);
  }

  lemma WithoutAbsentRun(files: seq<File>, runId: RunId)
    requires forall i :: 0 <= i < |files| ==> files[i].runId != runId
    ensures WithoutRun(files, runId) == files
  {
  }

  /** A rename keeps every earlier file exactly when the run id is new. */
  lemma RenameKeepsFilesExactly(files: seq<File>, f: File)
    ensures WriteParquet(files, f) == files + [f] <==> forall i :: 0 <= i < |files| ==> files[i].runId != f.runId
  {
    WithoutRunDrops(files, f.runId);
    if forall i :: 0 <= i < |files| ==> files[i].runId != f.runId {
      WithoutAbsentRun(files, f.runId);
    } else {
      assert |WriteParquet(files, f)| < |files + [f]|;
    }
  }

  lemma WithoutRunDrops(files: seq<File>, runId: RunId)
    ensures |WithoutRun(files, runId)| <= |files|
    ensures (exists i :: 0 <= i < |files| && files[i].runId == runId) ==> |WithoutRun(files, runId)| < |files|
  {
    if files != [] && files[0].runId != runId && exists i :: 0 <= i < |files| && files[i].runId == runId {
      var i :| 0 <= i < |files| && files[i].runId == runId;
      assert files[1..][i - 1].runId == runId;
    }
  }

  lemma ParquetKeeps(g: Graph, codec: Codec<Bytes>, allOver: bool, d: Disk, m: Mem)
    requires Inv(g, codec, allOver, State(d, Some(m))) && m.pc.Flushed? && m.batch != []
    ensures var (d', m') := Step(g, codec, d, m); Inv(g, codec, allOver, State(d', Some(m')))
  {
    hide S.WriterOk, S.Grew, RowsOk;
    WriterIds(d, m);
    var (d', m') := Step(g, codec, d, m);
    WithoutAbsentRun(d.files, m.run.runId);
    assert d'.files == d.files + [File(m.run.runId, m.batch)];
    GrewSame(d.segs);
    SavedStays(g, d, d', allOver);
    forall c | c in g && Ingestible(g[c]) && Reaches(g, m'.run.head, c)
      ensures Landed(g, d', allOver, m'.run.shard, c) || Carried(g, d', m', allOver, c)
    {
      if Landed(g, d, allOver, m.run.shard, c) {
        LandedStays(g, d, d', allOver, m.run.shard, c);
      } else {
        assert Carried(g, d, m, allOver, c);
        assert d'.files[|d.files|].rows == m.batch;
        assert Recorded(d', m.run.shard, c);
      }
    }
  }

  lemma TierWriteKeeps(g: Graph, codec: Codec<Bytes>, allOver: bool, d: Disk, m: Mem)
    requires Inv(g, codec, allOver, State(d, Some(m))) && 2 <= Rank(m.pc) <= 4
    ensures var (d', m') := Step(g, codec, d, m); Inv(g, codec, allOver, State(d', Some(m')))
  {
    hide S.WriterOk, S.Grew, RowsOk, IsPath, Recorded;
    WriterIds(d, m);
    var (d', m') := Step(g, codec, d, m);
    GrewSame(d.segs);
    SavedStays(g, d, d', allOver);
    FilesStay(g, codec, d, d');
    if Rank(m'.pc) <= 5 {
      forall c | c in g && Ingestible(g[c]) && Reaches(g, m'.run.head, c)
        ensures Landed(g, d', allOver, m'.run.shard, c) || Carried(g, d', m', allOver, c)
      {
        if Landed(g, d, allOver, m.run.shard, c) {
          LandedStays(g, d, d', allOver, m.run.shard, c);
        } else {
          assert Carried(g, d, m, allOver, c);
          TierHasCarried(g, d, d', m, m', allOver, c);
        }
      }
    }
  }

  lemma TierHasCarried(g: Graph, d: Disk, d': Disk, m: Mem, m': Mem, allOver: bool, c: Oid)
    requires c in g && Ingestible(g[c]) && Carried(g, d, m, allOver, c) && Extends(d, d') && d'.files == d.files
    requires m' == m.(pc := m'.pc) && Rank(m'.pc) == Rank(m.pc) + 1 && 2 <= Rank(m.pc) <= 4
    requires Rank(m.pc) == 2 && allOver ==> d'.over == d.over + m.overRows
    requires Rank(m.pc) == 3 && m.tri != [] ==> d'.trigram == d.trigram + [Segment(m.run.runId, m.tri)]
    requires Rank(m.pc) == 4 ==> d'.bm25 == d.bm25 + m.prose
    ensures Carried(g, d', m', allOver, c)
  {
    if Rank(m.pc) == 3 && m.tri != [] {
      assert d'.trigram[|d.trigram|].docs == m.tri;
    }
  }

  lemma SaveKeeps(g: Graph, codec: Codec<Bytes>, allOver: bool, d: Disk, m: Mem)
    requires Inv(g, codec, allOver, State(d, Some(m)))
    requires m.pc.Bm25Done? || (m.pc.Flushed? && m.batch == [])
    ensures var (d', m') := Step(g, codec, d, m); Inv(g, codec, allOver, State(d', Some(m')))
  {
    hide S.WriterOk, S.Grew, RowsOk, IsPath, Recorded, HasTriDoc;
    WriterIds(d, m);
    var (d', m') := Step(g, codec, d, m);
    forall shard | shard in d'.oids ensures AllLanded(g, d', allOver, shard, d'.oids[shard]) {
      forall c | c in g && Ingestible(g[c]) && Reaches(g, d'.oids[shard], c) ensures Landed(g, d', allOver, shard, c) {
        if shard != m.run.shard {
          assert AllLanded(g, d, allOver, shard, d.oids[shard]);
        } else if m.pc.Bm25Done? {
          assert Landed(g, d, allOver, shard, c) || Carried(g, d, m, allOver, c);
        }
        SameTiers(d, d', shard, c);
        SameTriDoc(g[c], d, d');
      }
    }
  }

  lemma SameTiers(d: Disk, d': Disk, shard: Shard, c: Oid)
    requires d'.files == d.files
    ensures Recorded(d, shard, c) <==> Recorded(d', shard, c)
  {
  }

  lemma SameTriDoc(c: Commit, d: Disk, d': Disk)
    requires Ingestible(c) && d'.trigram == d.trigram
    ensures HasTriDoc(c, d) <==> HasTriDoc(c, d')
  {
  }

  lemma PublishKeeps(g: Graph, codec: Codec<Bytes>, allOver: bool, d: Disk, m: Mem)
    requires Inv(g, codec, allOver, State(d, Some(m))) && Rank(m.pc) == 6
    ensures var (d', m') := Step(g, codec, d, m); Inv(g, codec, allOver, State(d', Some(m')))
  {
    hide S.WriterOk, S.Grew, RowsOk, IsPath;
    WriterIds(d, m);
    var (d', m') := Step(g, codec, d, m);
    GrewSame(d.segs);
    SavedStays(g, d, d', allOver);
    FilesStay(g, codec, d, d');
  }

  lemma SkipKeeps(g: Graph, codec: Codec<Bytes>, allOver: bool, d: Disk, m: Mem)
    requires Inv(g, codec, allOver, State(d, Some(m))) && m.pc.Walking?
    requires m.pc.todo == [] || (m.pc.todo[0] in g && !Ingestible(g[m.pc.todo[0]]))
    ensures var (d', m') := Step(g, codec, d, m); Inv(g, codec, allOver, State(d', Some(m')))
  {
    hide S.WriterOk, S.Grew, RowsOk, IsPath, InRows, Landed;
    WriterIds(d, m);
    var (d', m') := Step(g, codec, d, m);
    forall c | c in g && Ingestible(g[c]) && Reaches(g, m'.run.head, c) && c !in Todo(m'.pc)
      ensures Landed(g, d', allOver, m'.run.shard, c) || Carried(g, d', m', allOver, c)
    {
      assert c !in Todo(m.pc);
      if !Landed(g, d, allOver, m.run.shard, c) {
        assert Carried(g, d, m, allOver, c);
      }
    }
  }

  lemma StepKeeps(g: Graph, codec: Codec<Bytes>, allOver: bool, s: State, s': State)
    requires SelfDelimiting(codec) && Inv(g, codec, allOver, s) && Steps(g, codec, s, s')
    ensures Inv(g, codec, allOver, s')
  {
    hide Inv, Step;
    var d, m := s.disk, s.proc.value;
    if m.pc.Walking? && m.pc.todo != [] && Ingestible(g[m.pc.todo[0]]) {
      IngestOneKeeps(g, codec, allOver, d, m);
      StepIngests(g, codec, d, m);
    } else if m.pc.Walking? {
      SkipKeeps(g, codec, allOver, d, m);
    } else if m.pc.Flushed? && m.batch != [] {
      ParquetKeeps(g, codec, allOver, d, m);
    } else if m.pc.Flushed? || m.pc.Bm25Done? {
      SaveKeeps(g, codec, allOver, d, m);
    } else if Rank(m.pc) <= 4 {
      TierWriteKeeps(g, codec, allOver, d, m);
    } else {
      PublishKeeps(g, codec, allOver, d, m);
    }
  }

  lemma StepIngests(g: Graph, codec: Codec<Bytes>, d: Disk, m: Mem)
    requires m.active in d.segs && m.pc.Walking? && m.pc.todo != [] && m.pc.todo[0] in g && Ingestible(g[m.pc.todo[0]])
    ensures Step(g, codec, d, m) == IngestOne(codec, g[m.pc.todo[0]], m.pc.todo[0], d, m)
  {
  }

  lemma {:induction false} ReachableIsInv(g: Graph, codec: Codec<Bytes>, allOver: bool, trace: seq<State>, n: nat)
    requires SelfDelimiting(codec) && Behaviour(g, codec, allOver, trace) && n < |trace|
    ensures Inv(g, codec, allOver, trace[n])
    decreases n
  {
    hide Inv, Starts, Steps, Ends;
    if n == 0 {
      InitIsInv(g, codec, allOver);
    } else {
      var s, s' := trace[n - 1], trace[n];
      ReachableIsInv(g, codec, allOver, trace, n - 1);
      assert Next(g, codec, allOver, s, s');
      if Steps(g, codec, s, s') {
        StepKeeps(g, codec, allOver, s, s');
      } else if run: Run :| Starts(g, allOver, s, s', run) {
        BeginKeeps(g, codec, allOver, s, s', run);
      } else {
        var written: nat :| Ends(g, codec, s, s', written);
        EndKeeps(g, codec, allOver, s, s', written);
      }
    }
  }

  lemma InitIsInv(g: Graph, codec: Codec<Bytes>, allOver: bool)
    ensures Inv(g, codec, allOver, State(EMPTY_DISK, None))
  {
  }

  // ----- Main results -------------------------------------------------------

  /** A row for `c` whose pointer reads back the commit's exact blob. */
  ghost predicate RowReadsBack(g: Graph, codec: Codec<Bytes>, d: Disk, row: Row, shard: Shard, c: Oid)
    requires c in g && Ingestible(g[c])
  {
    && row.oid == c && row.shard == shard
    && S.ReadAt(codec, d.segs, row.ptr.segmentId, row.ptr.offset) == Ok(g[c].data.value)
  }

  /**
    No lost commit: in every reachable state of any history of runs, crashes at any step and re-runs
    (a dangling saved tip included), each ingestible commit that the saved tip reaches has a row that
    reads back its exact body, and its patch and prose are in the trigram and prose tiers.
   */
  lemma NoLostCommit(g: Graph, codec: Codec<Bytes>, trace: seq<State>, n: nat, shard: Shard, c: Oid)
    requires SelfDelimiting(codec) && Behaviour(g, codec, false, trace) && n < |trace|
    requires shard in trace[n].disk.oids && c in g && Ingestible(g[c]) && Reaches(g, trace[n].disk.oids[shard], c)
    ensures var d := trace[n].disk;
      && (exists f, i ::
            && 0 <= f < |d.files| && 0 <= i < |d.files[f].rows|
            && RowReadsBack(g, codec, d, d.files[f].rows[i], shard, c))
      && HasTriDoc(g[c], d)
      && (g[c].prose ==> Squeeze(g[c].mid.value) in d.bm25)
  {
    ReachableIsInv(g, codec, false, trace, n);
    var d := trace[n].disk;
    assert AllLanded(g, d, false, shard, d.oids[shard]);
    assert Landed(g, d, false, shard, c);
    var f :| 0 <= f < |d.files| && InRows(d.files[f].rows, shard, c);
    var i :| 0 <= i < |d.files[f].rows| && d.files[f].rows[i].oid == c && d.files[f].rows[i].shard == shard;
    EveryRowReadsBack(g, codec, d, f, i);
  }

  lemma EveryRowReadsBack(g: Graph, codec: Codec<Bytes>, d: Disk, f: nat, i: nat)
    requires SelfDelimiting(codec) && FilesOk(g, codec, d) && f < |d.files| && i < |d.files[f].rows|
    ensures var row := d.files[f].rows[i];
      && row.oid in g && Ingestible(g[row.oid]) && g[row.oid].mid == Some(row.mid)
      && RowReadsBack(g, codec, d, row, row.shard, row.oid)
  {
    var row := d.files[f].rows[i];
    assert RowsOk(g, codec, d.segs, d.files[f].rows);
    assert RowOk(g, codec, d.segs, row);
    S.HeldReadsBack(codec, d.segs, S.Issued(row.ptr, g[row.oid].data.value));
  }

  /** Rows are never wrong, saved or not: each one a reader can see reads back the blob of its own commit. */
  lemma VisibleRowsReadBack(g: Graph, codec: Codec<Bytes>, trace: seq<State>, n: nat, f: nat, i: nat)
    requires SelfDelimiting(codec) && Behaviour(g, codec, false, trace) && n < |trace|
    requires f < |trace[n].disk.files| && i < |trace[n].disk.files[f].rows|
    ensures var d, row := trace[n].disk, trace[n].disk.files[f].rows[i];
      row.oid in g && Ingestible(g[row.oid]) && RowReadsBack(g, codec, d, row, row.shard, row.oid)
  {
    ReachableIsInv(g, codec, false, trace, n);
    EveryRowReadsBack(g, codec, trace[n].disk, f, i);
  }

  /** over.db keeps up as well, provided every run is given a working over.db writer. */
  lemma OverKeepsUp(g: Graph, codec: Codec<Bytes>, trace: seq<State>, n: nat, shard: Shard, c: Oid)
    requires SelfDelimiting(codec) && Behaviour(g, codec, true, trace) && n < |trace|
    requires shard in trace[n].disk.oids && c in g && Ingestible(g[c]) && Reaches(g, trace[n].disk.oids[shard], c)
    ensures Squeeze(g[c].mid.value) in trace[n].disk.over
  {
    ReachableIsInv(g, codec, true, trace, n);
    var d := trace[n].disk;
    assert AllLanded(g, d, true, shard, d.oids[shard]);
    assert Landed(g, d, true, shard, c);
  }

  // ----- A run that is not interrupted --------------------------------------

  /** Steps left before the run is over, at most. */
  function Remaining(pc: Pc): nat {
    match pc
    case Walking(todo) => 10 + |todo|
    case Flushed => 9
    case Written => 8
    case OverDone => 7
    case TrigramDone => 6
    case Bm25Done => 5
    case OidSaved => 4
    case Bumped(_) => 3
    case OverMarked(_) => 2
    case Bm25Marked(_) => 1
    case Finished => 0
    case Failed => 0
  }

  ghost predicate Runnable(g: Graph, d: Disk, m: Mem) {
    S.WriterOk(StoreOf(d, m)) && (m.pc.Walking? ==> forall c :: c in m.pc.todo ==> c in g)
  }

  lemma StepIsRunnable(g: Graph, codec: Codec<Bytes>, d: Disk, m: Mem)
    requires SelfDelimiting(codec) && Runnable(g, d, m)
    ensures var (d', m') := Step(g, codec, d, m);
      Runnable(g, d', m') && (Remaining(m.pc) > 0 ==> Remaining(m'.pc) < Remaining(m.pc))
  {
    if m.pc.Walking? && m.pc.todo != [] && Ingestible(g[m.pc.todo[0]]) {
      hide S.WriterOk, S.Append, S.Holds, S.Grew;
      WriterIds(d, m);
      AppendFacts(codec, g[m.pc.todo[0]], d, m);
    }
  }

  /** The rest of the run, carried through. */
  ghost function RunOn(g: Graph, codec: Codec<Bytes>, d: Disk, m: Mem): (Disk, Mem)
    requires SelfDelimiting(codec) && Runnable(g, d, m)
    decreases Remaining(m.pc)
  {
    if Remaining(m.pc) == 0 then (d, m)
    else
      StepIsRunnable(g, codec, d, m);
      var (d', m') := Step(g, codec, d, m);
      RunOn(g, codec, d', m')
  }

  /** The commits of a walk that are ingested, in order. */
  function Kept(g: Graph, oids: seq<Oid>): seq<Oid> {
    if oids == [] then []
    else (if oids[0] in g && Ingestible(g[oids[0]]) then [oids[0]] else []) + Kept(g, oids[1..])
  }

  /** Their patches, as the trigram tier gets them. */
  function PatchesOf(g: Graph, oids: seq<Oid>): seq<TriDoc> {
    if oids == [] then []
    else (if oids[0] in g && Ingestible(g[oids[0]]) then PatchOf(g[oids[0]]) else []) + PatchesOf(g, oids[1..])
  }

  function PatchOf(c: Commit): seq<TriDoc>
    requires Ingestible(c)
  {
    if c.patch.Some? then [TriDoc(Squeeze(c.mid.value), c.patch.value)] else []
  }

  /** Their ids, as far as there is prose for the BM25 index. */
  function ProseOf(g: Graph, oids: seq<Oid>): seq<Bytes> {
    if oids == [] then []
    else (if oids[0] in g && Ingestible(g[oids[0]]) && g[oids[0]].prose then [Squeeze(g[oids[0]].mid.value)] else [])
         + ProseOf(g, oids[1..])
  }

  /** Their ids, as over.db gets them. */
  function MidsOf(g: Graph, oids: seq<Oid>): set<Bytes> {
    set c | c in oids && c in g && Ingestible(g[c]) :: Squeeze(g[c].mid.value)
  }

  /** The publishing tail of a run: save the tip, bump the generation, set the tier markers. */
  function Published(d: Disk, run: Run): Disk {
    var n := NextGeneration(d.generation);
    var over := if run.withOver && !run.overOk then d.markers else d.markers[OverTier := n];
    d.(oids := d.oids[run.shard := run.head], generation := n, markers := over[Bm25Tier := n][TrigramTier := n])
  }

  lemma RunOnStep(g: Graph, codec: Codec<Bytes>, d: Disk, m: Mem)
    requires SelfDelimiting(codec) && Runnable(g, d, m) && Remaining(m.pc) > 0
    ensures m.active in d.segs && (m.pc.Walking? && m.pc.todo != [] ==> m.pc.todo[0] in g)
    ensures var (d', m') := Step(g, codec, d, m);
      Runnable(g, d', m') && m'.active in d'.segs && RunOn(g, codec, d, m) == RunOn(g, codec, d', m')
  {
    StepIsRunnable(g, codec, d, m);
  }

  function Marked(d: Disk, run: Run, n: nat): Disk {
    var over := if run.withOver && !run.overOk then d else SetMarker(d, OverTier, n);
    SetMarker(SetMarker(over, Bm25Tier, n), TrigramTier, n)
  }

  lemma RunOnMarks(g: Graph, codec: Codec<Bytes>, d: Disk, m: Mem)
    requires SelfDelimiting(codec) && Runnable(g, d, m) && m.pc.Bumped?
    ensures RunOn(g, codec, d, m) == (Marked(d, m.run, m.pc.newGen), m.(pc := Finished))
  {
    hide Runnable, SetMarker;
    RunOnStep(g, codec, d, m);
    var (d1, m1) := Step(g, codec, d, m);
    RunOnStep(g, codec, d1, m1);
    var (d2, m2) := Step(g, codec, d1, m1);
    RunOnStep(g, codec, d2, m2);
  }

  lemma RunOnPublishes(g: Graph, codec: Codec<Bytes>, d: Disk, m: Mem)
    requires SelfDelimiting(codec) && Runnable(g, d, m) && m.pc.Bm25Done?
    ensures RunOn(g, codec, d, m) == (Published(d, m.run), m.(pc := Finished))
  {
    hide Runnable, NextGeneration;
    RunOnStep(g, codec, d, m);
    var (d1, m1) := Step(g, codec, d, m);
    RunOnStep(g, codec, d1, m1);
    var (d2, m2) := Step(g, codec, d1, m1);
    RunOnMarks(g, codec, d2, m2);
  }

  /** What the tiers hold once the batch has been written out. */
  function TiersWritten(d: Disk, m: Mem): Disk {
    d.(files := WriteParquet(d.files, File(m.run.runId, m.batch)),
       over := if m.run.withOver && m.run.overOk then d.over + m.overRows else d.over,
       trigram := if m.tri == [] then d.trigram else d.trigram + [Segment(m.run.runId, m.tri)],
       bm25 := d.bm25 + m.prose)
  }

  lemma RunOnWrites(g: Graph, codec: Codec<Bytes>, d: Disk, m: Mem)
    requires SelfDelimiting(codec) && Runnable(g, d, m) && m.pc.Flushed? && m.batch != [] && FreshRun(d, m.run.runId)
    ensures RunOn(g, codec, d, m) == (Published(TiersWritten(d, m), m.run), m.(pc := Finished))
  {
    hide Runnable, Published, NextGeneration, WriteParquet;
    RunOnStep(g, codec, d, m);
    var (d1, m1) := Step(g, codec, d, m);
    RunOnStep(g, codec, d1, m1);
    var (d2, m2) := Step(g, codec, d1, m1);
    RunOnStep(g, codec, d2, m2);
    var (d3, m3) := Step(g, codec, d2, m2);
    RunOnStep(g, codec, d3, m3);
    var (d4, m4) := Step(g, codec, d3, m3);
    assert d4 == TiersWritten(d, m);
    RunOnPublishes(g, codec, d4, m4);
  }

  lemma RunOnEmpty(g: Graph, codec: Codec<Bytes>, d: Disk, m: Mem)
    requires SelfDelimiting(codec) && Runnable(g, d, m) && m.pc.Flushed? && m.batch == []
    ensures RunOn(g, codec, d, m) == (d.(oids := d.oids[m.run.shard := m.run.head]), m.(pc := Finished))
  {
    RunOnStep(g, codec, d, m);
  }

  /** `d'` differs from `d` in the body store at most. */
  ghost predicate SameTables(d: Disk, d': Disk) {
    d' == d.(segs := d'.segs)
  }

  /** One row per commit of `oids`, in order, each reading back its commit's blob. */
  ghost predicate RowsFor(g: Graph, codec: Codec<Bytes>, segs: map<nat, Bytes>, shard: Shard, oids: seq<Oid>,
                          rows: seq<Row>) {
    && |rows| == |oids|
    && forall i :: 0 <= i < |rows| ==> RowFor(g, codec, segs, shard, oids[i], rows[i])
  }

  ghost predicate RowFor(g: Graph, codec: Codec<Bytes>, segs: map<nat, Bytes>, shard: Shard, oid: Oid, row: Row) {
    row.oid == oid && row.shard == shard && RowOk(g, codec, segs, row)
  }

  /** What walking `todo` adds to the batches. */
  ghost predicate Batched(g: Graph, codec: Codec<Bytes>, segs: map<nat, Bytes>, todo: seq<Oid>, m: Mem, m': Mem) {
    && m.batch <= m'.batch && RowsFor(g, codec, segs, m.run.shard, Kept(g, todo), m'.batch[|m.batch|..])
    && m'.tri == m.tri + PatchesOf(g, todo)
    && m'.prose == m.prose + ProseOf(g, todo)
    && m'.overRows == if m.run.withOver then m.overRows + MidsOf(g, todo) else m.overRows
  }

  lemma BatchedNone(g: Graph, codec: Codec<Bytes>, segs: map<nat, Bytes>, m: Mem, m': Mem)
    requires m'.batch == m.batch && m'.tri == m.tri && m'.prose == m.prose && m'.overRows == m.overRows
    ensures Batched(g, codec, segs, [], m, m')
  {
    assert m'.batch[|m.batch|..] == [];
  }

  /** What one commit adds. */
  ghost predicate BatchesOne(g: Graph, codec: Codec<Bytes>, segs: map<nat, Bytes>, oid: Oid, m: Mem, m': Mem)
    requires oid in g
  {
    if !Ingestible(g[oid]) then
      m'.batch == m.batch && m'.tri == m.tri && m'.prose == m.prose && m'.overRows == m.overRows
    else
      var mid := Squeeze(g[oid].mid.value);
      && |m'.batch| == |m.batch| + 1 && m'.batch == m.batch + [m'.batch[|m.batch|]]
      && RowFor(g, codec, segs, m.run.shard, oid, m'.batch[|m.batch|])
      && m'.tri == m.tri + PatchOf(g[oid])
      && m'.prose == m.prose + (if g[oid].prose then [mid] else [])
      && m'.overRows == if m.run.withOver then m.overRows + {mid} else m.overRows
  }

  lemma WalkOne(g: Graph, codec: Codec<Bytes>, d: Disk, m: Mem)
    requires SelfDelimiting(codec) && Runnable(g, d, m) && m.pc.Walking? && m.pc.todo != []
    ensures m.active in d.segs && m.pc.todo[0] in g
    ensures var (d', m') := Step(g, codec, d, m);
      && S.Grew(d.segs, d'.segs) && SameTables(d, d') && m'.run == m.run
      && (if m'.pc.Walking? then
            m'.pc.todo == m.pc.todo[1..] && BatchesOne(g, codec, d'.segs, m.pc.todo[0], m, m')
          else m'.pc.Failed?)
  {
    hide S.WriterOk, S.Append, S.Grew, S.Holds, Runnable, Squeeze;
    var oid := m.pc.todo[0];
    RunOnStep(g, codec, d, m);
    GrewSame(d.segs);
    if Ingestible(g[oid]) {
      RunnableIsOk(g, d, m);
      AppendFacts(codec, g[oid], d, m);
    }
  }

  lemma RunnableIsOk(g: Graph, d: Disk, m: Mem)
    requires Runnable(g, d, m)
    ensures S.WriterOk(StoreOf(d, m))
  {
  }

  lemma RowsThen(g: Graph, codec: Codec<Bytes>, segs1: map<nat, Bytes>, segs': map<nat, Bytes>, shard: Shard,
                 oid: Oid, row: Row, oids: seq<Oid>, rows: seq<Row>)
    requires S.Grew(segs1, segs') && RowFor(g, codec, segs1, shard, oid, row)
    requires RowsFor(g, codec, segs', shard, oids, rows)
    ensures RowsFor(g, codec, segs', shard, [oid] + oids, [row] + rows)
  {
    RowStays(g, codec, segs1, segs', row);
    forall i | 0 <= i < |rows| + 1 ensures RowFor(g, codec, segs', shard, ([oid] + oids)[i], ([row] + rows)[i]) {
      if i > 0 {
        assert RowFor(g, codec, segs', shard, oids[i - 1], rows[i - 1]);
      }
    }
  }

  lemma BatchedThen(g: Graph, codec: Codec<Bytes>, segs1: map<nat, Bytes>, segs': map<nat, Bytes>, todo: seq<Oid>,
                    m: Mem, m1: Mem, m': Mem)
    requires todo != [] && todo[0] in g && m1.run == m.run && S.Grew(segs1, segs')
    requires BatchesOne(g, codec, segs1, todo[0], m, m1) && Batched(g, codec, segs', todo[1..], m1, m')
    ensures Batched(g, codec, segs', todo, m, m')
  {
    hide S.Grew, RowFor, RowsFor, Squeeze, MidsOf, Kept, PatchesOf, ProseOf;
    MidsSplit(g, todo);
    OthersSplit(g, todo);
    var n, rest := |m.batch|, m'.batch[|m1.batch|..];
    if Ingestible(g[todo[0]]) {
      RowsThen(g, codec, segs1, segs', m.run.shard, todo[0], m1.batch[n], Kept(g, todo[1..]), rest);
      assert m'.batch[n..] == [m1.batch[n]] + rest;
    }
  }

  lemma OthersSplit(g: Graph, todo: seq<Oid>)
    requires todo != [] && todo[0] in g
    ensures Ingestible(g[todo[0]]) ==>
      && Kept(g, todo) == [todo[0]] + Kept(g, todo[1..])
      && PatchesOf(g, todo) == PatchOf(g[todo[0]]) + PatchesOf(g, todo[1..])
      && ProseOf(g, todo) == (if g[todo[0]].prose then [Squeeze(g[todo[0]].mid.value)] else []) + ProseOf(g, todo[1..])
    ensures !Ingestible(g[todo[0]]) ==>
      Kept(g, todo) == Kept(g, todo[1..]) && PatchesOf(g, todo) == PatchesOf(g, todo[1..])
        && ProseOf(g, todo) == ProseOf(g, todo[1..])
  {
  }

  /** The state in which the walk ends, when it does not fail. */
  ghost predicate WalkEnd(g: Graph, codec: Codec<Bytes>, d: Disk, m: Mem, d': Disk, m': Mem)
    requires SelfDelimiting(codec) && Runnable(g, d, m) && m.pc.Walking?
  {
    && Runnable(g, d', m') && m'.pc == Flushed && m'.run == m.run && SameTables(d, d') && S.Grew(d.segs, d'.segs)
    && RunOn(g, codec, d, m) == RunOn(g, codec, d', m')
    && Batched(g, codec, d'.segs, m.pc.todo, m, m')
  }

  lemma {:induction false} RunOnWalks(g: Graph, codec: Codec<Bytes>, d: Disk, m: Mem) returns (d': Disk, m': Mem)
    requires SelfDelimiting(codec) && Runnable(g, d, m) && m.pc.Walking?
    ensures RunOn(g, codec, d, m).1.pc.Finished? ==> WalkEnd(g, codec, d, m, d', m')
    decreases |m.pc.todo|
  {
    hide Runnable, S.Append, S.Grew, Batched, BatchesOne, IngestOne;
    RunOnStep(g, codec, d, m);
    var (d1, m1) := Step(g, codec, d, m);
    d', m' := d1, m1;
    if m.pc.todo == [] {
      GrewSame(d.segs);
      BatchedNone(g, codec, d'.segs, m, m');
    } else {
      WalkOne(g, codec, d, m);
      if m1.pc.Walking? {
        d', m' := RunOnWalks(g, codec, d1, m1);
        if RunOn(g, codec, d, m).1.pc.Finished? {
          S.GrewTransitive(d.segs, d1.segs, d'.segs);
          BatchedThen(g, codec, d1.segs, d'.segs, m.pc.todo, m, m1, m');
        }
      }
    }
  }

  function FirstMid(g: Graph, oids: seq<Oid>): set<Bytes>
    requires oids != [] && oids[0] in g
  {
    if Ingestible(g[oids[0]]) then {Squeeze(g[oids[0]].mid.value)} else {}
  }

  lemma MidsSplit(g: Graph, oids: seq<Oid>)
    requires oids != [] && oids[0] in g
    ensures MidsOf(g, oids) == FirstMid(g, oids) + MidsOf(g, oids[1..])
  {
    assert oids == [oids[0]] + oids[1..];
  }

  /** What the tiers gain: a file of one row per ingested commit, a trigram segment, BM25 documents, over.db rows. */
  ghost predicate Gained(g: Graph, codec: Codec<Bytes>, d: Disk, run: Run, d': Disk) {
    && (exists rows ::
          && d'.files == d.files + [File(run.runId, rows)]
          && RowsFor(g, codec, d'.segs, run.shard, Kept(g, run.walk), rows))
    && d'.trigram
      == d.trigram + (if PatchesOf(g, run.walk) == [] then [] else [Segment(run.runId, PatchesOf(g, run.walk))])
    && d'.bm25 == d.bm25 + ProseOf(g, run.walk)
    && d'.over == d.over + if run.withOver && run.overOk then MidsOf(g, run.walk) else {}
  }

  /** The generation is bumped, and every marker set to it but that of an over.db that could not be written. */
  ghost predicate Announced(d: Disk, run: Run, d': Disk) {
    var n := NextGeneration(d.generation);
    && d'.generation == n
    && d'.markers
      == (if run.withOver && !run.overOk then d.markers else d.markers[OverTier := n])[Bm25Tier := n][TrigramTier := n]
  }

  /**
    What a finished run makes of the disk it began on. With nothing to ingest in the walk only the
    tip is saved: generation and markers stay, even if an earlier run died between saving its tip
    and bumping the generation.
   */
  ghost predicate Outcome(g: Graph, codec: Codec<Bytes>, d: Disk, run: Run, d': Disk) {
    && d'.oids == d.oids[run.shard := run.head]
    && S.Grew(d.segs, d'.segs) && (forall id :: id in d'.segs ==> id <= U32_MAX)
    && if Kept(g, run.walk) == [] then d' == d.(segs := d'.segs, oids := d'.oids)
       else Gained(g, codec, d, run, d') && Announced(d, run, d')
  }

  /** A finished run in closed form. */
  lemma FinishedRun(g: Graph, codec: Codec<Bytes>, d: Disk, run: Run)
    requires SelfDelimiting(codec) && (forall id :: id in d.segs ==> id <= U32_MAX)
    requires FreshRun(d, run.runId) && (forall c :: c in run.walk ==> c in g)
    ensures Runnable(g, Begin(d, run).disk, Begin(d, run).proc.value)
    ensures var (d', m') := RunOn(g, codec, Begin(d, run).disk, Begin(d, run).proc.value);
      m'.pc.Finished? ==> Outcome(g, codec, d, run, d')
  {
    hide S.OpenActive, S.WriterOk, S.Grew, MidsOf, WriteParquet, FreshRun;
    hide RowsFor, Kept, PatchesOf, ProseOf, Batched, Gained, Announced;
    OpenFacts(codec, d.segs);
    var s := Begin(d, run);
    var d0, m0 := s.disk, s.proc.value;
    var d1, m1 := RunOnWalks(g, codec, d0, m0);
    if RunOn(g, codec, d0, m0).1.pc.Finished? {
      S.GrewTransitive(d.segs, d0.segs, d1.segs);
      RunnableIds(g, d1, m1);
      BatchedAll(g, codec, d1.segs, run.walk, m0, m1);
      SameLength(g, codec, d1.segs, run.shard, Kept(g, run.walk), m1.batch);
      if m1.batch == [] {
        RunOnEmpty(g, codec, d1, m1);
      } else {
        SameTablesFresh(d, d1, run.runId);
        RunOnWrites(g, codec, d1, m1);
        WrittenIsGained(g, codec, d, run, d1, m1);
      }
    }
  }

  lemma BatchedAll(g: Graph, codec: Codec<Bytes>, segs: map<nat, Bytes>, todo: seq<Oid>, m: Mem, m': Mem)
    requires Batched(g, codec, segs, todo, m, m') && m.batch == [] && m.tri == [] && m.prose == [] && m.overRows == {}
    ensures RowsFor(g, codec, segs, m.run.shard, Kept(g, todo), m'.batch)
    ensures m'.tri == PatchesOf(g, todo) && m'.prose == ProseOf(g, todo)
    ensures m'.overRows == if m.run.withOver then MidsOf(g, todo) else {}
  {
    assert m'.batch[|m.batch|..] == m'.batch;
  }

  lemma WrittenIsGained(g: Graph, codec: Codec<Bytes>, d: Disk, run: Run, d1: Disk, m1: Mem)
    requires SameTables(d, d1) && FreshRun(d1, run.runId) && m1.run == run
    requires RowsFor(g, codec, d1.segs, run.shard, Kept(g, run.walk), m1.batch)
    requires m1.tri == PatchesOf(g, run.walk) && m1.prose == ProseOf(g, run.walk)
    requires m1.overRows == if run.withOver then MidsOf(g, run.walk) else {}
    ensures var d' := Published(TiersWritten(d1, m1), run); Gained(g, codec, d, run, d') && Announced(d, run, d')
  {
    hide RowsFor, Kept, PatchesOf, ProseOf, MidsOf;
    FreshFile(d1, File(run.runId, m1.batch));
    assert Published(TiersWritten(d1, m1), run).files == d.files + [File(run.runId, m1.batch)];
  }

  lemma SameLength(g: Graph, codec: Codec<Bytes>, segs: map<nat, Bytes>, shard: Shard, oids: seq<Oid>, rows: seq<Row>)
    requires RowsFor(g, codec, segs, shard, oids, rows)
    ensures |rows| == |oids|
  {
  }

  lemma RunnableIds(g: Graph, d: Disk, m: Mem)
    requires Runnable(g, d, m)
    ensures forall id :: id in d.segs ==> id <= U32_MAX
  {
  }

  lemma FreshFile(d: Disk, f: File)
    requires FreshRun(d, f.runId)
    ensures WriteParquet(d.files, f) == d.files + [f]
  {
    WithoutAbsentRun(d.files, f.runId);
  }

  lemma SameTablesFresh(d: Disk, d': Disk, runId: RunId)
    requires FreshRun(d, runId) && d'.files == d.files && d'.trigram == d.trigram
    ensures FreshRun(d', runId)
  {
  }

  lemma WalkInGraph(g: Graph, d: Disk, run: Run)
    requires IsWalk(g, d, run)
    ensures forall c :: c in run.walk ==> c in g
  {
    forall c | c in run.walk ensures c in g {
      var path: seq<Oid> :| IsPath(g, path, run.head, c);
    }
  }

  /** Between `i` and `j` one run starts and is carried through without an interruption. */
  ghost predicate Completes(g: Graph, codec: Codec<Bytes>, trace: seq<State>, i: nat, j: nat, run: Run) {
    && i < j < |trace| && Starts(g, false, trace[i], trace[i + 1], run)
    && (forall k :: i < k < j ==> Steps(g, codec, trace[k], trace[k + 1]))
    && trace[j].proc.Some? && trace[j].proc.value.pc.Finished?
  }

  lemma {:induction false} RunOnAlong(g: Graph, codec: Codec<Bytes>, trace: seq<State>, i: nat, k: nat)
    requires SelfDelimiting(codec) && i <= k < |trace|
    requires trace[i].proc.Some? && Runnable(g, trace[i].disk, trace[i].proc.value)
    requires forall n :: i <= n < k ==> Steps(g, codec, trace[n], trace[n + 1])
    ensures trace[k].proc.Some? && Runnable(g, trace[k].disk, trace[k].proc.value)
    ensures RunOn(g, codec, trace[k].disk, trace[k].proc.value) == RunOn(g, codec, trace[i].disk, trace[i].proc.value)
    decreases k - i
  {
    hide Runnable, S.Append;
    if i < k {
      RunOnAlong(g, codec, trace, i, k - 1);
      var d, m := trace[k - 1].disk, trace[k - 1].proc.value;
      assert Steps(g, codec, trace[k - 1], trace[k]);
      if Remaining(m.pc) > 0 {
        RunOnStep(g, codec, d, m);
      }
    }
  }

  /** In every history of runs and crashes, each run that is carried through ends as `FinishedRun` says. */
  lemma CompletedRun(g: Graph, codec: Codec<Bytes>, trace: seq<State>, i: nat, j: nat, run: Run)
    requires SelfDelimiting(codec) && Behaviour(g, codec, false, trace) && Completes(g, codec, trace, i, j, run)
    ensures Outcome(g, codec, trace[i].disk, run, trace[j].disk)
  {
    hide Runnable, Outcome, RunOk, SavedLanded, IsWalk, FreshRun;
    ReachableIsInv(g, codec, false, trace, i);
    var d := trace[i].disk;
    WalkInGraph(g, d, run);
    FinishedRun(g, codec, d, run);
    RunOnAlong(g, codec, trace, i + 1, j);
  }

  ghost predicate Dies(g: Graph, codec: Codec<Bytes>, s: State, s': State) {
    exists written: nat :: Ends(g, codec, s, s', written)
  }

  /**
    A crash between saving the tip and bumping the generation is not made up for: as long as the shard's
    head stays where it was, a run that is carried through afterwards has nothing to walk and leaves
    generation and markers as they were. Scans list the files anew and see the rows; what stays behind is
    a reader that waits for the generation to move, as the cached BM25 reader does.
   */
  lemma CrashBeforeBumpIsSilent(g: Graph, codec: Codec<Bytes>, trace: seq<State>, k: nat, j: nat, run: Run)
    requires SelfDelimiting(codec) && Behaviour(g, codec, false, trace) && k + 2 < |trace|
    requires trace[k].proc.Some? && trace[k].proc.value.pc.Bm25Done? && Steps(g, codec, trace[k], trace[k + 1])
    requires Dies(g, codec, trace[k + 1], trace[k + 2])
    requires Completes(g, codec, trace, k + 2, j, run)
    requires run.shard == trace[k].proc.value.run.shard && run.head == trace[k].proc.value.run.head
    ensures run.walk == []
    ensures var d, d' := trace[k].disk, trace[j].disk;
      d'.generation == d.generation && d'.markers == d.markers && d'.files == d.files
  {
    hide Reaches, FreshRun, S.TornAppend;
    CompletedRun(g, codec, trace, k + 2, j, run);
    var d := trace[k + 2].disk;
    assert d.oids == trace[k].disk.oids[run.shard := run.head];
    assert IsWalk(g, d, run);
    forall c ensures c !in run.walk {
      assert Hidden(g, d, run, c) <==> Reaches(g, run.head, c);
    }
    Sorting.NoMembers(run.walk);
  }

  /** A run gets to its end when the directory accepts new segments and their ids do not run out. */
  ghost predicate HasRoom(d: Disk, m: Mem) {
    && m.run.createOk && FreshRun(d, m.run.runId)
    && m.segmentId + |Todo(m.pc)| <= U32_MAX && |m.tri| + |Todo(m.pc)| <= U32_MAX
  }

  lemma {:induction false} RunFinishes(g: Graph, codec: Codec<Bytes>, d: Disk, m: Mem)
    requires SelfDelimiting(codec) && Runnable(g, d, m) && m.pc.Walking? && HasRoom(d, m)
    ensures RunOn(g, codec, d, m).1.pc.Finished?
    ensures forall id :: id in RunOn(g, codec, d, m).0.segs ==> id <= m.segmentId + |m.pc.todo|
    decreases |m.pc.todo|
  {
    hide S.Append, S.WriterOk, Runnable;
    RunOnStep(g, codec, d, m);
    var (d', m') := Step(g, codec, d, m);
    if m.pc.todo != [] {
      if Ingestible(g[m.pc.todo[0]]) {
        AppendSucceeds(g, codec, d, m, g[m.pc.todo[0]].data.value);
      }
      SameTablesFresh(d, d', m.run.runId);
      RunFinishes(g, codec, d', m');
    } else {
      IdsBelow(g, d', m');
      if m'.batch == [] {
        RunOnEmpty(g, codec, d', m');
      } else {
        RunOnWrites(g, codec, d', m');
      }
    }
  }

  lemma IdsBelow(g: Graph, d: Disk, m: Mem)
    requires Runnable(g, d, m)
    ensures forall id :: id in d.segs ==> id <= m.segmentId
  {
  }

  lemma AppendSucceeds(g: Graph, codec: Codec<Bytes>, d: Disk, m: Mem, body: Bytes)
    requires Runnable(g, d, m) && m.active in d.segs && m.segmentId < U32_MAX
    ensures var (r, s) := S.Append(codec, StoreOf(d, m), body, true); r.Ok? && s.segmentId <= m.segmentId + 1
  {
  }
}
