/**
  `ingest_shard` itself: the walk loop that fills the batches, then the ordered side effects, each step
  proved to be a step of the ingest machine.
 */
module IngestShard {
  import opened Base
  import opened Ingest
  import opened Whitespace
  import S = Store

  class DataDir {
    const codec: Codec<Bytes>
    var segs: map<nat, Bytes>
    var files: seq<File>
    var over: set<Bytes>
    var trigram: seq<Segment>
    var bm25: seq<Bytes>
    var oids: map<Shard, Oid>
    var generation: nat
    var markers: map<Tier, nat>

    constructor (codec: Codec<Bytes>)
      ensures this.codec == codec && Now() == EMPTY_DISK
    {
      this.codec := codec;
      segs, files, over, trigram, bm25 := map[], [], {}, [], [];
      oids, generation, markers := map[], 0, map[];
    }

    function Now(): Disk
      reads this
    {
      Disk(segs, files, over, trigram, bm25, oids, generation, markers)
    }

    /** A call that is not interrupted leaves the directory as the step machine does. */
    method Ingest(g: Graph, run: Run) returns (finished: bool)
      requires SelfDelimiting(codec)
      requires (forall id :: id in segs ==> id <= U32_MAX)
      requires forall c :: c in run.walk ==> c in g
      modifies this
      ensures Runnable(g, old(Begin(Now(), run)).disk, old(Begin(Now(), run)).proc.value)
      ensures var (d, m) := RunOn(g, codec, old(Begin(Now(), run)).disk, old(Begin(Now(), run)).proc.value);
        Now() == d && (finished <==> m.pc.Finished?)
    {
      hide Runnable, RunOn, Step, S.Append, S.OpenActive, Squeeze, WriteParquet, NextGeneration, SelfDelimiting;
      ghost var begin := Begin(Now(), run);
      BeginIsRunnable(g, codec, Now(), run);
      ghost var d0, m0 := begin.disk, begin.proc.value;
      var w := S.OpenActive(segs);
      segs := w.segs;
      var batch: seq<Row>, tri: seq<TriDoc>, prose: seq<Bytes>, overRows: set<Bytes> := [], [], [], {};
      var i := 0;
      ghost var m := m0;
      BeginNow(Now(), old(Now()), run);
      while i < |run.walk|
        invariant i <= |run.walk|
        invariant Runnable(g, Now(), m) && RunOn(g, codec, Now(), m) == RunOn(g, codec, d0, m0)
        invariant m == Mem(run, Walking(run.walk[i..]), w.segmentId, w.active, w.position, batch, tri, prose, overRows)
        invariant S.State(segs, w.segmentId, w.active, w.position) == w
      {
        var oid := run.walk[i];
        ghost var d := Now();
        assert run.walk[i..][0] == oid && run.walk[i..][1..] == run.walk[i + 1..];
        RunOnStep(g, codec, d, m);
        StepOne(g, codec, d, m);
        ghost var (d1, m1) := Step(g, codec, d, m);
        var commit := g[oid];
        if Ingestible(commit) {
          var mid := Squeeze(commit.mid.value);
          if commit.patch.Some? {
            if |tri| > U32_MAX {
              Ended(g, codec, d1, m1);
              return false;
            }
            tri := tri + [TriDoc(mid, commit.patch.value)];
          }
          if commit.prose {
            prose := prose + [mid];
          }
          var (appended, w1) := S.Append(codec, w, commit.data.value, run.createOk);
          w := w1;
          segs := w.segs;
          if appended.Err? {
            Ended(g, codec, d1, m1);
            return false;
          }
          if run.withOver {
            overRows := overRows + {mid};
          }
          batch := batch + [Row(oid, run.shard, commit.mid.value, appended.value)];
        }
        i := i + 1;
        m := m1;
      }
      assert run.walk[i..] == [];
      finished := Publish(g, run, batch, tri, prose, overRows, m);
    }

    /** Everything after the walk: flush, Parquet, over.db, trigram, BM25, tip, generation, markers. */
    method Publish(g: Graph, run: Run, batch: seq<Row>, tri: seq<TriDoc>, prose: seq<Bytes>, overRows: set<Bytes>,
                   ghost m: Mem) returns (finished: bool)
      requires SelfDelimiting(codec) && Runnable(g, Now(), m)
      requires m == Mem(run, Walking([]), m.segmentId, m.active, m.position, batch, tri, prose, overRows)
      modifies this
      ensures var (d, m') := RunOn(g, codec, old(Now()), m);
        Now() == d && (finished <==> m'.pc.Finished?)
    {
      hide Runnable, RunOn, Step, S.Append, S.OpenActive, Squeeze, WriteParquet, NextGeneration, SelfDelimiting;
      ghost var d0 := Now();
      RunOnStep(g, codec, d0, m);
      StepFlush(g, codec, d0, m);
      ghost var m1 := m.(pc := Flushed);
      RunOnStep(g, codec, d0, m1);
      StepTables(g, codec, d0, m1);
      if batch == [] {
        oids := oids[run.shard := run.head];
        Ended(g, codec, Now(), m.(pc := Finished));
        return true;
      }
      files := WriteParquet(files, File(run.runId, batch));
      ghost var m2 := m.(pc := Written);
      RunOnStep(g, codec, Now(), m2);
      StepTables(g, codec, Now(), m2);
      var overFailed := false;
      if run.withOver {
        if run.overOk {
          over := over + overRows;
        } else {
          overFailed := true;
        }
      }
      ghost var m3 := m.(pc := OverDone);
      RunOnStep(g, codec, Now(), m3);
      StepTables(g, codec, Now(), m3);
      if tri != [] {
        if exists i :: 0 <= i < |trigram| && trigram[i].runId == run.runId {
          Ended(g, codec, Now(), m.(pc := Failed));
          return false;
        }
        trigram := trigram + [Segment(run.runId, tri)];
      }
      finished := SaveAndMark(g, run, prose, overFailed, m.(pc := TrigramDone));
    }

    method SaveAndMark(g: Graph, run: Run, prose: seq<Bytes>, overFailed: bool, ghost m: Mem) returns (finished: bool)
      requires SelfDelimiting(codec) && Runnable(g, Now(), m)
      requires m.pc.TrigramDone? && m.run == run && m.prose == prose
      requires overFailed <==> run.withOver && !run.overOk
      modifies this
      ensures finished && RunOn(g, codec, old(Now()), m) == (Now(), m.(pc := Finished))
    {
      RunOnStep(g, codec, Now(), m);
      StepTables(g, codec, Now(), m);
      bm25 := bm25 + prose;
      RunOnPublishes(g, codec, Now(), m.(pc := Bm25Done));
      oids := oids[run.shard := run.head];
      var newGen := NextGeneration(generation);
      generation := newGen;
      if !overFailed {
        markers := markers[OverTier := newGen];
      }
      markers := markers[Bm25Tier := newGen];
      markers := markers[TrigramTier := newGen];
      return true;
    }
  }

  lemma BeginIsRunnable(g: Graph, codec: Codec<Bytes>, d: Disk, run: Run)
    requires (forall id :: id in d.segs ==> id <= U32_MAX) && (forall c :: c in run.walk ==> c in g)
    ensures Runnable(g, Begin(d, run).disk, Begin(d, run).proc.value)
  {
    OpenFacts(codec, d.segs);
  }

  lemma BeginNow(d: Disk, d0: Disk, run: Run)
    requires d == d0.(segs := S.OpenActive(d0.segs).segs)
    ensures var w := S.OpenActive(d0.segs);
      && Begin(d0, run).disk == d
      && Begin(d0, run).proc.value
        == Mem(run, Walking(run.walk[0..]), w.segmentId, w.active, w.position, [], [], [], {})
      && S.State(d.segs, w.segmentId, w.active, w.position) == w
  {
    assert run.walk[0..] == run.walk;
  }

  lemma Ended(g: Graph, codec: Codec<Bytes>, d: Disk, m: Mem)
    requires SelfDelimiting(codec) && Runnable(g, d, m) && (m.pc == Failed || m.pc == Finished)
    ensures RunOn(g, codec, d, m) == (d, m)
  {
  }

  lemma StepOne(g: Graph, codec: Codec<Bytes>, d: Disk, m: Mem)
    requires m.active in d.segs && m.pc.Walking? && m.pc.todo != [] && m.pc.todo[0] in g
    ensures Step(g, codec, d, m) ==
      if Ingestible(g[m.pc.todo[0]]) then IngestOne(codec, g[m.pc.todo[0]], m.pc.todo[0], d, m)
      else (d, m.(pc := Walking(m.pc.todo[1..])))
  {
  }

  lemma StepFlush(g: Graph, codec: Codec<Bytes>, d: Disk, m: Mem)
    requires m.active in d.segs && m.pc == Walking([])
    ensures Step(g, codec, d, m) == (d, m.(pc := Flushed))
  {
  }

  lemma StepTables(g: Graph, codec: Codec<Bytes>, d: Disk, m: Mem)
    requires m.active in d.segs && 1 <= Rank(m.pc) <= 4
    ensures m.pc.Flushed? && m.batch == [] ==>
      Step(g, codec, d, m) == (d.(oids := d.oids[m.run.shard := m.run.head]), m.(pc := Finished))
    ensures m.pc.Flushed? && m.batch != [] ==>
      Step(g, codec, d, m) == (d.(files := WriteParquet(d.files, File(m.run.runId, m.batch))), m.(pc := Written))
    ensures m.pc.Written? ==>
      Step(g, codec, d, m)
        == (if m.run.withOver && m.run.overOk then d.(over := d.over + m.overRows) else d, m.(pc := OverDone))
    ensures m.pc.OverDone? ==>
      Step(g, codec, d, m) ==
        if m.tri == [] then (d, m.(pc := TrigramDone))
        else if exists i :: 0 <= i < |d.trigram| && d.trigram[i].runId == m.run.runId then (d, m.(pc := Failed))
        else (d.(trigram := d.trigram + [Segment(m.run.runId, m.tri)]), m.(pc := TrigramDone))
    ensures m.pc.TrigramDone? ==> Step(g, codec, d, m) == (d.(bm25 := d.bm25 + m.prose), m.(pc := Bm25Done))
  {
  }
}
