/** Which ids the tiers know a message by. */
module TierIds {
  // The Parquet row keeps the message id as parsed; trigram, BM25 and over.db get it squeezed.

  import opened Base
  import opened Whitespace
  import opened Ingest
  import S = Store
  import T = Trigram

  // ----- Every derived id is a squeezed one ---------------------------------

  ghost predicate Squeezed(g: Graph, id: Bytes) {
    exists c :: c in g && Ingestible(g[c]) && Squeeze(g[c].mid.value) == id
  }

  ghost predicate DocsSqueezed(g: Graph, docs: seq<TriDoc>) {
    forall k :: 0 <= k < |docs| ==> Squeezed(g, docs[k].mid)
  }

  ghost predicate IdsSqueezed(g: Graph, d: Disk) {
    && (forall id :: id in d.over ==> Squeezed(g, id))
    && (forall id :: id in d.bm25 ==> Squeezed(g, id))
    && forall i :: 0 <= i < |d.trigram| ==> DocsSqueezed(g, d.trigram[i].docs)
  }

  ghost predicate BatchSqueezed(g: Graph, m: Mem) {
    && (forall id :: id in m.overRows ==> Squeezed(g, id))
    && (forall id :: id in m.prose ==> Squeezed(g, id))
    && DocsSqueezed(g, m.tri)
  }

  ghost predicate AllSqueezed(g: Graph, s: State) {
    IdsSqueezed(g, s.disk) && (s.proc.Some? ==> BatchSqueezed(g, s.proc.value))
  }

  lemma OneIsSqueezed(g: Graph, codec: Codec<Bytes>, d: Disk, m: Mem)
    requires m.active in d.segs && m.pc.Walking? && m.pc.todo != [] && m.pc.todo[0] in g && Ingestible(g[m.pc.todo[0]])
    requires BatchSqueezed(g, m)
    ensures var (d', m') := IngestOne(codec, g[m.pc.todo[0]], m.pc.todo[0], d, m);
      BatchSqueezed(g, m') && d'.over == d.over && d'.bm25 == d.bm25 && d'.trigram == d.trigram
  {
    hide Squeeze, S.Append;
    assert Squeezed(g, Squeeze(g[m.pc.todo[0]].mid.value));
  }

  lemma SegmentIsSqueezed(g: Graph, d: Disk, runId: RunId, docs: seq<TriDoc>)
    requires IdsSqueezed(g, d) && DocsSqueezed(g, docs)
    ensures IdsSqueezed(g, d.(trigram := d.trigram + [Segment(runId, docs)]))
  {
    hide DocsSqueezed;
  }

  lemma WalkKeepsSqueezed(g: Graph, codec: Codec<Bytes>, s: State, s': State)
    requires AllSqueezed(g, s) && Steps(g, codec, s, s') && s.proc.value.pc.Walking?
    ensures AllSqueezed(g, s')
  {
    hide Squeezed, IngestOne, DocsSqueezed;
    var d, m := s.disk, s.proc.value;
    if m.pc.todo != [] && Ingestible(g[m.pc.todo[0]]) {
      OneIsSqueezed(g, codec, d, m);
    }
  }

  lemma WriteKeepsSqueezed(g: Graph, codec: Codec<Bytes>, s: State, s': State)
    requires AllSqueezed(g, s) && Steps(g, codec, s, s') && !s.proc.value.pc.Walking?
    ensures AllSqueezed(g, s')
  {
    hide Squeezed, IngestOne, WriteParquet, DocsSqueezed, Ingestible;
    SegmentIsSqueezed(g, s.disk, s.proc.value.run.runId, s.proc.value.tri);
  }

  lemma StepKeepsSqueezed(g: Graph, codec: Codec<Bytes>, s: State, s': State)
    requires AllSqueezed(g, s) && Steps(g, codec, s, s')
    ensures AllSqueezed(g, s')
  {
    hide AllSqueezed, Step;
    if s.proc.value.pc.Walking? {
      WalkKeepsSqueezed(g, codec, s, s');
    } else {
      WriteKeepsSqueezed(g, codec, s, s');
    }
  }

  lemma OtherKeepsSqueezed(g: Graph, codec: Codec<Bytes>, allOver: bool, s: State, s': State)
    requires AllSqueezed(g, s) && Next(g, codec, allOver, s, s') && !Steps(g, codec, s, s')
    ensures AllSqueezed(g, s')
  {
    hide Squeezed, IsWalk, FreshRun, S.TornAppend, S.OpenActive;
  }

  lemma NothingSqueezed(g: Graph)
    ensures AllSqueezed(g, State(EMPTY_DISK, None))
  {
  }

  lemma {:induction false} ReachableIsSqueezed(g: Graph, codec: Codec<Bytes>, allOver: bool, trace: seq<State>, n: nat)
    requires Behaviour(g, codec, allOver, trace) && n < |trace|
    ensures AllSqueezed(g, trace[n])
    decreases n
  {
    hide AllSqueezed, Starts, Steps, Ends;
    if n == 0 {
      NothingSqueezed(g);
    } else {
      var s, s' := trace[n - 1], trace[n];
      ReachableIsSqueezed(g, codec, allOver, trace, n - 1);
      assert Next(g, codec, allOver, s, s');
      if Steps(g, codec, s, s') {
        StepKeepsSqueezed(g, codec, s, s');
      } else {
        OtherKeepsSqueezed(g, codec, allOver, s, s');
      }
    }
  }

  // ----- One message, two names ---------------------------------------------

  /** Message ids are text; this is what the mail parser yields. */
  ghost predicate TextIds(g: Graph) {
    forall c :: c in g && g[c].mid.Some? ==> IsText(g[c].mid.value)
  }

  /** Looked up by `id`, the trigram tier has the patch. */
  ghost predicate PatchUnder(d: Disk, id: Bytes, patch: Bytes) {
    InTrigram(d, TriDoc(id, patch))
  }

  lemma NamesNoWhite(g: Graph, id: Bytes)
    requires TextIds(g) && Squeezed(g, id)
    ensures !HasWhite(id)
  {
    var c :| c in g && Ingestible(g[c]) && Squeeze(g[c].mid.value) == id;
    SqueezedHasNoWhite(g[c].mid.value);
  }

  /**
    In every reachable state, for each ingestible commit the saved tip reaches: the id its Parquet row
    carries finds its patch in the trigram tier, its prose in the BM25 tier and (if every run writes
    over.db) its over.db row exactly if that id has no white space.
   */
  lemma RowIdServesExactly(g: Graph, codec: Codec<Bytes>, allOver: bool, trace: seq<State>, n: nat, shard: Shard,
                           c: Oid)
    requires SelfDelimiting(codec) && Behaviour(g, codec, allOver, trace) && n < |trace| && TextIds(g)
    requires shard in trace[n].disk.oids && c in g && Ingestible(g[c]) && Reaches(g, trace[n].disk.oids[shard], c)
    ensures var d, mid := trace[n].disk, g[c].mid.value;
      && (exists f, row :: 0 <= f < |d.files| && row in d.files[f].rows && row.oid == c && row.mid == mid)
      && (g[c].patch.Some? ==> (PatchUnder(d, mid, g[c].patch.value) <==> !HasWhite(mid)))
      && (g[c].prose ==> (mid in d.bm25 <==> !HasWhite(mid)))
      && (allOver ==> (mid in d.over <==> !HasWhite(mid)))
  {
    hide Reaches, Squeezed, HasWhite, TextIds, IsText, Squeeze, RunOk;
    ReachableIsInv(g, codec, allOver, trace, n);
    ReachableIsSqueezed(g, codec, allOver, trace, n);
    var d, mid := trace[n].disk, g[c].mid.value;
    assert AllLanded(g, d, allOver, shard, d.oids[shard]);
    assert Landed(g, d, allOver, shard, c);
    LandedRow(g, codec, d, shard, c);
    SqueezeKeepsExactly(mid);
    if Squeezed(g, mid) {
      NamesNoWhite(g, mid);
    }
    if g[c].patch.Some? {
      PatchUnderSqueezed(g, d, mid, g[c].patch.value);
    }
  }

  lemma PatchUnderSqueezed(g: Graph, d: Disk, id: Bytes, patch: Bytes)
    requires IdsSqueezed(g, d)
    ensures PatchUnder(d, id, patch) ==> Squeezed(g, id)
  {
    if PatchUnder(d, id, patch) {
      var i :| 0 <= i < |d.trigram| && TriDoc(id, patch) in d.trigram[i].docs;
      assert DocsSqueezed(g, d.trigram[i].docs);
    }
  }

  lemma LandedRow(g: Graph, codec: Codec<Bytes>, d: Disk, shard: Shard, c: Oid)
    requires FilesOk(g, codec, d) && c in g && Ingestible(g[c]) && Recorded(d, shard, c)
    ensures exists f, row :: 0 <= f < |d.files| && row in d.files[f].rows && row.oid == c && row.mid == g[c].mid.value
  {
    var f :| 0 <= f < |d.files| && InRows(d.files[f].rows, shard, c);
    var i :| 0 <= i < |d.files[f].rows| && d.files[f].rows[i].oid == c && d.files[f].rows[i].shard == shard;
    assert RowsOk(g, codec, d.segs, d.files[f].rows);
    assert RowOk(g, codec, d.segs, d.files[f].rows[i]);
    assert d.files[f].rows[i] in d.files[f].rows;
  }

  // ----- Segments in use ----------------------------------------------------

  function DocIds(docs: seq<TriDoc>): (r: seq<Bytes>)
    ensures |r| == |docs| && forall k :: 0 <= k < |docs| ==> r[k] == docs[k].mid
  {
    if docs == [] then [] else [docs[0].mid] + DocIds(docs[1..])
  }

  function DocPatches(docs: seq<TriDoc>): (r: seq<Bytes>)
    ensures |r| == |docs| && forall k :: 0 <= k < |docs| ==> r[k] == docs[k].patch
  {
    if docs == [] then [] else [docs[0].patch] + DocPatches(docs[1..])
  }

  /**
    Every trigram segment of every reachable state, once frozen, serves exactly what was put into it:
    its document names are squeezed ids, which have no carriage return to lose.
   */
  lemma SegmentsInUseServe(g: Graph, codec: Codec<Bytes>, trace: seq<State>, n: nat, i: nat, files: T.SegmentFiles,
                           bitmaps: Codec<set<nat>>)
    requires Behaviour(g, codec, false, trace) && n < |trace| && i < |trace[n].disk.trigram|
    requires var docs := trace[n].disk.trigram[i].docs;
      T.Frozen(files, DocIds(docs), DocPatches(docs), bitmaps) && SelfDelimiting(bitmaps)
    ensures var docs := trace[n].disk.trigram[i].docs;
      T.Serves(T.Open(files), bitmaps, DocIds(docs), DocPatches(docs))
  {
    hide T.Frozen, T.Serves;
    ReachableIsSqueezed(g, codec, false, trace, n);
    var docs := trace[n].disk.trigram[i].docs;
    assert DocsSqueezed(g, docs);
    forall k | 0 <= k < |docs| ensures NoBlank(DocIds(docs)[k]) {
      assert Squeezed(g, docs[k].mid);
    }
    NoBlankLinesReadBack(DocIds(docs));
    T.ReopenServesExactly(files, DocIds(docs), DocPatches(docs), bitmaps);
  }
}
