/** The over.db gate. */
module OverGate {
  // The reader's gate compares the marker of over.db with the generation of the corpus. The ingest
  // goes on after a failed over.db write and leaves the repair to a later run.

  import opened Base
  import opened Whitespace
  import opened Ingest
  import S = Store

  /** `tier_marker_is_current`: an absent marker is taken for a directory of an older version. */
  predicate Trusted(d: Disk) {
    d.generation == 0 || OverTier !in d.markers || d.markers[OverTier] >= d.generation
  }

  /** The messages the Parquet files know, by the ids over.db uses. */
  function RecordedMids(d: Disk): set<Bytes> {
    set f, row | f in d.files && row in f.rows :: Squeeze(row.mid)
  }

  predicate Complete(d: Disk) {
    RecordedMids(d) <= d.over
  }

  // ----- One finished run ---------------------------------------------------

  lemma KeptIs(g: Graph, oids: seq<Oid>, c: Oid)
    ensures c in Kept(g, oids) <==> c in oids && c in g && Ingestible(g[c])
  {
  }

  lemma {:induction false} KeptMids(g: Graph, oids: seq<Oid>)
    ensures Kept(g, oids) == [] <==> MidsOf(g, oids) == {}
  {
    if Kept(g, oids) != [] {
      var c := Kept(g, oids)[0];
      KeptIs(g, oids, c);
      assert Squeeze(g[c].mid.value) in MidsOf(g, oids);
    } else {
      forall c | c in oids ensures !(c in g && Ingestible(g[c])) {
        KeptIs(g, oids, c);
      }
    }
  }

  lemma RowsHaveMids(g: Graph, codec: Codec<Bytes>, segs: map<nat, Bytes>, shard: Shard, walk: seq<Oid>, rows: seq<Row>)
    requires RowsFor(g, codec, segs, shard, Kept(g, walk), rows)
    ensures (set row | row in rows :: Squeeze(row.mid)) == MidsOf(g, walk)
  {
    hide Squeeze;
    forall row | row in rows ensures Squeeze(row.mid) in MidsOf(g, walk) {
      var i :| 0 <= i < |rows| && rows[i] == row;
      assert RowFor(g, codec, segs, shard, Kept(g, walk)[i], row);
      KeptIs(g, walk, row.oid);
    }
    forall c | c in walk && c in g && Ingestible(g[c])
      ensures exists row :: row in rows && Squeeze(row.mid) == Squeeze(g[c].mid.value)
    {
      KeptIs(g, walk, c);
      var i :| 0 <= i < |Kept(g, walk)| && Kept(g, walk)[i] == c;
      assert RowFor(g, codec, segs, shard, c, rows[i]);
      assert rows[i] in rows;
    }
  }

  lemma MidsRecorded(g: Graph, codec: Codec<Bytes>, d: Disk, run: Run, d': Disk)
    requires Gained(g, codec, d, run, d')
    ensures RecordedMids(d') == RecordedMids(d) + MidsOf(g, run.walk)
  {
    hide Squeeze, MidsOf, RowsFor;
    var rows: seq<Row> :| d'.files == d.files + [File(run.runId, rows)]
      && RowsFor(g, codec, d'.segs, run.shard, Kept(g, run.walk), rows);
    RowsHaveMids(g, codec, d'.segs, run.shard, run.walk, rows);
    var last := set row | row in rows :: Squeeze(row.mid);
    forall mid ensures mid in RecordedMids(d') <==> mid in RecordedMids(d) || mid in last {
      RecordedSplit(d.files, File(run.runId, rows), d, d', mid);
    }
  }

  lemma RecordedSplit(files: seq<File>, f: File, d: Disk, d': Disk, mid: Bytes)
    requires d.files == files && d'.files == files + [f]
    ensures mid in RecordedMids(d')
       <==> mid in RecordedMids(d) || exists row :: row in f.rows && Squeeze(row.mid) == mid
  {
    hide Squeeze;
    if row :| row in f.rows && Squeeze(row.mid) == mid {
      assert f in d'.files;
    }
  }

  /** What the run itself puts into over.db. */
  function OverGain(g: Graph, run: Run): set<Bytes> {
    if run.withOver && run.overOk then MidsOf(g, run.walk) else {}
  }

  /** After a run that published something: the marker is set, absent, or ahead of the new generation. */
  predicate MayTrust(d: Disk, run: Run) {
    || (run.withOver ==> run.overOk)
    || OverTier !in d.markers
    || d.markers[OverTier] >= NextGeneration(d.generation)
  }

  /**
    After a finished run the gate trusts an over.db that lacks a recorded message exactly if the
    marker was set (also without any writer) or is absent or ahead, and a message recorded now or
    earlier is neither in over.db already nor written by this run.
   */
  lemma WronglyTrustedExactly(g: Graph, codec: Codec<Bytes>, d: Disk, run: Run, d': Disk)
    requires Outcome(g, codec, d, run, d')
    ensures Trusted(d') && !Complete(d')
       <==> (if Kept(g, run.walk) == [] then Trusted(d) else MayTrust(d, run))
            && !(RecordedMids(d) + MidsOf(g, run.walk) <= d.over + OverGain(g, run))
  {
    hide MidsOf, RecordedMids, Kept;
    KeptMids(g, run.walk);
    if Kept(g, run.walk) == [] {
      SameRecorded(d, d');
    } else {
      MidsRecorded(g, codec, d, run, d');
    }
  }

  lemma SameRecorded(d: Disk, d': Disk)
    requires d'.files == d.files
    ensures RecordedMids(d') == RecordedMids(d)
  {
  }

  // ----- In every history ---------------------------------------------------

  ghost predicate MarkersBehind(s: State) {
    && (forall t :: t in s.disk.markers ==> s.disk.markers[t] <= s.disk.generation)
    && s.disk.generation <= U64_MAX
    && (s.proc.Some? ==> match s.proc.value.pc
          case Bumped(n) => n == s.disk.generation
          case OverMarked(n) => n == s.disk.generation
          case Bm25Marked(n) => n == s.disk.generation
          case _ => true)
  }

  lemma StepKeepsMarkers(g: Graph, codec: Codec<Bytes>, s: State, s': State)
    requires MarkersBehind(s) && Steps(g, codec, s, s')
    ensures MarkersBehind(s')
  {
    hide S.Append, Squeeze, WriteParquet;
  }

  /** No marker is ever ahead of the generation. */
  lemma {:induction false} MarkersNeverLead(g: Graph, codec: Codec<Bytes>, allOver: bool, trace: seq<State>, n: nat)
    requires Behaviour(g, codec, allOver, trace) && n < |trace|
    ensures MarkersBehind(trace[n])
    decreases n
  {
    hide MarkersBehind, Starts, Steps, Ends;
    if n == 0 {
      NoMarkers();
    } else {
      var s, s' := trace[n - 1], trace[n];
      MarkersNeverLead(g, codec, allOver, trace, n - 1);
      assert Next(g, codec, allOver, s, s');
      if Steps(g, codec, s, s') {
        StepKeepsMarkers(g, codec, s, s');
      } else {
        OtherKeepsMarkers(g, codec, allOver, s, s');
      }
    }
  }

  lemma NoMarkers()
    ensures MarkersBehind(State(EMPTY_DISK, None))
  {
  }

  lemma OtherKeepsMarkers(g: Graph, codec: Codec<Bytes>, allOver: bool, s: State, s': State)
    requires MarkersBehind(s) && Next(g, codec, allOver, s, s') && !Steps(g, codec, s, s')
    ensures MarkersBehind(s')
  {
    hide IsWalk, FreshRun, S.TornAppend, S.OpenActive;
  }

  /**
    In every history of runs and crashes, at the end of every run that had something to ingest: the
    gate is wrong exactly if the run did not fail to write over.db, or no run ever set the marker, and
    over.db lacks a message that this run did not write. (The exception is a saturated generation.)
   */
  lemma GateAfterEveryRun(g: Graph, codec: Codec<Bytes>, trace: seq<State>, i: nat, j: nat, run: Run)
    requires SelfDelimiting(codec) && Behaviour(g, codec, false, trace) && Completes(g, codec, trace, i, j, run)
    requires Kept(g, run.walk) != [] && trace[i].disk.generation < U64_MAX
    ensures var d, d' := trace[i].disk, trace[j].disk;
      Trusted(d') && !Complete(d')
      <==> ((run.withOver ==> run.overOk) || OverTier !in d.markers)
           && !(RecordedMids(d) + MidsOf(g, run.walk) <= d.over + OverGain(g, run))
  {
    hide Outcome, Kept, RecordedMids, MidsOf, Completes, Behaviour;
    CompletedInTrace(g, codec, trace, i, j, run);
    CompletedRun(g, codec, trace, i, j, run);
    MarkersNeverLead(g, codec, false, trace, i);
    WronglyTrustedExactly(g, codec, trace[i].disk, run, trace[j].disk);
  }

  lemma CompletedInTrace(g: Graph, codec: Codec<Bytes>, trace: seq<State>, i: nat, j: nat, run: Run)
    requires Completes(g, codec, trace, i, j, run)
    ensures i < j < |trace|
  {
  }

  // ----- What a failed write missed -----------------------------------------

  lemma ReachesTransitive(g: Graph, a: Oid, b: Oid, c: Oid)
    requires Reaches(g, a, b) && Reaches(g, b, c)
    ensures Reaches(g, a, c)
  {
    var p: seq<Oid> :| IsPath(g, p, a, b);
    var q: seq<Oid> :| IsPath(g, q, b, c);
    var r := p + q[1..];
    forall i | 0 <= i < |r| - 1 ensures r[i + 1] in g[r[i]].parents {
      if i >= |p| - 1 {
        assert r[i] == q[i - (|p| - 1)] && r[i + 1] == q[i + 1 - (|p| - 1)];
      }
    }
    assert IsPath(g, r, a, c);
  }

  /**
    A clean run `b` after a run `a` whose over.db write failed: over.db has what it had before both
    and what `b` walks, so it gets a message of `a` only if `b` meets it again. On the same shard `b`
    meets a commit of `a` exactly if the tip `a` saved has disappeared from the repository.
   */
  lemma FailedWriteIsMadeUpExactly(g: Graph, codec: Codec<Bytes>, d0: Disk, a: Run, d1: Disk, b: Run, d2: Disk)
    requires Outcome(g, codec, d0, a, d1) && a.withOver && !a.overOk
    requires Outcome(g, codec, d1, b, d2) && b.withOver && b.overOk && IsWalk(g, d1, b)
    ensures forall mid :: mid in d2.over <==> mid in d0.over || mid in MidsOf(g, b.walk)
    ensures forall c :: b.shard == a.shard && Reaches(g, a.head, c) ==>
      (c in b.walk <==> a.head !in b.present && Reaches(g, b.head, c))
  {
    hide MidsOf, Kept;
    KeptMids(g, a.walk);
    KeptMids(g, b.walk);
  }

  /**
    The same seen through the gate: it distrusts over.db after the failed run, and trusts it again after the
    clean one.
   */
  lemma CleanRunHidesTheLoss(g: Graph, codec: Codec<Bytes>, d0: Disk, a: Run, d1: Disk, b: Run, d2: Disk)
    requires Outcome(g, codec, d0, a, d1) && a.withOver && !a.overOk && Kept(g, a.walk) != []
    requires Outcome(g, codec, d1, b, d2) && b.withOver && b.overOk && Kept(g, b.walk) != []
    requires OverTier in d0.markers && d0.markers[OverTier] <= d0.generation < U64_MAX
    ensures !Trusted(d1) && Trusted(d2)
    ensures Complete(d2) <==> RecordedMids(d0) + MidsOf(g, a.walk) <= d0.over + MidsOf(g, b.walk)
  {
    hide MidsOf, Kept, RecordedMids;
    MidsRecorded(g, codec, d0, a, d1);
    MidsRecorded(g, codec, d1, b, d2);
  }

  /** Every run of the shard is given a history that still has the saved tip and has grown from it. */
  ghost predicate FastForward(g: Graph, trace: seq<State>, i: nat, n: nat, shard: Shard) {
    forall k, run :: i <= k < n < |trace| && Starts(g, false, trace[k], trace[k + 1], run) && run.shard == shard ==>
      && shard in trace[k].disk.oids && trace[k].disk.oids[shard] in run.present
      && Reaches(g, run.head, trace[k].disk.oids[shard])
  }

  /** The commit is behind the saved tip of its shard, and the run under way (if any) does not walk it. */
  ghost predicate Behind(g: Graph, s: State, shard: Shard, c: Oid) {
    && shard in s.disk.oids && Reaches(g, s.disk.oids[shard], c)
    && (s.proc.Some? && s.proc.value.run.shard == shard ==>
      Reaches(g, s.proc.value.run.head, c) && c !in s.proc.value.run.walk)
  }

  lemma StepKeepsBehind(g: Graph, codec: Codec<Bytes>, s: State, s': State, shard: Shard, c: Oid)
    requires Behind(g, s, shard, c) && (Steps(g, codec, s, s') || exists written: nat :: Ends(g, codec, s, s', written))
    ensures Behind(g, s', shard, c)
  {
    hide S.Append, S.TornAppend, Squeeze, WriteParquet, Reaches;
  }

  /**
    Once a tip is saved, no later run of the shard walks a commit behind it, whatever crashes and
    re-runs follow, as long as the shard's history only grows: what over.db missed stays missed.
   */
  lemma {:induction false} NeverWalkedAgain(g: Graph, codec: Codec<Bytes>, trace: seq<State>, i: nat, n: nat,
                                            shard: Shard, c: Oid)
    requires Behaviour(g, codec, false, trace) && i <= n < |trace|
    requires trace[i].proc.None? && shard in trace[i].disk.oids && Reaches(g, trace[i].disk.oids[shard], c)
    requires FastForward(g, trace, i, n, shard)
    ensures Behind(g, trace[n], shard, c)
    decreases n - i
  {
    hide Reaches, Steps, Ends, FreshRun;
    if i < n {
      var s, s' := trace[n - 1], trace[n];
      NeverWalkedAgain(g, codec, trace, i, n - 1, shard, c);
      assert Next(g, codec, false, s, s');
      if run: Run :| Starts(g, false, s, s', run) {
        if run.shard == shard {
          ReachesTransitive(g, run.head, s.disk.oids[shard], c);
          assert Hidden(g, s.disk, run, c);
        }
      } else {
        StepKeepsBehind(g, codec, s, s', shard, c);
      }
    }
  }

  // ----- Witnesses ----------------------------------------------------------

  /** A line of three commits, each a message of its own. */
  const LINE: Graph := map[
    0 := Commit({}, Some([1]), Some([65]), None, false),
    1 := Commit({0}, Some([2]), Some([66]), None, false),
    2 := Commit({1}, Some([3]), Some([67]), None, false)]

  lemma LineReaches(a: Oid, b: Oid)
    requires a < 3
    ensures Reaches(LINE, a, b) <==> b <= a
  {
    if b <= a {
      var path: seq<Oid> := if b == a then [a] else if b + 1 == a then [a, b] else [2, 1, 0];
      assert IsPath(LINE, path, a, b);
    } else if path: seq<Oid> :| IsPath(LINE, path, a, b) {
      LineDescends(path, a, b, |path| - 1);
    }
  }

  lemma {:induction false} LineDescends(path: seq<Oid>, a: Oid, b: Oid, i: nat)
    requires IsPath(LINE, path, a, b) && i < |path|
    ensures path[i] <= a
    decreases i
  {
    if i > 0 {
      LineDescends(path, a, b, i - 1);
      assert path[i - 1 + 1] in LINE[path[i - 1]].parents;
    }
  }

  /** The run that picks up commit `k` of the line, with an over.db writer that works or does not. */
  function LineRun(k: nat, overOk: bool): Run {
    Run(0, k, k, {0, 1, 2}, [k], true, overOk, true)
  }

  /** A directory in which the first `k` commits of the line have been ingested. */
  ghost predicate LineDisk(d: Disk, k: nat) {
    && (forall id :: id in d.segs ==> id <= k)
    && d.oids == (if k == 0 then map[] else map[0 := k - 1])
    && (forall i :: 0 <= i < |d.files| ==> d.files[i].runId < k) && d.trigram == []
  }

  /** `d'` is what the `k`-th run of the line, carried through, makes of `d`. */
  ghost predicate LineStep(d: Disk, k: nat, overOk: bool, d': Disk) {
    var run, s := LineRun(k, overOk), Begin(d, LineRun(k, overOk));
    && IsWalk(LINE, d, run) && FreshRun(d, run.runId)
    && SelfDelimiting(COUNTED) && Runnable(LINE, s.disk, s.proc.value)
    && RunOn(LINE, COUNTED, s.disk, s.proc.value).0 == d'
    && RunOn(LINE, COUNTED, s.disk, s.proc.value).1.pc.Finished?
    && Outcome(LINE, COUNTED, d, run, d')
  }

  lemma LineWalks(d: Disk, k: nat, overOk: bool)
    requires k < 3 && LineDisk(d, k)
    ensures IsWalk(LINE, d, LineRun(k, overOk))
  {
    hide Reaches;
    var run := LineRun(k, overOk);
    forall c ensures c in run.walk <==> Reaches(LINE, run.head, c) && !Hidden(LINE, d, run, c) {
      LineReaches(k, c);
      if k > 0 {
        LineReaches(k - 1, c);
      }
    }
  }

  lemma LineHasRoom(d: Disk, k: nat, overOk: bool)
    requires k < 3 && LineDisk(d, k)
    ensures FreshRun(d, k) && Begin(d, LineRun(k, overOk)).proc.value.segmentId <= k
    ensures HasRoom(Begin(d, LineRun(k, overOk)).disk, Begin(d, LineRun(k, overOk)).proc.value)
  {
  }

  lemma LineRunEnds(d: Disk, k: nat, overOk: bool) returns (d': Disk)
    requires k < 3 && LineDisk(d, k)
    ensures LineStep(d, k, overOk, d') && LineDisk(d', k + 1)
  {
    hide Runnable, Outcome, FreshRun, IsWalk, HasRoom;
    var run, s := LineRun(k, overOk), Begin(d, LineRun(k, overOk));
    CountedIsSelfDelimiting();
    LineWalks(d, k, overOk);
    LineHasRoom(d, k, overOk);
    FinishedRun(LINE, COUNTED, d, run);
    RunFinishes(LINE, COUNTED, s.disk, s.proc.value);
    d' := RunOn(LINE, COUNTED, s.disk, s.proc.value).0;
    LineDiskAfter(d, k, overOk, d');
  }

  lemma LineDiskAfter(d: Disk, k: nat, overOk: bool, d': Disk)
    requires k < 3 && LineDisk(d, k) && Outcome(LINE, COUNTED, d, LineRun(k, overOk), d')
    requires forall id :: id in d'.segs ==> id <= k + 1
    ensures LineDisk(d', k + 1)
  {
    hide RowsFor, S.Grew, MidsOf;
    LineMids(k);
  }

  lemma LineMids(k: nat)
    requires k < 3
    ensures Kept(LINE, [k]) == [k] && PatchesOf(LINE, [k]) == [] && MidsOf(LINE, [k]) == {[65 + k]}
  {
    assert Squeeze([65 + k]) == [65 + k];
  }

  lemma LineStepIs(d: Disk, k: nat, overOk: bool, d': Disk)
    requires k < 3 && LineStep(d, k, overOk, d')
    ensures RecordedMids(d') == RecordedMids(d) + {[65 + k]}
    ensures d'.over == d.over + (if overOk then {[65 + k]} else {})
    ensures d'.generation == NextGeneration(d.generation)
    ensures OverTier in d'.markers <==> OverTier in d.markers || overOk
    ensures OverTier in d'.markers ==> d'.markers[OverTier] == if overOk then d'.generation else d.markers[OverTier]
  {
    hide RecordedMids, MidsOf, Kept, Runnable, IsWalk, FreshRun, S.Grew;
    LineMids(k);
    MidsRecorded(LINE, COUNTED, d, LineRun(k, overOk), d');
  }

  lemma EmptyIsLine()
    ensures LineDisk(EMPTY_DISK, 0) && RecordedMids(EMPTY_DISK) == {}
  {
  }

  /**
    The first run of an empty directory fails to write over.db: no marker says so, and the gate trusts the
    empty table.
   */
  lemma FailedFirstRunIsTrusted()
    ensures exists d ::
      && LineStep(EMPTY_DISK, 0, false, d)
      && RecordedMids(d) == {[65]} && d.over == {} && OverTier !in d.markers && Trusted(d) && !Complete(d)
  {
    hide LineStep, LineDisk, RecordedMids;
    EmptyIsLine();
    var d := LineRunEnds(EMPTY_DISK, 0, false);
    LineStepIs(EMPTY_DISK, 0, false, d);
  }

  /** A clean run, a failed one and a clean one: the gate trusts an over.db without the second message. */
  lemma FailedSecondRunIsHidden()
    ensures exists d1, d2, d3 ::
      && LineStep(EMPTY_DISK, 0, true, d1) && LineStep(d1, 1, false, d2) && LineStep(d2, 2, true, d3)
      && Trusted(d1) && Complete(d1) && !Trusted(d2) && Trusted(d3)
      && RecordedMids(d3) == {[65], [66], [67]} && d3.over == {[65], [67]}
  {
    hide LineStep, LineDisk, RecordedMids;
    EmptyIsLine();
    var d1 := LineRunEnds(EMPTY_DISK, 0, true);
    var d2 := LineRunEnds(d1, 1, false);
    var d3 := LineRunEnds(d2, 2, true);
    LineStepIs(EMPTY_DISK, 0, true, d1);
    LineStepIs(d1, 1, false, d2);
    LineStepIs(d2, 2, true, d3);
  }
}
