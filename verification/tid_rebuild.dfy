/** The tid side table: cover letters take over what the patches of their own thread touch. */
module TidRebuild {
  import opened Base
  import opened Sorting
  import opened Tid

  const OVER_CHUNK: nat := 50_000

  /** What the second pass reads of a message. */
  datatype Touch = Touch(mid: Mid, files: seq<Bytes>, functions: seq<Bytes>)

  datatype TidRow = TidRow(mid: Mid, tid: Mid, files: seq<Bytes>, functions: seq<Bytes>)

  const FILES: Touch -> seq<Bytes> := (t: Touch) => t.files
  const FUNCTIONS: Touch -> seq<Bytes> := (t: Touch) => t.functions

  function CoverTids(lites: seq<Lite>): set<Mid> {
    set i | 0 <= i < |lites| && lites[i].cover && lites[i].tid != [] :: lites[i].tid
  }

  /** The last row wins if an id occurs twice. */
  function TidOfMid(lites: seq<Lite>): map<Mid, Mid> {
    if lites == [] then map[]
    else TidOfMid(lites[..|lites| - 1])[lites[|lites| - 1].mid := lites[|lites| - 1].tid]
  }

  predicate BelongsTo(touch: Touch, tidOf: map<Mid, Mid>, tid: Mid) {
    touch.mid in tidOf && tidOf[touch.mid] == tid
  }

  /** Everything the messages of thread `tid` touch. */
  function Gathered(touches: seq<Touch>, tidOf: map<Mid, Mid>, tid: Mid, pick: Touch -> seq<Bytes>): set<Bytes> {
    set i, f | 0 <= i < |touches| && BelongsTo(touches[i], tidOf, tid) && f in pick(touches[i]) :: f
  }

  function Elements(s: seq<Bytes>): set<Bytes> {
    set x | x in s
  }

  lemma GatheredStep(touches: seq<Touch>, t: Touch, tidOf: map<Mid, Mid>, tid: Mid, pick: Touch -> seq<Bytes>)
    ensures Gathered(touches + [t], tidOf, tid, pick)
         == Gathered(touches, tidOf, tid, pick) + if BelongsTo(t, tidOf, tid) then Elements(pick(t)) else {}
  {
    var whole := touches + [t];
    assert whole[|touches|] == t;
    forall f | f in Gathered(touches, tidOf, tid, pick) ensures f in Gathered(whole, tidOf, tid, pick) {
      var i :| 0 <= i < |touches| && BelongsTo(touches[i], tidOf, tid) && f in pick(touches[i]);
      assert whole[i] == touches[i];
    }
  }

  // ----- Pass 2 -------------------------------------------------------------

  method InsertAll(into: set<Bytes>, values: seq<Bytes>) returns (r: set<Bytes>)
    ensures r == into + Elements(values)
  {
    r := into;
    for i := 0 to |values|
      invariant r == into + Elements(values[..i])
    {
      assert values[..i + 1] == values[..i] + [values[i]];
      r := r + {values[i]};
    }
    assert values[..|values|] == values;
  }

  function Found(m: map<Mid, set<Bytes>>, tid: Mid): set<Bytes> {
    if tid in m then m[tid] else {}
  }

  /** The two maps hold, for every cover letter's thread, what the thread touches. */
  ghost predicate Collected(touches: seq<Touch>, tidOf: map<Mid, Mid>, covers: set<Mid>,
                            pick: Touch -> seq<Bytes>, m: map<Mid, set<Bytes>>)
  {
    forall tid :: tid in covers ==> Found(m, tid) == Gathered(touches, tidOf, tid, pick)
  }

  lemma CollectedStep(touches: seq<Touch>, t: Touch, tidOf: map<Mid, Mid>, covers: set<Mid>,
                      pick: Touch -> seq<Bytes>, m: map<Mid, set<Bytes>>, m': map<Mid, set<Bytes>>)
    requires Collected(touches, tidOf, covers, pick, m)
    requires forall tid :: tid in covers ==>
      Found(m', tid) == Found(m, tid) + if BelongsTo(t, tidOf, tid) then Elements(pick(t)) else {}
    ensures Collected(touches + [t], tidOf, covers, pick, m')
  {
    forall tid | tid in covers ensures Found(m', tid) == Gathered(touches + [t], tidOf, tid, pick) {
      GatheredStep(touches, t, tidOf, tid, pick);
    }
  }

  method Collect(touches: seq<Touch>, tidOf: map<Mid, Mid>, covers: set<Mid>)
    returns (files: map<Mid, set<Bytes>>, functions: map<Mid, set<Bytes>>)
    ensures Collected(touches, tidOf, covers, FILES, files)
    ensures Collected(touches, tidOf, covers, FUNCTIONS, functions)
    ensures files.Keys <= covers && functions.Keys <= covers
  {
    hide Gathered, Elements, TidOfMid, CoverTids;
    files, functions := map[], map[];
    NothingCollected(tidOf, covers, FILES);
    NothingCollected(tidOf, covers, FUNCTIONS);
    assert touches[..0] == [];
    var i := 0;
    while i < |touches|
      invariant i <= |touches|
      invariant Collected(touches[..i], tidOf, covers, FILES, files)
      invariant Collected(touches[..i], tidOf, covers, FUNCTIONS, functions)
      invariant files.Keys <= covers && functions.Keys <= covers
    {
      var t := touches[i];
      ghost var wereFiles, wereFunctions := files, functions;
      if t.mid in tidOf && tidOf[t.mid] in covers {
        var tid := tidOf[t.mid];
        var grown := InsertAll(Found(files, tid), t.files);
        files := files[tid := grown];
        grown := InsertAll(Found(functions, tid), t.functions);
        functions := functions[tid := grown];
      }
      CollectedStep(touches[..i], t, tidOf, covers, FILES, wereFiles, files);
      CollectedStep(touches[..i], t, tidOf, covers, FUNCTIONS, wereFunctions, functions);
      assert touches[..i + 1] == touches[..i] + [t];
      i := i + 1;
    }
    assert touches[..i] == touches;
  }

  lemma NothingCollected(tidOf: map<Mid, Mid>, covers: set<Mid>, pick: Touch -> seq<Bytes>)
    ensures Collected([], tidOf, covers, pick, map[])
  {
  }

  // ----- Writing the rows ---------------------------------------------------

  ghost predicate IsSortedVec(v: seq<Bytes>, s: set<Bytes>) {
    Sorted(v, LEX) && Distinct(v) && Elements(v) == s
  }

  /** `sorted_vec`: the set in any order, then sorted. */
  method SortedVec(s: set<Bytes>) returns (v: seq<Bytes>)
    ensures IsSortedVec(v, s)
  {
    hide Sort, Sorted;
    var left := s;
    v := [];
    while left != {}
      invariant Distinct(v) && (forall x :: x in s <==> x in left || x in v)
      invariant forall x :: x in v ==> x !in left
      decreases |left|
    {
      var x :| x in left;
      left := left - {x};
      v := v + [x];
    }
    SortDistinct(v, LEX);
    LexIsTotalPreorder();
    SortSorts(v, LEX);
    forall x ensures x in Sort(v, LEX) <==> x in s {
      SortMember(v, LEX, x);
    }
    v := Sort(v, LEX);
  }

  /** The side-table row of a message. */
  ghost predicate RowFor(lite: Lite, files: set<Bytes>, functions: set<Bytes>, row: TidRow) {
    && row.mid == lite.mid && row.tid == lite.tid
    && IsSortedVec(row.files, if lite.cover && lite.tid != [] then files else {})
    && IsSortedVec(row.functions, if lite.cover && lite.tid != [] then functions else {})
  }

  ghost predicate RowsFor(lites: seq<Lite>, touches: seq<Touch>, tidOf: map<Mid, Mid>, rows: seq<TidRow>) {
    && |rows| == |lites|
    && forall i :: 0 <= i < |rows| ==>
         RowFor(lites[i], Gathered(touches, tidOf, lites[i].tid, FILES),
           Gathered(touches, tidOf, lites[i].tid, FUNCTIONS), rows[i])
  }

  /** Full batches, but for the last one. */
  ghost predicate Batched<T>(batches: seq<seq<T>>, size: nat, all: seq<T>) {
    && Concat(batches) == all
    && (forall b :: 0 <= b < |batches| - 1 ==> |batches[b]| == size)
    && (batches != [] ==> 0 < |batches[|batches| - 1]| <= size)
  }

  ghost predicate AllFull<T>(batches: seq<seq<T>>, size: nat) {
    forall b :: 0 <= b < |batches| ==> |batches[b]| == size
  }

  lemma BatchedAll<T>(batches: seq<seq<T>>, size: nat, all: seq<T>)
    requires Batched(batches, size, all)
    ensures Concat(batches) == all
  {
  }

  lemma BatchedStep<T>(batches: seq<seq<T>>, size: nat, all: seq<T>, batch: seq<T>)
    requires AllFull(batches, size) && Concat(batches) == all && 0 < |batch| <= size
    ensures Batched(batches + [batch], size, all + batch)
    ensures |batch| == size ==> AllFull(batches + [batch], size)
  {
    ConcatAppend(batches, batch);
  }

  /** Full batches written so far, and the rest in the buffer. */
  ghost predicate Buffered<T>(batches: seq<seq<T>>, buffer: seq<T>, size: nat, all: seq<T>) {
    |buffer| < size && AllFull(batches, size) && all == Concat(batches) + buffer
  }

  lemma NothingBuffered<T>(size: nat)
    requires size > 0
    ensures Buffered<T>([], [], size, [])
  {
  }

  /** Append to the buffer; a full buffer becomes a batch. */
  method Push<T>(batches: seq<seq<T>>, buffer: seq<T>, size: nat, x: T, ghost all: seq<T>)
    returns (b: seq<seq<T>>, rest: seq<T>)
    requires Buffered(batches, buffer, size, all)
    ensures Buffered(b, rest, size, all + [x])
  {
    b, rest := batches, buffer + [x];
    assert Concat(batches) + (buffer + [x]) == all + [x];
    if |rest| >= size {
      BatchedStep(batches, size, Concat(batches), rest);
      b, rest := batches + [rest], [];
      assert Concat(b) + [] == all + [x];
    }
  }

  /** What is left in the buffer becomes the last batch. */
  method Flush<T>(batches: seq<seq<T>>, buffer: seq<T>, size: nat, ghost all: seq<T>) returns (b: seq<seq<T>>)
    requires Buffered(batches, buffer, size, all)
    ensures Batched(b, size, all)
  {
    b := batches;
    if |buffer| > 0 {
      BatchedStep(batches, size, Concat(batches), buffer);
      b := batches + [buffer];
    } else {
      assert all == Concat(batches);
    }
  }

  lemma NoPairs()
    ensures Pairs([]) == []
  {
  }

  lemma PairsStep(lites: seq<Lite>, i: nat)
    requires i < |lites|
    ensures Pairs(lites[..i + 1]) == Pairs(lites[..i]) + [(lites[i].mid, lites[i].tid)]
  {
  }

  lemma NoCoversNothingCollected(touches: seq<Touch>, tidOf: map<Mid, Mid>, covers: set<Mid>, pick: Touch -> seq<Bytes>)
    ensures covers == {} ==> Collected(touches, tidOf, covers, pick, map[])
  {
  }

  function Pairs(lites: seq<Lite>): seq<(Mid, Mid)> {
    seq(|lites|, i requires 0 <= i < |lites| => (lites[i].mid, lites[i].tid))
  }

  method MakeRow(lite: Lite, files: map<Mid, set<Bytes>>, functions: map<Mid, set<Bytes>>) returns (row: TidRow)
    ensures row.mid == lite.mid && row.tid == lite.tid
    ensures IsSortedVec(row.files, if lite.cover then Found(files, lite.tid) else {})
    ensures IsSortedVec(row.functions, if lite.cover then Found(functions, lite.tid) else {})
  {
    hide Sort, Sorted, Distinct;
    var f := SortedVec(if lite.cover then Found(files, lite.tid) else {});
    var g := SortedVec(if lite.cover then Found(functions, lite.tid) else {});
    row := TidRow(lite.mid, lite.tid, f, g);
  }

  lemma RowIsFor(lites: seq<Lite>, i: nat, touches: seq<Touch>, tidOf: map<Mid, Mid>,
                 files: map<Mid, set<Bytes>>, functions: map<Mid, set<Bytes>>, row: TidRow)
    requires i < |lites|
    requires Collected(touches, tidOf, CoverTids(lites), FILES, files) && files.Keys <= CoverTids(lites)
    requires Collected(touches, tidOf, CoverTids(lites), FUNCTIONS, functions) && functions.Keys <= CoverTids(lites)
    requires row.mid == lites[i].mid && row.tid == lites[i].tid
    requires IsSortedVec(row.files, if lites[i].cover then Found(files, lites[i].tid) else {})
    requires IsSortedVec(row.functions, if lites[i].cover then Found(functions, lites[i].tid) else {})
    ensures RowFor(lites[i], Gathered(touches, tidOf, lites[i].tid, FILES),
      Gathered(touches, tidOf, lites[i].tid, FUNCTIONS), row)
  {
    hide Gathered, IsSortedVec;
    assert lites[i].cover && lites[i].tid != [] ==> lites[i].tid in CoverTids(lites);
    assert [] !in CoverTids(lites);
  }

  lemma NoRows(touches: seq<Touch>, tidOf: map<Mid, Mid>)
    ensures RowsFor([], touches, tidOf, [])
  {
  }

  lemma RowsForStep(lites: seq<Lite>, i: nat, touches: seq<Touch>, tidOf: map<Mid, Mid>, rows: seq<TidRow>, row: TidRow)
    requires i < |lites| && RowsFor(lites[..i], touches, tidOf, rows)
    requires RowFor(lites[i], Gathered(touches, tidOf, lites[i].tid, FILES),
      Gathered(touches, tidOf, lites[i].tid, FUNCTIONS), row)
    ensures RowsFor(lites[..i + 1], touches, tidOf, rows + [row])
  {
    hide Gathered, RowFor;
    assert forall k :: 0 <= k < i ==> lites[..i + 1][k] == lites[..i][k];
  }

  /**
    `rebuild` after the ids are assigned: the second pass (skipped if there is no cover letter), then
    one side-table row per message in Parquet batches, and one id update per message in over.db chunks.
   */
  method Rebuild(lites: seq<Lite>, touches: seq<Touch>, hasOver: bool)
    returns (parquet: seq<seq<TidRow>>, updates: seq<seq<(Mid, Mid)>>)
    ensures RowsFor(lites, touches, TidOfMid(lites), Concat(parquet))
    ensures Batched(parquet, 100_000, Concat(parquet))
    ensures Batched(updates, 50_000, if hasOver then Pairs(lites) else [])
  {
    hide Gathered, TidOfMid, IsSortedVec, Batched, Elements, RowsFor, RowFor, Concat, Buffered, Pairs;
    var covers := CoverTids(lites);
    var tidOf := TidOfMid(lites);
    var files: map<Mid, set<Bytes>>, functions: map<Mid, set<Bytes>> := map[], map[];
    NoCoversNothingCollected(touches, tidOf, covers, FILES);
    NoCoversNothingCollected(touches, tidOf, covers, FUNCTIONS);
    if covers != {} {
      files, functions := Collect(touches, tidOf, covers);
    }
    ghost var rows: seq<TidRow> := [];
    parquet, updates := [], [];
    var chunk: seq<TidRow>, overChunk: seq<(Mid, Mid)> := [], [];
    NoRows(touches, tidOf);
    assert lites[..0] == [];
    NoPairs();
    NothingBuffered<TidRow>(PARQUET_BATCH_ROWS);
    NothingBuffered<(Mid, Mid)>(OVER_CHUNK);
    var i := 0;
    while i < |lites|
      invariant i <= |lites| && RowsFor(lites[..i], touches, tidOf, rows)
      invariant Buffered(parquet, chunk, PARQUET_BATCH_ROWS, rows)
      invariant Buffered(updates, overChunk, OVER_CHUNK, if hasOver then Pairs(lites[..i]) else [])
    {
      var row := MakeRow(lites[i], files, functions);
      RowIsFor(lites, i, touches, tidOf, files, functions, row);
      RowsForStep(lites, i, touches, tidOf, rows, row);
      parquet, chunk := Push(parquet, chunk, PARQUET_BATCH_ROWS, row, rows);
      rows := rows + [row];
      if hasOver {
        PairsStep(lites, i);
        updates, overChunk := Push(updates, overChunk, OVER_CHUNK, (lites[i].mid, lites[i].tid), Pairs(lites[..i]));
      }
      i := i + 1;
    }
    assert lites[..i] == lites;
    parquet := Flush(parquet, chunk, PARQUET_BATCH_ROWS, rows);
    updates := Flush(updates, overChunk, OVER_CHUNK, if hasOver then Pairs(lites) else []);
    BatchedAll(parquet, PARQUET_BATCH_ROWS, rows);
  }

  // ----- What it means ------------------------------------------------------

  /** What the messages with thread id `tid` touch. */
  function Union(lites: seq<Lite>, touches: seq<Touch>, tid: Mid, pick: Touch -> seq<Bytes>): set<Bytes>
    requires |lites| == |touches|
  {
    set i, f | 0 <= i < |lites| && lites[i].tid == tid && f in pick(touches[i]) :: f
  }

  /** Both passes saw the same corpus, every id once. */
  ghost predicate SameCorpus(lites: seq<Lite>, touches: seq<Touch>) {
    && |lites| == |touches|
    && (forall i :: 0 <= i < |lites| ==> lites[i].mid == touches[i].mid)
    && (forall i, j :: 0 <= i < j < |lites| ==> lites[i].mid != lites[j].mid)
  }

  lemma {:induction false} TidOfMidFinds(lites: seq<Lite>, i: nat)
    requires i < |lites| && forall j :: i < j < |lites| ==> lites[j].mid != lites[i].mid
    ensures lites[i].mid in TidOfMid(lites) && TidOfMid(lites)[lites[i].mid] == lites[i].tid
    decreases |lites|
  {
    if i < |lites| - 1 {
      TidOfMidFinds(lites[..|lites| - 1], i);
    }
  }

  /**
    Every cover letter with a non-empty thread id carries exactly the files and functions touched by
    the messages of its thread, sorted, each once. Every other message carries none.
   */
  lemma PropagationIsUnion(lites: seq<Lite>, touches: seq<Touch>, rows: seq<TidRow>, i: nat)
    requires SameCorpus(lites, touches) && RowsFor(lites, touches, TidOfMid(lites), rows) && i < |lites|
    ensures rows[i].mid == lites[i].mid && rows[i].tid == lites[i].tid
    ensures lites[i].cover && lites[i].tid != [] ==>
      IsSortedVec(rows[i].files, Union(lites, touches, lites[i].tid, FILES))
      && IsSortedVec(rows[i].functions, Union(lites, touches, lites[i].tid, FUNCTIONS))
    ensures !lites[i].cover || lites[i].tid == [] ==> rows[i].files == [] && rows[i].functions == []
  {
    GatheredIsUnion(lites, touches, lites[i].tid, FILES);
    GatheredIsUnion(lites, touches, lites[i].tid, FUNCTIONS);
    assert RowFor(lites[i], Gathered(touches, TidOfMid(lites), lites[i].tid, FILES),
                  Gathered(touches, TidOfMid(lites), lites[i].tid, FUNCTIONS), rows[i]);
    if !lites[i].cover || lites[i].tid == [] {
      EmptyVec(rows[i].files);
      EmptyVec(rows[i].functions);
    }
  }

  lemma EmptyVec(v: seq<Bytes>)
    ensures Elements(v) == {} <==> v == []
  {
    if v != [] {
      assert v[0] in v;
      assert v[0] in Elements(v);
    }
  }

  lemma GatheredIsUnion(lites: seq<Lite>, touches: seq<Touch>, tid: Mid, pick: Touch -> seq<Bytes>)
    requires SameCorpus(lites, touches)
    ensures Gathered(touches, TidOfMid(lites), tid, pick) == Union(lites, touches, tid, pick)
  {
    forall i | 0 <= i < |lites| ensures BelongsTo(touches[i], TidOfMid(lites), tid) <==> lites[i].tid == tid {
      TidOfMidFinds(lites, i);
    }
  }

  /** After `assign_tids` only a message whose thread root has the empty id is left without propagation. */
  lemma OnlyTheEmptyRootIsSkipped(corpus: seq<Lite>, i: nat)
    requires i < |corpus| && corpus[i].cover && [] !in Ids(corpus)
    ensures Assigned(corpus)[i].tid in CoverTids(Assigned(corpus))
  {
    TidIsAnId(corpus, i);
    var lites := Assigned(corpus);
    assert lites[i] == corpus[i].(tid := TidOf(corpus, i));
    assert lites[i].cover;
  }
}
