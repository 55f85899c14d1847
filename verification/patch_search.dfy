/** Patch search: candidates, their rows, and the chunked confirmation. */
module PatchSearch {
  import opened Base
  import opened Sorting
  import opened Scan
  import QGram
  import Trigram

  const CHUNK: nat := 256
  const MAX_PATCH_CANDIDATES: nat := 100_000
  const TOO_MANY_CANDIDATES := "needle matches too many candidates"

  // ----- Confirmation -------------------------------------------------------

  /** `memmem::find`: is the needle a block of the body? */
  predicate Find(body: Bytes, needle: Bytes)
    decreases |body|
  {
    needle <= body || (body != [] && Find(body[1..], needle))
  }

  lemma FindIsOccurs(body: Bytes, needle: Bytes)
    ensures Find(body, needle) <==> Occurs(needle, body)
    decreases |body|
  {
    OccursSplit(body, needle);
    if body != [] {
      FindIsOccurs(body[1..], needle);
    }
  }

  lemma OccursAtTail(body: Bytes, needle: Bytes, i: nat)
    requires body != []
    ensures OccursAt(needle, body, i + 1) <==> OccursAt(needle, body[1..], i)
  {
    if i + 1 + |needle| <= |body| {
      assert body[1..][i..i + |needle|] == body[i + 1..i + 1 + |needle|];
    }
  }

  lemma OccursSplit(body: Bytes, needle: Bytes)
    ensures Occurs(needle, body) <==> needle <= body || (body != [] && Occurs(needle, body[1..]))
  {
    assert needle <= body <==> OccursAt(needle, body, 0);
    hide OccursAt;
    if body == [] {
      OccursInNothing(needle);
    } else {
      if i: nat :| OccursAt(needle, body, i) && i > 0 {
        OccursAtTail(body, needle, i - 1);
      }
      if i: nat :| OccursAt(needle, body[1..], i) {
        OccursAtTail(body, needle, i);
      }
    }
  }

  lemma OccursInNothing(needle: Bytes)
    ensures Occurs(needle, []) <==> needle == []
  {
    if needle == [] {
      assert OccursAt(needle, [], 0);
    }
  }

  /** One worker: fetch the body of a row and look for the needle in it. */
  function Outcome(read: MessageRow -> Result<Bytes>, needle: Bytes, row: MessageRow): Result<Option<MessageRow>> {
    match read(row)
    case Err(e) => Err(e)
    case Ok(body) => Ok(if Find(body, needle) then Some(row) else None)
  }

  /** Row by row: stop at the limit, fail at the first unreadable body met before that. */
  function Confirm(read: MessageRow -> Result<Bytes>, needle: Bytes, hits: seq<MessageRow>, limit: nat,
                   acc: seq<MessageRow>): Result<seq<MessageRow>> {
    if |acc| >= limit || hits == [] then Ok(acc)
    else
      match Outcome(read, needle, hits[0])
      case Err(e) => Err(e)
      case Ok(None) => Confirm(read, needle, hits[1..], limit, acc)
      case Ok(Some(row)) => Confirm(read, needle, hits[1..], limit, acc + [row])
  }

  /** The chunked fan-out gives what going row by row gives, errors included. */
  method ParallelConfirm(read: MessageRow -> Result<Bytes>, needle: Bytes, hits: seq<MessageRow>, limit: nat)
    returns (r: Result<seq<MessageRow>>)
    ensures r == Confirm(read, needle, hits, limit, [])
  {
    var confirmed: seq<MessageRow> := [];
    var start := 0;
    assert hits[0..] == hits;
    while start < |hits|
      invariant start <= |hits|
      invariant Confirm(read, needle, hits[start..], limit, confirmed) == Confirm(read, needle, hits, limit, [])
    {
      if |confirmed| >= limit {
        break;
      }
      var chunk := hits[start..Min(start + CHUNK, |hits|)];
      var results := Map(chunk, row => Outcome(read, needle, row));
      var j := 0;
      while j < |results|
        invariant j <= |results|
        invariant Confirm(read, needle, hits[start + j..], limit, confirmed) == Confirm(read, needle, hits, limit, [])
        invariant |confirmed| < limit
      {
        assert hits[start + j] == chunk[j] && hits[start + j..][1..] == hits[start + j + 1..];
        match results[j] {
          case Err(e) => return Err(e);
          case Ok(None) =>
          case Ok(Some(row)) =>
            confirmed := confirmed + [row];
            if |confirmed| >= limit {
              break;
            }
        }
        j := j + 1;
      }
      start := start + |chunk|;
    }
    return Ok(confirmed);
  }

  predicate Readable(read: MessageRow -> Result<Bytes>, row: MessageRow) {
    read(row).Ok?
  }

  function Holds(read: MessageRow -> Result<Bytes>, needle: Bytes): MessageRow -> bool {
    row => read(row).Ok? && Find(read(row).value, needle)
  }

  lemma FilterHead<T>(s: seq<T>, p: T -> bool)
    requires s != []
    ensures Filter(s, p) == (if p(s[0]) then [s[0]] else []) + Filter(s[1..], p)
  {
    FilterAppend([s[0]], s[1..], p);
    FilterOne(s[0], p);
    assert s == [s[0]] + s[1..];
  }

  /** With readable bodies: the first `limit` rows, in the given order, whose body holds the needle. */
  lemma {:induction false} ConfirmIsFilterTake(read: MessageRow -> Result<Bytes>, needle: Bytes, hits: seq<MessageRow>,
                                               limit: nat, acc: seq<MessageRow>)
    requires forall i :: 0 <= i < |hits| ==> Readable(read, hits[i])
    requires |acc| <= limit
    ensures Confirm(read, needle, hits, limit, acc) == Ok(Take(acc + Filter(hits, Holds(read, needle)), limit))
    decreases |hits|
  {
    var p := Holds(read, needle);
    if |acc| >= limit {
      assert Take(acc + Filter(hits, p), limit) == acc;
    } else if hits == [] {
      assert Take(acc + Filter(hits, p), limit) == acc;
    } else {
      FilterHead(hits, p);
      assert Readable(read, hits[0]);
      if p(hits[0]) {
        ConfirmIsFilterTake(read, needle, hits[1..], limit, acc + [hits[0]]);
        assert acc + [hits[0]] + Filter(hits[1..], p) == acc + Filter(hits, p);
      } else {
        ConfirmIsFilterTake(read, needle, hits[1..], limit, acc);
        assert Filter(hits, p) == Filter(hits[1..], p);
      }
    }
  }

  /** It fails exactly when an unreadable row comes before the limit is reached. */
  lemma {:induction false} ConfirmFailsExactly(read: MessageRow -> Result<Bytes>, needle: Bytes, hits: seq<MessageRow>,
                                               limit: nat, acc: seq<MessageRow>)
    requires |acc| <= limit
    ensures Confirm(read, needle, hits, limit, acc).Err?
       <==> exists i ::
              && 0 <= i < |hits| && FirstFailure(read, needle, hits, i)
              && |acc| + |Filter(hits[..i], Holds(read, needle))| < limit
    decreases |hits|
  {
    hide Find;
    var p := Holds(read, needle);
    if |acc| < limit && hits != [] {
      if !Readable(read, hits[0]) {
        assert hits[..0] == [];
        assert FirstFailure(read, needle, hits, 0);
      } else {
        var tail := hits[1..];
        var acc' := if p(hits[0]) then acc + [hits[0]] else acc;
        ConfirmFailsExactly(read, needle, tail, limit, acc');
        if i :| 0 <= i < |tail| && FirstFailure(read, needle, tail, i) && |acc'| + |Filter(tail[..i], p)| < limit {
          ShiftFailure(read, needle, hits, i);
        }
        if i :| 0 <= i < |hits| && FirstFailure(read, needle, hits, i) && |acc| + |Filter(hits[..i], p)| < limit {
          UnshiftFailure(read, needle, hits, i);
        }
      }
    }
  }

  ghost predicate FirstFailure(read: MessageRow -> Result<Bytes>, needle: Bytes, hits: seq<MessageRow>, i: nat) {
    i < |hits| && !Readable(read, hits[i]) && forall j :: 0 <= j < i ==> Readable(read, hits[j])
  }

  lemma ShiftFailure(read: MessageRow -> Result<Bytes>, needle: Bytes, hits: seq<MessageRow>, i: nat)
    requires hits != [] && Readable(read, hits[0]) && FirstFailure(read, needle, hits[1..], i)
    ensures FirstFailure(read, needle, hits, i + 1)
    ensures var p := Holds(read, needle);
      |Filter(hits[..i + 1], p)| == (if p(hits[0]) then 1 else 0) + |Filter(hits[1..][..i], p)|
  {
    FilterHead(hits[..i + 1], Holds(read, needle));
    assert hits[..i + 1][1..] == hits[1..][..i];
    assert forall j :: 1 <= j < i + 1 ==> hits[j] == hits[1..][j - 1];
  }

  lemma UnshiftFailure(read: MessageRow -> Result<Bytes>, needle: Bytes, hits: seq<MessageRow>, i: nat)
    requires hits != [] && Readable(read, hits[0]) && FirstFailure(read, needle, hits, i)
    ensures i > 0 && FirstFailure(read, needle, hits[1..], i - 1)
    ensures var p := Holds(read, needle);
      |Filter(hits[..i], p)| == (if p(hits[0]) then 1 else 0) + |Filter(hits[1..][..i - 1], p)|
  {
    assert forall j :: 1 <= j <= i ==> hits[j] == hits[1..][j - 1];
    ShiftFailure(read, needle, hits, i - 1);
  }

  // ----- The whole search ---------------------------------------------------

  /** One trigram segment in scope, with the documents it was built from. */
  datatype Seg = Seg(reader: Trigram.SegmentReader, docs: seq<Bytes>, patches: seq<Bytes>)

  ghost predicate AllServe(codec: Codec<set<nat>>, segs: seq<Seg>) {
    forall i :: 0 <= i < |segs| ==> Trigram.Serves(segs[i].reader, codec, segs[i].docs, segs[i].patches)
  }

  function CandidateUnion(segs: seq<Seg>, needle: Bytes): set<Mid> {
    set i, mid | 0 <= i < |segs| && mid in Trigram.Candidates(segs[i].docs, segs[i].patches, needle, 0) :: mid
  }

  /** `collect_trigram_candidates` without edits: the union over all segments, or an error when it is too large. */
  method CollectCandidates(codec: Codec<set<nat>>, segs: seq<Seg>, needle: Bytes) returns (r: Result<set<Mid>>)
    requires AllServe(codec, segs)
    ensures r == if |CandidateUnion(segs, needle)| >= MAX_PATCH_CANDIDATES then Err(TOO_MANY_CANDIDATES)
                 else Ok(CandidateUnion(segs, needle))
  {
    hide Trigram.Serves, Trigram.Candidates;
    var out: set<Mid> := {};
    var i := 0;
    while i < |segs|
      invariant i <= |segs| && out == CandidateUnion(segs[..i], needle) && |out| < MAX_PATCH_CANDIDATES
    {
      var mids := Trigram.CandidatesForSubstringFuzzy(codec, segs[i].reader, needle, 0, segs[i].docs, segs[i].patches);
      UnionStep(segs, needle, i);
      ghost var before := out;
      var j := 0;
      while j < |mids|
        invariant j <= |mids| && out == before + Range(mids[..j]) && |out| < MAX_PATCH_CANDIDATES
      {
        RangeStep(mids, j);
        out := out + {mids[j]};
        j := j + 1;
        if |out| >= MAX_PATCH_CANDIDATES {
          RangeGrows(mids, j);
          SubsetSize(out, CandidateUnion(segs, needle));
          return Err(TOO_MANY_CANDIDATES);
        }
      }
      assert mids[..j] == mids;
      i := i + 1;
    }
    assert segs[..i] == segs;
    return Ok(out);
  }

  function Range(mids: seq<Mid>): set<Mid> {
    set m | m in mids
  }

  lemma RangeStep(mids: seq<Mid>, j: nat)
    requires j < |mids|
    ensures Range(mids[..j + 1]) == Range(mids[..j]) + {mids[j]}
  {
    assert mids[..j + 1] == mids[..j] + [mids[j]];
  }

  lemma RangeGrows(mids: seq<Mid>, j: nat)
    requires j <= |mids|
    ensures Range(mids[..j]) <= Range(mids)
  {
  }

  lemma UnionStep(segs: seq<Seg>, needle: Bytes, i: nat)
    requires i < |segs|
    ensures CandidateUnion(segs[..i + 1], needle) ==
      CandidateUnion(segs[..i], needle) + Range(Trigram.Candidates(segs[i].docs, segs[i].patches, needle, 0))
    ensures CandidateUnion(segs[..i + 1], needle) <= CandidateUnion(segs, needle)
  {
    hide Trigram.Candidates;
    assert segs[..i + 1] == segs[..i] + [segs[i]];
    forall mid | mid in CandidateUnion(segs[..i], needle) ensures mid in CandidateUnion(segs[..i + 1], needle) {
      var k :| 0 <= k < i && mid in Trigram.Candidates(segs[..i][k].docs, segs[..i][k].patches, needle, 0);
      assert segs[..i + 1][k] == segs[..i][k];
    }
    forall mid | mid in Range(Trigram.Candidates(segs[i].docs, segs[i].patches, needle, 0))
      ensures mid in CandidateUnion(segs[..i + 1], needle)
    {
      assert segs[..i + 1][i] == segs[i];
    }
    forall mid | mid in CandidateUnion(segs[..i + 1], needle) ensures mid in CandidateUnion(segs, needle) {
      var k :| 0 <= k < i + 1 && mid in Trigram.Candidates(segs[..i + 1][k].docs, segs[..i + 1][k].patches, needle, 0);
      assert segs[k] == segs[..i + 1][k];
    }
  }

  const NEWEST_FIRST: (MessageRow, MessageRow) -> bool := (a: MessageRow, b: MessageRow) => DateKey(a) >= DateKey(b)

  // ----- Hydration ----------------------------------------------------------

  /** What over.db answers by message id, if there is an over.db the reader trusts. */
  type Over = Option<map<Mid, MessageRow>>

  ghost predicate OverOk(over: Over) {
    over.Some? ==> forall mid :: mid in over.value ==> over.value[mid].mid == mid
  }

  predicate InOver(over: Over, mid: Mid) {
    over.Some? && mid in over.value
  }

  predicate ListOk(list: Option<Bytes>, row: MessageRow) {
    list == None || row.list == list.value
  }

  function Wanted(mids: set<Mid>, list: Option<Bytes>): MessageRow -> bool {
    (row: MessageRow) => ListOk(list, row) && row.mid in mids
  }

  function Missing(over: Over, candidates: set<Mid>): set<Mid> {
    set mid | mid in candidates && !InOver(over, mid)
  }

  /** The row that stands for a candidate: over.db's if it has one, else the corpus row; the list is looked at last. */
  ghost predicate IsHydrated(dir: seq<ParquetFile>, over: Over, candidates: set<Mid>, list: Option<Bytes>,
                             row: MessageRow) {
    && row.mid in candidates && (list.Some? ==> row.list == list.value)
    && if InOver(over, row.mid) then row == over.value[row.mid] else row in Corpus(dir)
  }

  /** The hydrated rows, each once, in some order. */
  ghost predicate IsHydration(hits: seq<MessageRow>, dir: seq<ParquetFile>, over: Over, candidates: set<Mid>,
                              list: Option<Bytes>) {
    DistinctMids(hits) && forall row :: row in hits <==> IsHydrated(dir, over, candidates, list, row)
  }

  lemma HydrationComplete(hits: seq<MessageRow>, rest: seq<MessageRow>, dir: seq<ParquetFile>, over: Over,
                          candidates: set<Mid>, list: Option<Bytes>)
    requires OverOk(over) && DistinctMids(hits) && rest == Filter(Corpus(dir), Wanted(Missing(over, candidates), list))
    requires forall row :: row in hits <==>
      row.mid in candidates && ListOk(list, row) && InOver(over, row.mid) && row == over.value[row.mid]
    ensures IsHydration(hits + rest, dir, over, candidates, list)
  {
    hide Corpus, Filter;
    CorpusIsDistinct(dir);
    FilterMembers(Corpus(dir), Wanted(Missing(over, candidates), list));
    FilterDistinct(Corpus(dir), Wanted(Missing(over, candidates), list));
    var all := hits + rest;
    forall i, j | 0 <= i < j < |all| ensures all[i].mid != all[j].mid {
      if i < |hits| <= j {
        assert all[i] in hits && all[j] in rest;
      }
    }
    forall row ensures row in all <==> IsHydrated(dir, over, candidates, list, row) {
      assert row in all <==> row in hits || row in rest;
    }
  }

  lemma CorpusIsDistinct(dir: seq<ParquetFile>)
    ensures DistinctMids(Corpus(dir))
  {
    DedupKeepsMids(AllRows(ParquetFiles(dir)));
  }

  lemma {:induction false} FilterDistinct(rows: seq<MessageRow>, p: MessageRow -> bool)
    requires DistinctMids(rows)
    ensures DistinctMids(Filter(rows, p))
    decreases |rows|
  {
    if rows != [] {
      var front, last := rows[..|rows| - 1], rows[|rows| - 1];
      FilterDistinct(front, p);
      FilterMembers(front, p);
      forall i | 0 <= i < |Filter(front, p)| ensures Filter(front, p)[i].mid != last.mid {
        assert Filter(front, p)[i] in front;
      }
    }
  }

  /** `hydrate_candidates`: over.db first, in no particular order, then one scan for the ids it does not have. */
  method HydrateCandidates(dir: seq<ParquetFile>, over: Over, candidates: set<Mid>, list: Option<Bytes>)
    returns (hits: seq<MessageRow>)
    requires OverOk(over)
    ensures IsHydration(hits, dir, over, candidates, list)
  {
    hide Corpus, Filter;
    hits := [];
    var missing: set<Mid> := {};
    var left := candidates;
    while left != {}
      invariant left <= candidates && DistinctMids(hits)
      invariant missing == Missing(over, candidates - left)
      invariant forall row :: row in hits <==>
        row.mid in candidates - left && ListOk(list, row) && InOver(over, row.mid) && row == over.value[row.mid]
      decreases |left|
    {
      var mid :| mid in left;
      left := left - {mid};
      if InOver(over, mid) {
        var row := over.value[mid];
        if ListOk(list, row) {
          hits := hits + [row];
        }
      } else {
        missing := missing + {mid};
      }
    }
    assert candidates - left == candidates;
    var rest: seq<MessageRow> := [];
    if missing != {} {
      rest := ScanDir(dir, Wanted(missing, list), NEVER);
      VisitAll(Corpus(dir), Wanted(missing, list));
    } else {
      NothingWanted(Corpus(dir), list);
    }
    HydrationComplete(hits, rest, dir, over, candidates, list);
    hits := hits + rest;
  }

  lemma NothingWanted(rows: seq<MessageRow>, list: Option<Bytes>)
    ensures Filter(rows, Wanted({}, list)) == []
  {
    FilterMembers(rows, Wanted({}, list));
    NoMembers(Filter(rows, Wanted({}, list)));
  }

  // ----- The search ---------------------------------------------------------

  /** An answer of `patch_search` once the candidates are known; the order of hydration shows in ties only. */
  ghost predicate IsAnswer(r: Result<seq<MessageRow>>, dir: seq<ParquetFile>, over: Over, candidates: set<Mid>,
                           read: MessageRow -> Result<Bytes>, needle: Bytes, list: Option<Bytes>, limit: nat) {
    exists hits :: IsHydration(hits, dir, over, candidates, list)
      && r == Confirm(read, needle, Sort(hits, NEWEST_FIRST), limit, [])
  }

  method PatchSearch(codec: Codec<set<nat>>, segs: seq<Seg>, dir: seq<ParquetFile>, over: Over,
                     read: MessageRow -> Result<Bytes>,
                     needle: Bytes, list: Option<Bytes>, limit: nat) returns (r: Result<seq<MessageRow>>)
    requires AllServe(codec, segs) && OverOk(over)
    ensures needle == [] ==> r == Ok([])
    ensures needle != [] && |CandidateUnion(segs, needle)| >= 100_000 ==> r == Err(TOO_MANY_CANDIDATES)
    ensures needle != [] && |CandidateUnion(segs, needle)| < 100_000 ==>
      IsAnswer(r, dir, over, CandidateUnion(segs, needle), read, needle, list, limit)
    ensures r.Ok? ==> forall i, j :: 0 <= i < j < |r.value| && r.value[i].date.Some? && r.value[j].date.Some? ==>
      r.value[i].date.value >= r.value[j].date.value
    ensures r.Ok? ==> forall i, j :: 0 <= i < j < |r.value| && r.value[i].date.None? && r.value[j].date.Some? ==>
      r.value[j].date.value <= -0x8000_0000_0000_0000
  {
    hide AllServe, CandidateUnion, IsHydration, Sort, Confirm, DateKey;
    if needle == [] {
      return Ok([]);
    }
    var candidates := CollectCandidates(codec, segs, needle);
    if candidates.Err? {
      return Err(candidates.error);
    }
    var hits := HydrateCandidates(dir, over, candidates.value, list);
    r := ParallelConfirm(read, needle, Sort(hits, NEWEST_FIRST), limit);
    SortSorts(hits, NEWEST_FIRST);
    if r.Ok? {
      ConfirmSorted(read, needle, Sort(hits, NEWEST_FIRST), limit, []);
      NewestFirstDates(r.value);
    }
  }

  /** What is confirmed keeps the order it came in, also when a row is unreadable later on. */
  lemma {:induction false} ConfirmSorted(read: MessageRow -> Result<Bytes>, needle: Bytes, hits: seq<MessageRow>,
                                         limit: nat, acc: seq<MessageRow>)
    requires Sorted(hits, NEWEST_FIRST) && Sorted(acc, NEWEST_FIRST)
    requires forall a, h :: a in acc && h in hits ==> NEWEST_FIRST(a, h)
    ensures var r := Confirm(read, needle, hits, limit, acc); r.Ok? ==> Sorted(r.value, NEWEST_FIRST)
    decreases |hits|
  {
    hide DateKey;
    if |acc| < limit && hits != [] && Outcome(read, needle, hits[0]).Ok? {
      var row := hits[0];
      forall h | h in hits[1..] ensures NEWEST_FIRST(row, h) && h in hits {
      }
      if Outcome(read, needle, row).value.None? {
        ConfirmSorted(read, needle, hits[1..], limit, acc);
      } else {
        SortedAppend(acc, row);
        ConfirmSorted(read, needle, hits[1..], limit, acc + [row]);
      }
    }
  }

  lemma SortedAppend(acc: seq<MessageRow>, row: MessageRow)
    requires Sorted(acc, NEWEST_FIRST) && forall a :: a in acc ==> NEWEST_FIRST(a, row)
    ensures Sorted(acc + [row], NEWEST_FIRST)
  {
  }

  /** The order in terms of the dates: descending, and undated rows last (but for the smallest date there is). */
  lemma NewestFirstDates(rows: seq<MessageRow>)
    requires Sorted(rows, NEWEST_FIRST)
    ensures forall i, j :: 0 <= i < j < |rows| && rows[i].date.Some? && rows[j].date.Some? ==>
      rows[i].date.value >= rows[j].date.value
    ensures forall i, j :: 0 <= i < j < |rows| && rows[i].date.None? && rows[j].date.Some? ==>
      rows[j].date.value <= -0x8000_0000_0000_0000
  {
    forall i, j | 0 <= i < j < |rows| ensures DateKey(rows[i]) >= DateKey(rows[j]) {
      assert NEWEST_FIRST(rows[i], rows[j]);
    }
  }

  ghost predicate Match(dir: seq<ParquetFile>, over: Over, candidates: set<Mid>, read: MessageRow -> Result<Bytes>,
                        needle: Bytes, list: Option<Bytes>, row: MessageRow) {
    IsHydrated(dir, over, candidates, list, row) && read(row).Ok? && Occurs(needle, read(row).value)
  }

  /**
    Patch search is sound, newest-first, and complete up to the limit: every result is a candidate's row
    whose body holds the needle; a matching row that is left out is no newer than any result, and is
    left out only because the limit is reached.
   */
  lemma SearchReturnsTheNewestMatches(r: Result<seq<MessageRow>>, dir: seq<ParquetFile>, over: Over,
                                      candidates: set<Mid>,
                                      read: MessageRow -> Result<Bytes>, needle: Bytes, list: Option<Bytes>, limit: nat)
    requires IsAnswer(r, dir, over, candidates, read, needle, list, limit)
    requires forall row :: IsHydrated(dir, over, candidates, list, row) ==> Readable(read, row)
    ensures r.Ok? && |r.value| <= limit && Sorted(r.value, NEWEST_FIRST)
    ensures forall row :: row in r.value ==> Match(dir, over, candidates, read, needle, list, row)
    ensures forall i, j :: 0 <= i < j < |r.value| && r.value[i].date.Some? && r.value[j].date.Some? ==>
      r.value[i].date.value >= r.value[j].date.value
    ensures forall i, j :: 0 <= i < j < |r.value| && r.value[i].date.None? && r.value[j].date.Some? ==>
      r.value[j].date.value <= -0x8000_0000_0000_0000
    ensures forall row ::
      Match(dir, over, candidates, read, needle, list, row) && row !in r.value ==> |r.value| == limit
    ensures forall row, got ::
      Match(dir, over, candidates, read, needle, list, row) && row !in r.value && got in r.value && row.date.Some? ==>
      row.date.value <= if got.date.Some? then got.date.value else -0x8000_0000_0000_0000
  {
    hide Sort, Filter, Corpus, Match, Confirm, IsHydrated, Holds;
    var listed :| IsHydration(listed, dir, over, candidates, list)
      && r == Confirm(read, needle, Sort(listed, NEWEST_FIRST), limit, []);
    var hits := Sort(listed, NEWEST_FIRST);
    var all := Filter(hits, Holds(read, needle));
    forall row ensures Match(dir, over, candidates, read, needle, list, row) <==> row in all {
      MatchIsFound(listed, dir, over, candidates, read, needle, list, row);
    }
    forall row | row in hits ensures Readable(read, row) {
      SortMember(listed, NEWEST_FIRST, row);
    }
    ConfirmIsFilterTake(read, needle, hits, limit, []);
    assert [] + all == all;
    SortSorts(listed, NEWEST_FIRST);
    FilterSorted(hits, Holds(read, needle), NEWEST_FIRST);
    TakeNewest(all, limit);
    NewestFirstDates(r.value);
  }

  lemma MatchIsFound(listed: seq<MessageRow>, dir: seq<ParquetFile>, over: Over, candidates: set<Mid>,
                     read: MessageRow -> Result<Bytes>, needle: Bytes, list: Option<Bytes>, row: MessageRow)
    requires IsHydration(listed, dir, over, candidates, list)
    ensures Match(dir, over, candidates, read, needle, list, row)
       <==> row in Filter(Sort(listed, NEWEST_FIRST), Holds(read, needle))
  {
    hide Sort, Filter, Corpus, Find, IsHydrated, DistinctMids;
    SortMember(listed, NEWEST_FIRST, row);
    FilterMembers(Sort(listed, NEWEST_FIRST), Holds(read, needle));
    if read(row).Ok? {
      FindIsOccurs(read(row).value, needle);
    }
  }

  /**
    A candidate whose corpus row lies in the wanted list is hydrated exactly if over.db does not know
    it or knows it by a row of that list: over.db keeps one row per id here, and a fresher cross-post
    in another list hides the message.
   */
  lemma CandidateIsHydratedExactly(dir: seq<ParquetFile>, over: Over, candidates: set<Mid>, list: Option<Bytes>,
                                   row: MessageRow)
    requires OverOk(over) && row in Corpus(dir) && row.mid in candidates && (list.Some? ==> row.list == list.value)
    ensures (exists got: MessageRow :: got.mid == row.mid && IsHydrated(dir, over, candidates, list, got))
       <==> !InOver(over, row.mid) || list.None? || over.value[row.mid].list == list.value
  {
    hide Corpus;
    if !InOver(over, row.mid) {
      assert IsHydrated(dir, over, candidates, list, row);
    } else if list.None? || over.value[row.mid].list == list.value {
      assert IsHydrated(dir, over, candidates, list, over.value[row.mid]);
    }
  }

  lemma TakeNewest(all: seq<MessageRow>, limit: nat)
    requires Sorted(all, NEWEST_FIRST)
    ensures Sorted(Take(all, limit), NEWEST_FIRST)
    ensures forall row :: row in Take(all, limit) ==> row in all
    ensures forall row :: row in all && row !in Take(all, limit) ==>
      |Take(all, limit)| == limit && forall got :: got in Take(all, limit) ==> DateKey(got) >= DateKey(row)
  {
    var r := Take(all, limit);
    forall row, got | row in all && row !in r && got in r ensures DateKey(got) >= DateKey(row) {
      var j :| 0 <= j < |all| && all[j] == row;
      var i :| 0 <= i < |r| && r[i] == got;
      TakeHolds(all, limit, j);
      assert NEWEST_FIRST(all[i], all[j]);
    }
  }

  lemma {:induction false} FilterSorted<T(!new)>(s: seq<T>, p: T -> bool, le: (T, T) -> bool)
    requires Sorted(s, le)
    ensures Sorted(Filter(s, p), le)
    decreases |s|
  {
    if s != [] {
      var front, last := s[..|s| - 1], s[|s| - 1];
      FilterSorted(front, p, le);
      FilterMembers(front, p);
      forall x | x in Filter(front, p) ensures le(x, last) {
        var i :| 0 <= i < |front| && front[i] == x;
        assert le(s[i], s[|s| - 1]);
      }
    }
  }

  /** A patch that holds the needle makes its message a candidate, while the per-segment cap does not cut. */
  lemma PatchHolderIsCandidate(segs: seq<Seg>, needle: Bytes, i: nat, d: nat)
    requires i < |segs| && d < |segs[i].docs| == |segs[i].patches|
    requires Occurs(needle, segs[i].patches[d]) && (|needle| < 3 || QGram.Trigrams(needle) != {})
    requires |Trigram.Matching(segs[i].patches, needle)| <= Trigram.TRIGRAM_CONFIRM_LIMIT
    ensures segs[i].docs[d] in CandidateUnion(segs, needle)
  {
    hide Trigram.Matching, QGram.Trigrams;
    var docs, patches := segs[i].docs, segs[i].patches;
    if |needle| >= 3 {
      Trigram.ContainsImpliesMatching(patches, needle, d);
      ListingIsAscending(Trigram.Matching(patches, needle));
      var ids := Listing(Trigram.Matching(patches, needle));
      assert Take(ids, Trigram.TRIGRAM_CONFIRM_LIMIT) == ids;
      assert docs[d] in Trigram.Names(docs, ids);
    }
    assert docs[d] in Trigram.Candidates(docs, patches, needle, 0);
  }
}
