/** Which queries lose hits. */
module Dispatch {
  // Which tiers a query runs, how many rows each is asked for, and which filters its rows have passed
  // already; then the fusion, the cut to twice the limit, and the filters behind the cut.

  import opened Base
  import opened Sorting
  import opened Whitespace
  import opened Router

  type Matcher = (Bytes, Bytes) -> bool

  /** A parsed query; `text` is the free text as the BM25 tier gets it, `None` when there are no terms. */
  datatype Query = Query(text: Option<Bytes>, patch: Option<Bytes>, mid: Option<Bytes>, fixes: Option<Bytes>,
                         file: Option<Bytes>, func: Option<Bytes>, filters: Filters)

  const NO_FILTERS := Filters(None, None, None, None)

  // ----- The tiers ----------------------------------------------------------

  /**
    What a tier can return: at most `cap` rows, all of which pass `native`. With `undated` the dates
    in `native` do not keep undated rows out. A row is found by its id, or by what it says.
   */
  datatype Spec = Spec(name: string, cap: nat, native: Filters, undated: bool, id: Option<Bytes>, content: bool)

  /** A scan whose visitor stops at the limit returns one row even for limit 0. */
  function AtLeastOne(limit: nat): nat {
    if limit == 0 then 1 else limit
  }

  predicate MetadataRuns(q: Query) {
    || q.mid.Some? || q.file.Some? || q.func.Some? || q.filters.from.Some? || q.fixes.Some?
    || (q.text.None? && q.patch.None?)
  }

  /** `over`: the reader has an over.db that it trusts. */
  function Metadata(q: Query, limit: nat, over: bool): Spec {
    var f := q.filters;
    if !MetadataRuns(q) then Idle("metadata")
    else if q.mid.Some? then Spec("metadata", 1, NO_FILTERS, false, q.mid, false)
    else if q.fixes.Some? then Spec("metadata", AtLeastOne(limit), NO_FILTERS, false, q.fixes, true)
    else if q.file.Some? || q.func.Some? then Spec("metadata", AtLeastOne(limit), f.(from := None), false, None, true)
    else if f.from.Some? then Spec("metadata", AtLeastOne(limit), f, false, None, true)
    else if f != NO_FILTERS then
      Spec("metadata", Max(limit * 20, 10_000), f, !(over && f.list.Some?), None, true)
    else Idle("metadata")
  }

  function Max(a: nat, b: nat): nat {
    if a >= b then a else b
  }

  function Idle(name: string): Spec {
    Spec(name, 0, NO_FILTERS, false, None, true)
  }

  function Trigram(q: Query, limit: nat): Spec {
    if q.patch.None? || q.patch.value == [] then Idle("trigram")
    else Spec("trigram", limit, Filters(q.filters.list, None, None, None), false, None, true)
  }

  /**
    The index is searched within the list, but the rows are fetched by id afterwards, without a look
    at their list: a message cross-posted to the list may come back as its freshest copy in another.
   */
  function Bm25(q: Query, limit: nat): Spec {
    if q.text.None? || Squeeze(q.text.value) == [] then Idle("bm25")
    else Spec("bm25", limit * 2, NO_FILTERS, false, None, true)
  }

  function Specs(q: Query, limit: nat, over: bool): seq<Spec> {
    [Metadata(q, limit, over), Trigram(q, limit), Bm25(q, limit)]
  }

  predicate Accepts(f: Filters, fromMatches: Matcher, row: Row) {
    Wanted(f, fromMatches, Hit(row, 0.0, [], false))
  }

  predicate PassesNative(spec: Spec, fromMatches: Matcher, row: Row) {
    || Accepts(spec.native, fromMatches, row)
    || (spec.undated && row.date.None? && Accepts(spec.native.(since := None, until := None), fromMatches, row))
  }

  /** `about(tier, rest)`: a message with this content answers what the tier is asked. */
  predicate Finds(spec: Spec, about: (string, Bytes) -> bool, row: Row) {
    (spec.id.Some? && row.mid == spec.id.value) || (spec.content && about(spec.name, row.rest))
  }

  ghost predicate Returns(spec: Spec, fromMatches: Matcher, about: (string, Bytes) -> bool, rows: seq<Row>) {
    && |rows| <= spec.cap
    && forall i :: 0 <= i < |rows| ==> PassesNative(spec, fromMatches, rows[i]) && Finds(spec, about, rows[i])
  }

  ghost predicate Fills(spec: Spec, fromMatches: Matcher, about: (string, Bytes) -> bool, tier: Tier) {
    spec.name == tier.name && Returns(spec, fromMatches, about, tier.rows)
  }

  /** What the tiers of a query can return together, in any order of the tiers; a stale BM25 index is skipped. */
  ghost predicate CanReturn(q: Query, limit: nat, over: bool, fromMatches: Matcher, about: (string, Bytes) -> bool,
                            tiers: seq<Tier>) {
    && NamesDistinct(tiers)
    && forall i :: 0 <= i < |tiers| ==>
         || Fills(Metadata(q, limit, over), fromMatches, about, tiers[i])
         || Fills(Trigram(q, limit), fromMatches, about, tiers[i])
         || Fills(Bm25(q, limit), fromMatches, about, tiers[i])
  }

  // ----- The tail of dispatch -----------------------------------------------

  lemma {:induction false} FilterTwice<T(!new)>(s: seq<T>, p: T -> bool, q: T -> bool, both: T -> bool)
    requires forall x :: both(x) <==> p(x) && q(x)
    ensures Filter(Filter(s, p), q) == Filter(s, both)
    decreases |s|
  {
    if s != [] {
      var front, last := s[..|s| - 1], s[|s| - 1];
      FilterTwice(front, p, q, both);
      if p(last) {
        assert Filter(s, p) == Filter(front, p) + [last];
        FilterAppend(Filter(front, p), [last], q);
        FilterOne(last, q);
      } else {
        assert Filter(s, p) == Filter(front, p);
      }
    }
  }

  function Upto(f: Filters, n: nat): Filters {
    Filters(if n > 0 then f.list else None, if n > 1 then f.from else None, if n > 2 then f.since else None,
            if n > 3 then f.until else None)
  }

  /** `retain`. */
  function Keep(hits: seq<Hit>, f: Filters, fromMatches: Matcher): seq<Hit> {
    Filter(hits, WantedBy(f, fromMatches))
  }

  lemma KeepMore(ranked: seq<Hit>, a: Filters, b: Filters, both: Filters, fromMatches: Matcher)
    requires forall h :: Wanted(both, fromMatches, h) <==> Wanted(a, fromMatches, h) && Wanted(b, fromMatches, h)
    ensures Keep(Keep(ranked, a, fromMatches), b, fromMatches) == Keep(ranked, both, fromMatches)
  {
    hide Wanted;
    FilterTwice(ranked, WantedBy(a, fromMatches), WantedBy(b, fromMatches), WantedBy(both, fromMatches));
  }

  lemma KeepAll(ranked: seq<Hit>, fromMatches: Matcher)
    ensures Keep(ranked, NO_FILTERS, fromMatches) == ranked
  {
    FilterAll(ranked, WantedBy(NO_FILTERS, fromMatches));
  }

  lemma {:induction false} FilterAll<T>(s: seq<T>, p: T -> bool)
    requires forall x :: x in s ==> p(x)
    ensures Filter(s, p) == s
    decreases |s|
  {
    if s != [] {
      FilterAll(s[..|s| - 1], p);
    }
  }

  /** Fuse, cut to twice the limit, filter by one predicate after the other, cut to the limit. */
  method Finish(tiers: seq<Tier>, f: Filters, fromMatches: Matcher, limit: nat) returns (hits: seq<Hit>)
    requires NamesDistinct(tiers)
    ensures exists ranked :: IsFused(ranked, tiers) && hits == Dispatched(ranked, f, fromMatches, limit)
  {
    hide IsFused, Filter;
    var merged := RrfMerge(tiers, limit * 2);
    hits := merged;
    KeepAll(merged, fromMatches);
    if f.list.Some? {
      KeepMore(merged, NO_FILTERS, NO_FILTERS.(list := f.list), Upto(f, 1), fromMatches);
      hits := Keep(hits, NO_FILTERS.(list := f.list), fromMatches);
    }
    assert hits == Keep(merged, Upto(f, 1), fromMatches);
    if f.from.Some? {
      KeepMore(merged, Upto(f, 1), NO_FILTERS.(from := f.from), Upto(f, 2), fromMatches);
      hits := Keep(hits, NO_FILTERS.(from := f.from), fromMatches);
    }
    assert hits == Keep(merged, Upto(f, 2), fromMatches);
    if f.since.Some? {
      KeepMore(merged, Upto(f, 2), NO_FILTERS.(since := f.since), Upto(f, 3), fromMatches);
      hits := Keep(hits, NO_FILTERS.(since := f.since), fromMatches);
    }
    assert hits == Keep(merged, Upto(f, 3), fromMatches);
    if f.until.Some? {
      KeepMore(merged, Upto(f, 3), NO_FILTERS.(until := f.until), Upto(f, 4), fromMatches);
      hits := Keep(hits, NO_FILTERS.(until := f.until), fromMatches);
    }
    assert hits == Keep(merged, f, fromMatches);
    hits := Take(hits, limit);
  }

  // ----- Lossless queries ---------------------------------------------------

  ghost predicate LosslessOn(ranked: seq<Hit>, f: Filters, fromMatches: Matcher, limit: nat) {
    Dispatched(ranked, f, fromMatches, limit) == Best(ranked, f, fromMatches, limit)
  }

  /** The query returns the best wanted hits whatever its tiers find. */
  ghost predicate Lossless(q: Query, limit: nat, over: bool, fromMatches: Matcher, about: (string, Bytes) -> bool) {
    forall tiers, ranked :: CanReturn(q, limit, over, fromMatches, about, tiers) && IsFused(ranked, tiers) ==>
      LosslessOn(ranked, q.filters, fromMatches, limit)
  }

  /** The filters reject a message, and accept another. */
  predicate Discriminates(f: Filters) {
    f != NO_FILTERS && !(f.since.Some? && f.until.Some? && f.since.value >= f.until.value)
  }

  /** Every row the tier returns passes all filters of the query, without the router's help. */
  predicate Honours(spec: Spec, f: Filters) {
    spec.cap == 0 || (spec.native == f && !(spec.undated && (f.since.Some? || f.until.Some?)))
  }

  function Caps(q: Query, limit: nat, over: bool): nat {
    Metadata(q, limit, over).cap + Trigram(q, limit).cap + Bm25(q, limit).cap
  }

  predicate AllHonour(q: Query, limit: nat, over: bool) {
    && Honours(Metadata(q, limit, over), q.filters) && Honours(Trigram(q, limit), q.filters)
    && Honours(Bm25(q, limit), q.filters)
  }

  /** Besides BM25 a single tier runs, and its rows pass all filters. */
  predicate LonePartner(q: Query, limit: nat, over: bool) {
    var m, t := Metadata(q, limit, over), Trigram(q, limit);
    Honours(m, q.filters) && Honours(t, q.filters) && (m.cap == 0 || t.cap == 0)
  }

  /** What the router can check before it runs the query. */
  predicate IsSafe(q: Query, limit: nat, over: bool) {
    || limit == 0 || !Discriminates(q.filters)
    || Caps(q, limit, over) <= limit * 2
    || AllHonour(q, limit, over)
    || (limit == 1 && LonePartner(q, limit, over))
  }

  // ----- Safe queries lose nothing ------------------------------------------

  lemma DiscriminatesExactly(f: Filters, fromMatches: Matcher)
    requires !Discriminates(f)
    ensures (forall h :: Wanted(f, fromMatches, h)) || (forall h :: !Wanted(f, fromMatches, h))
  {
  }

  lemma UniformIsLossless(ranked: seq<Hit>, f: Filters, fromMatches: Matcher, limit: nat)
    requires limit == 0 || (forall h :: h in ranked ==> Wanted(f, fromMatches, h))
      || (forall h :: !Wanted(f, fromMatches, h))
    ensures LosslessOn(ranked, f, fromMatches, limit)
  {
    hide Wanted, Filter;
    CutThenFilterExactly(ranked, f, fromMatches, limit);
    if limit > 0 && forall h :: h in ranked ==> Wanted(f, fromMatches, h) {
      forall h | h in Take(ranked, limit * 2) ensures Wanted(f, fromMatches, h) {
        assert h in ranked;
      }
      FilterAll(Take(ranked, limit * 2), WantedBy(f, fromMatches));
    }
  }

  /** The ids a tier of this name returns. */
  function TierIds(tiers: seq<Tier>, name: string): set<Bytes> {
    set i, k | 0 <= i < |tiers| && tiers[i].name == name && 0 <= k < |tiers[i].rows| :: tiers[i].rows[k].mid
  }

  function RowIds(rows: seq<Row>): set<Bytes> {
    set k | 0 <= k < |rows| :: rows[k].mid
  }

  lemma {:induction false} RowIdsFit(rows: seq<Row>)
    ensures |RowIds(rows)| <= |rows|
    decreases |rows|
  {
    if rows != [] {
      var front, last := rows[..|rows| - 1], rows[|rows| - 1];
      RowIdsFit(front);
      assert RowIds(rows) == RowIds(front) + {last.mid} by {
        assert rows == front + [last];
      }
    }
  }

  lemma TierIdsFit(tiers: seq<Tier>, name: string, cap: nat)
    requires NamesDistinct(tiers)
    requires forall i :: 0 <= i < |tiers| && tiers[i].name == name ==> |tiers[i].rows| <= cap
    ensures |TierIds(tiers, name)| <= cap
  {
    if i :| 0 <= i < |tiers| && tiers[i].name == name {
      RowIdsFit(tiers[i].rows);
      assert TierIds(tiers, name) == RowIds(tiers[i].rows);
    } else {
      assert TierIds(tiers, name) == {};
    }
  }

  function SpecNamed(q: Query, limit: nat, over: bool, name: string): Spec {
    if name == "metadata" then Metadata(q, limit, over)
    else if name == "trigram" then Trigram(q, limit)
    else Bm25(q, limit)
  }

  /** Each tier returns what its own specification allows. */
  lemma TierReturns(q: Query, limit: nat, over: bool, fromMatches: Matcher, about: (string, Bytes) -> bool,
                    tiers: seq<Tier>, i: nat)
    requires CanReturn(q, limit, over, fromMatches, about, tiers) && i < |tiers|
    ensures tiers[i].name == "metadata" || tiers[i].name == "trigram" || tiers[i].name == "bm25"
    ensures Returns(SpecNamed(q, limit, over, tiers[i].name), fromMatches, about, tiers[i].rows)
  {
    hide Returns;
    SpecNames(q, limit, over);
  }

  lemma SpecNames(q: Query, limit: nat, over: bool)
    ensures Metadata(q, limit, over).name == "metadata" && Trigram(q, limit).name == "trigram"
    ensures Bm25(q, limit).name == "bm25"
  {
  }

  lemma HitIsFound(h: Hit, tiers: seq<Tier>) returns (i: nat, k: nat)
    requires HitOk(h, tiers)
    ensures i < |tiers| && k < |tiers[i].rows| && tiers[i].rows[k] == h.row
  {
    i :| i < |tiers| && h.row in tiers[i].rows;
    k :| k < |tiers[i].rows| && tiers[i].rows[k] == h.row;
  }

  lemma FusedFits(q: Query, limit: nat, over: bool, fromMatches: Matcher, about: (string, Bytes) -> bool,
                  tiers: seq<Tier>, ranked: seq<Hit>)
    requires CanReturn(q, limit, over, fromMatches, about, tiers) && IsFused(ranked, tiers)
    ensures Ids(ranked) <= TierIds(tiers, "metadata") + TierIds(tiers, "trigram") + TierIds(tiers, "bm25")
    ensures |TierIds(tiers, "metadata")| <= Metadata(q, limit, over).cap
    ensures |TierIds(tiers, "trigram")| <= Trigram(q, limit).cap
    ensures |TierIds(tiers, "bm25")| <= Bm25(q, limit).cap
    ensures |ranked| == |Ids(ranked)| <= Caps(q, limit, over)
  {
    hide HitOk, Metadata, Trigram, Bm25, CanReturn, Finds, PassesNative;
    var m, t, b := TierIds(tiers, "metadata"), TierIds(tiers, "trigram"), TierIds(tiers, "bm25");
    DistinctTiers(q, limit, over, fromMatches, about, tiers);
    forall i: nat | i < |tiers| ensures |tiers[i].rows| <= SpecNamed(q, limit, over, tiers[i].name).cap {
      TierReturns(q, limit, over, fromMatches, about, tiers, i);
    }
    TierIdsFit(tiers, "metadata", Metadata(q, limit, over).cap);
    TierIdsFit(tiers, "trigram", Trigram(q, limit).cap);
    TierIdsFit(tiers, "bm25", Bm25(q, limit).cap);
    forall h | h in ranked ensures h.row.mid in m + t + b {
      var i, k := HitIsFound(h, tiers);
      TierReturns(q, limit, over, fromMatches, about, tiers, i);
      assert tiers[i].rows[k].mid in TierIds(tiers, tiers[i].name);
    }
    IdsCount(ranked);
    SubsetSize(Ids(ranked), m + t + b);
    UnionFits(m, t);
    UnionFits(m + t, b);
  }

  lemma DistinctTiers(q: Query, limit: nat, over: bool, fromMatches: Matcher, about: (string, Bytes) -> bool,
                      tiers: seq<Tier>)
    requires CanReturn(q, limit, over, fromMatches, about, tiers)
    ensures NamesDistinct(tiers)
  {
  }

  lemma UnionFits<T>(a: set<T>, b: set<T>)
    ensures |a + b| <= |a| + |b|
  {
    assert a + b == a + (b - a);
    SubsetSize(b - a, b);
  }

  lemma HonestRow(spec: Spec, f: Filters, fromMatches: Matcher, row: Row)
    requires Honours(spec, f) && spec.cap > 0 && PassesNative(spec, fromMatches, row)
    ensures Accepts(f, fromMatches, row)
  {
  }

  lemma WantedIsAccepted(f: Filters, fromMatches: Matcher, h: Hit)
    ensures Wanted(f, fromMatches, h) <==> Accepts(f, fromMatches, h.row)
  {
  }

  /** Fewer ids than the cut keeps. */
  lemma FewIdsAreLossless(ranked: seq<Hit>, f: Filters, fromMatches: Matcher, limit: nat)
    requires |ranked| <= limit * 2
    ensures LosslessOn(ranked, f, fromMatches, limit)
  {
    CutThenFilterExactly(ranked, f, fromMatches, limit);
  }

  lemma AllHonourIsLossless(q: Query, limit: nat, over: bool, fromMatches: Matcher, about: (string, Bytes) -> bool,
                            tiers: seq<Tier>, ranked: seq<Hit>)
    requires AllHonour(q, limit, over) && CanReturn(q, limit, over, fromMatches, about, tiers) && IsFused(ranked, tiers)
    ensures LosslessOn(ranked, q.filters, fromMatches, limit)
  {
    hide HitOk, Metadata, Trigram, Bm25, CanReturn, Honours, PassesNative, Accepts, Wanted;
    forall h | h in ranked ensures Wanted(q.filters, fromMatches, h) {
      var i, k := HitIsFound(h, tiers);
      TierReturns(q, limit, over, fromMatches, about, tiers, i);
      HonestRow(SpecNamed(q, limit, over, tiers[i].name), q.filters, fromMatches, h.row);
      WantedIsAccepted(q.filters, fromMatches, h);
    }
    UniformIsLossless(ranked, q.filters, fromMatches, limit);
  }

  // ----- One partner, one hit -----------------------------------------------

  lemma {:induction false} TierScoreIsNoDebt(rows: seq<Row>, mid: Bytes)
    ensures TierScore(rows, mid) >= 0.0
    decreases |rows|
  {
    if rows != [] {
      TierScoreIsNoDebt(rows[..|rows| - 1], mid);
    }
  }

  lemma {:induction false} ScoreAtLeast(tiers: seq<Tier>, i: nat, mid: Bytes)
    requires i < |tiers|
    ensures Score(tiers, mid) >= TierScore(tiers[i].rows, mid)
    decreases |tiers|
  {
    var front, last := tiers[..|tiers| - 1], tiers[|tiers| - 1];
    TierScoreIsNoDebt(last.rows, mid);
    if i < |front| {
      ScoreAtLeast(front, i, mid);
    } else {
      ScoreIsNoDebt(front, mid);
    }
  }

  lemma {:induction false} ScoreIsNoDebt(tiers: seq<Tier>, mid: Bytes)
    ensures Score(tiers, mid) >= 0.0
    decreases |tiers|
  {
    if tiers != [] {
      ScoreIsNoDebt(tiers[..|tiers| - 1], mid);
      TierScoreIsNoDebt(tiers[|tiers| - 1].rows, mid);
    }
  }

  lemma {:induction false} ScoreOnly(tiers: seq<Tier>, i: nat, mid: Bytes)
    requires i < |tiers| && forall j :: 0 <= j < |tiers| && j != i ==> !Has(tiers[j].rows, mid)
    ensures Score(tiers, mid) == TierScore(tiers[i].rows, mid)
    decreases |tiers|
  {
    var front, last := tiers[..|tiers| - 1], tiers[|tiers| - 1];
    if i < |front| {
      ScoreOnly(front, i, mid);
      NoTierScore(last.rows, mid);
    } else {
      NoScore(front, mid);
    }
  }

  ghost predicate DistinctIds(rows: seq<Row>) {
    forall i, j :: 0 <= i < j < |rows| ==> rows[i].mid != rows[j].mid
  }

  lemma {:induction false} LoneScore(rows: seq<Row>, i: nat)
    requires DistinctIds(rows) && i < |rows|
    ensures TierScore(rows, rows[i].mid) == Contribution(i)
    decreases |rows|
  {
    var front := rows[..|rows| - 1];
    if i < |rows| - 1 {
      LoneScore(front, i);
    } else {
      NoTierScore(front, rows[i].mid);
      ContributionIs(i);
    }
  }

  lemma ContributionFalls(i: nat, j: nat)
    requires i <= j
    ensures Contribution(i) >= Contribution(j) > 0.0
    ensures i < j ==> Contribution(i) > Contribution(j)
  {
    var a, b := RRF_K + i as real + 1.0, RRF_K + j as real + 1.0;
    assert 1.0 / a - 1.0 / b == (b - a) / (a * b);
  }

  lemma PartnerCaps(q: Query, limit: nat, over: bool)
    requires limit == 1 && LonePartner(q, limit, over) && !AllHonour(q, limit, over)
    ensures Metadata(q, limit, over).cap + Trigram(q, limit).cap <= 1 && Bm25(q, limit).cap == 2
  {
  }

  /** Three ids came out: the partner's tier `i` gave one of them, BM25's tier `j` the other two. */
  ghost predicate OneAndTwo(tiers: seq<Tier>, i: nat, j: nat) {
    && i < |tiers| && j < |tiers| && i != j
    && |tiers[i].rows| == 1 && |tiers[j].rows| == 2 && DistinctIds(tiers[j].rows)
    && !Has(tiers[j].rows, tiers[i].rows[0].mid)
    && forall n :: 0 <= n < |tiers| && n != i && n != j ==> tiers[n].rows == []
  }

  lemma OneAndTwoIds<T>(r: set<T>, p: set<T>, b: set<T>)
    requires r <= p + b && |r| > 2 && |p| <= 1 && |b| <= 2
    ensures |r| == 3 && |p| == 1 && |b| == 2 && p !! b
  {
    SubsetSize(r, p + b);
    assert p + b == (p - b) + b;
    SubsetSize(p - b, p);
    assert p == (p - b) + (p * b);
    assert |p * b| == 0;
  }

  /** The rows of the tiers that are not among the two are none. */
  lemma OthersAreIdle(q: Query, limit: nat, over: bool, fromMatches: Matcher, about: (string, Bytes) -> bool,
                      tiers: seq<Tier>, i: nat, j: nat, n: nat)
    requires Metadata(q, limit, over).cap + Trigram(q, limit).cap <= 1
    requires CanReturn(q, limit, over, fromMatches, about, tiers) && i < |tiers| && j < |tiers| && n < |tiers|
    requires tiers[i].name != "bm25" && tiers[i].rows != [] && tiers[j].name == "bm25" && n != i && n != j
    ensures tiers[n].rows == []
  {
    hide Metadata, Trigram, Bm25, PassesNative, Finds;
    TierReturns(q, limit, over, fromMatches, about, tiers, i);
    TierReturns(q, limit, over, fromMatches, about, tiers, n);
    assert tiers[n].name != tiers[i].name && tiers[n].name != tiers[j].name;
  }

  lemma TierWithId(tiers: seq<Tier>, name: string, x: Bytes) returns (i: nat)
    requires x in TierIds(tiers, name)
    ensures i < |tiers| && tiers[i].name == name && Has(tiers[i].rows, x)
  {
    var n: nat, k: nat :| n < |tiers| && tiers[n].name == name && k < |tiers[n].rows| && tiers[n].rows[k].mid == x;
    i := n;
  }

  lemma PartnerTiers(q: Query, limit: nat, over: bool, fromMatches: Matcher, about: (string, Bytes) -> bool,
                     tiers: seq<Tier>, ranked: seq<Hit>) returns (i: nat, j: nat)
    requires limit == 1 && LonePartner(q, limit, over) && !AllHonour(q, limit, over)
    requires CanReturn(q, limit, over, fromMatches, about, tiers) && IsFused(ranked, tiers) && |ranked| > 2
    ensures OneAndTwo(tiers, i, j) && |ranked| == 3
    ensures Accepts(q.filters, fromMatches, tiers[i].rows[0])
  {
    hide Metadata, Trigram, Bm25, CanReturn, Honours, PassesNative;
    hide Accepts, Finds, IsFused, RowIds, DistinctIds, TierIds, Has;
    FusedFits(q, limit, over, fromMatches, about, tiers, ranked);
    PartnerCaps(q, limit, over);
    var p, b := TierIds(tiers, "metadata") + TierIds(tiers, "trigram"), TierIds(tiers, "bm25");
    UnionFits(TierIds(tiers, "metadata"), TierIds(tiers, "trigram"));
    OneAndTwoIds(Ids(ranked), p, b);
    var x :| x in p;
    i := TierWithId(tiers, if x in TierIds(tiers, "metadata") then "metadata" else "trigram", x);
    var z :| z in b;
    j := TierWithId(tiers, "bm25", z);
    TierReturns(q, limit, over, fromMatches, about, tiers, i);
    TierReturns(q, limit, over, fromMatches, about, tiers, j);
    HasAlone(tiers[i].rows, x);
    forall n: nat | n < |tiers| && n != i && n != j ensures tiers[n].rows == [] {
      OthersAreIdle(q, limit, over, fromMatches, about, tiers, i, j, n);
    }
    DistinctTiers(q, limit, over, fromMatches, about, tiers);
    BmRows(tiers, j, x);
    HonestRow(SpecNamed(q, limit, over, tiers[i].name), q.filters, fromMatches, tiers[i].rows[0]);
  }

  lemma BmRows(tiers: seq<Tier>, j: nat, x: Bytes)
    requires NamesDistinct(tiers) && j < |tiers| && |tiers[j].rows| <= 2
    requires |TierIds(tiers, tiers[j].name)| == 2 && x !in TierIds(tiers, tiers[j].name)
    ensures |tiers[j].rows| == 2 && DistinctIds(tiers[j].rows) && !Has(tiers[j].rows, x)
  {
    OneTierIds(tiers, j);
    RowIdsFit(tiers[j].rows);
    TwoIds(tiers[j].rows);
    HasIsRowId(tiers[j].rows, x);
  }

  lemma HasAlone(rows: seq<Row>, x: Bytes)
    requires Has(rows, x) && |rows| <= 1
    ensures |rows| == 1 && rows[0].mid == x
  {
  }

  lemma OneTierIds(tiers: seq<Tier>, j: nat)
    requires NamesDistinct(tiers) && j < |tiers|
    ensures TierIds(tiers, tiers[j].name) == RowIds(tiers[j].rows)
  {
  }

  lemma HasIsRowId(rows: seq<Row>, x: Bytes)
    ensures Has(rows, x) <==> x in RowIds(rows)
  {
  }

  lemma TwoIds(rows: seq<Row>)
    requires |rows| == 2
    ensures DistinctIds(rows) <==> |RowIds(rows)| == 2
  {
    assert RowIds(rows) == {rows[0].mid, rows[1].mid};
  }

  lemma PartnerScores(tiers: seq<Tier>, i: nat, j: nat)
    requires OneAndTwo(tiers, i, j)
    ensures Score(tiers, tiers[i].rows[0].mid) > Score(tiers, tiers[j].rows[1].mid)
    ensures Router.Occurs(tiers, tiers[i].rows[0].mid) && Router.Occurs(tiers, tiers[j].rows[1].mid)
  {
    hide Score, TierScore, Contribution;
    var x, w := tiers[i].rows[0].mid, tiers[j].rows[1].mid;
    assert Has(tiers[i].rows, x) && Has(tiers[j].rows, w);
    ScoreOnly(tiers, i, x);
    LoneScore(tiers[i].rows, 0);
    ScoreOnly(tiers, j, w);
    LoneScore(tiers[j].rows, 1);
    ContributionFalls(0, 1);
  }

  lemma PartnerRows(tiers: seq<Tier>, i: nat, j: nat, h: Hit)
    requires OneAndTwo(tiers, i, j) && HitOk(h, tiers) && h.row.mid == tiers[i].rows[0].mid
    ensures h.row == tiers[i].rows[0]
  {
    var n, k := HitIsFound(h, tiers);
    assert Has(tiers[n].rows, h.row.mid);
  }

  lemma HitScore(h: Hit, tiers: seq<Tier>)
    requires HitOk(h, tiers)
    ensures h.score == Score(tiers, h.row.mid)
  {
  }

  /** The partner's hit outranks BM25's second one. */
  lemma PartnerIsKept(tiers: seq<Tier>, ranked: seq<Hit>, i: nat, j: nat) returns (h: Hit)
    requires OneAndTwo(tiers, i, j) && IsFused(ranked, tiers) && |ranked| == 3
    ensures h in Take(ranked, 2) && h.row == tiers[i].rows[0]
  {
    hide Score, HitOk, Router.Occurs, DistinctIds, Has;
    PartnerScores(tiers, i, j);
    var x, w := tiers[i].rows[0].mid, tiers[j].rows[1].mid;
    h :| h in ranked && h.row.mid == x;
    var hw :| hw in ranked && hw.row.mid == w;
    var px: nat :| px < |ranked| && ranked[px] == h;
    var pw: nat :| pw < |ranked| && ranked[pw] == hw;
    HitScore(h, tiers);
    HitScore(hw, tiers);
    assert px < pw;
    assert Take(ranked, 2)[px] == h;
    PartnerRows(tiers, i, j, h);
  }

  lemma LonePartnerIsLossless(q: Query, limit: nat, over: bool, fromMatches: Matcher, about: (string, Bytes) -> bool,
                              tiers: seq<Tier>, ranked: seq<Hit>)
    requires limit == 1 && LonePartner(q, limit, over) && !AllHonour(q, limit, over)
    requires CanReturn(q, limit, over, fromMatches, about, tiers) && IsFused(ranked, tiers)
    ensures LosslessOn(ranked, q.filters, fromMatches, limit)
  {
    hide CanReturn, AllHonour, LonePartner, Accepts, Wanted, IsFused, OneAndTwo, Filter;
    if |ranked| <= 2 {
      FewIdsAreLossless(ranked, q.filters, fromMatches, limit);
    } else {
      var i, j := PartnerTiers(q, limit, over, fromMatches, about, tiers, ranked);
      var h := PartnerIsKept(tiers, ranked, i, j);
      WantedIsAccepted(q.filters, fromMatches, h);
      CutThenFilterExactly(ranked, q.filters, fromMatches, limit);
      FilterMembers(Take(ranked, 2), WantedBy(q.filters, fromMatches));
      NoMembers(Filter(Take(ranked, 2), WantedBy(q.filters, fromMatches)));
    }
  }

  lemma SafeIsLossless(q: Query, limit: nat, over: bool, fromMatches: Matcher, about: (string, Bytes) -> bool,
                       tiers: seq<Tier>, ranked: seq<Hit>)
    requires IsSafe(q, limit, over) && CanReturn(q, limit, over, fromMatches, about, tiers) && IsFused(ranked, tiers)
    ensures LosslessOn(ranked, q.filters, fromMatches, limit)
  {
    hide CanReturn, AllHonour, LonePartner, Wanted, IsFused, Discriminates, Caps, LosslessOn;
    var f := q.filters;
    if limit == 0 {
      UniformIsLossless(ranked, f, fromMatches, limit);
    } else if !Discriminates(f) {
      DiscriminatesExactly(f, fromMatches);
      UniformIsLossless(ranked, f, fromMatches, limit);
    } else if Caps(q, limit, over) <= limit * 2 {
      FusedFits(q, limit, over, fromMatches, about, tiers, ranked);
      FewIdsAreLossless(ranked, f, fromMatches, limit);
    } else if AllHonour(q, limit, over) {
      AllHonourIsLossless(q, limit, over, fromMatches, about, tiers, ranked);
    } else {
      LonePartnerIsLossless(q, limit, over, fromMatches, about, tiers, ranked);
    }
  }

  // ----- Rows for the witnesses ---------------------------------------------

  /** Every text contains itself, and every tier has messages that answer it. */
  ghost predicate Answerable(f: Filters, fromMatches: Matcher, about: (string, Bytes) -> bool) {
    && (f.from.Some? ==> fromMatches(f.from.value, f.from.value))
    && forall name :: HasMessage(about, name)
  }

  ghost predicate HasMessage(about: (string, Bytes) -> bool, name: string) {
    exists rest :: about(name, rest)
  }

  /** A row that passes all filters. */
  function Good(f: Filters, mid: Bytes, rest: Bytes): Row {
    Row(mid, if f.list.Some? then f.list.value else [], if f.from.Some? then f.from else Some([]),
        Some(if f.since.Some? then f.since.value else if f.until.Some? then f.until.value - 1 else 0), rest)
  }

  /** A row that passes the filters in `native` and none of the others. */
  function Odd(f: Filters, native: Filters, mid: Bytes, rest: Bytes): Row {
    var good := Good(f, mid, rest);
    Row(mid, if native.list.Some? then good.list else good.list + [0], if native.from.Some? then good.from else None,
        if native.since.Some? || native.until.Some? then good.date else None, rest)
  }

  /** `native` is `f` without some of its list, author and date filters. */
  ghost predicate IsPart(native: Filters, f: Filters) {
    && (native.list == f.list || native.list == None) && (native.from == f.from || native.from == None)
    && ((native.since == f.since && native.until == f.until) || (native.since == None && native.until == None))
  }

  lemma GoodPasses(f: Filters, native: Filters, fromMatches: Matcher, mid: Bytes, rest: Bytes)
    requires Discriminates(f) && IsPart(native, f) && (f.from.Some? ==> fromMatches(f.from.value, f.from.value))
    ensures Accepts(f, fromMatches, Good(f, mid, rest)) && Accepts(native, fromMatches, Good(f, mid, rest))
  {
  }

  lemma OddPasses(f: Filters, native: Filters, fromMatches: Matcher, mid: Bytes, rest: Bytes)
    requires Discriminates(f) && IsPart(native, f) && (f.from.Some? ==> fromMatches(f.from.value, f.from.value))
    ensures Accepts(native, fromMatches, Odd(f, native, mid, rest))
    ensures native != f ==> !Accepts(f, fromMatches, Odd(f, native, mid, rest))
  {
  }

  // ----- Fused lists for the witnesses --------------------------------------

  /** What fusion makes of one tier with different ids. */
  function OneTier(name: string, rows: seq<Row>): (hits: seq<Hit>)
    ensures |hits| == |rows|
  {
    var exact := name == "metadata" || name == "trigram";
    seq(|rows|, i requires 0 <= i < |rows| => Hit(rows[i], Contribution(i), [name], exact))
  }

  lemma LoneHit(name: string, rows: seq<Row>, i: nat)
    requires DistinctIds(rows) && i < |rows|
    ensures HitOk(OneTier(name, rows)[i], [Tier(name, rows)])
  {
    hide TierScore, Contribution;
    var tiers, h := [Tier(name, rows)], OneTier(name, rows)[i];
    LoneScore(rows, i);
    ScoreOnly(tiers, 0, h.row.mid);
    assert Has(tiers[0].rows, h.row.mid);
    assert TiersWith(tiers, h.row.mid) == {name};
    assert SetOf([name]) == {name};
    assert h.row in tiers[0].rows;
  }

  lemma OneTierIsFused(name: string, rows: seq<Row>)
    requires DistinctIds(rows)
    ensures IsFused(OneTier(name, rows), [Tier(name, rows)])
  {
    hide TierScore, Contribution;
    var tiers, hits := [Tier(name, rows)], OneTier(name, rows);
    forall i, j | 0 <= i < j < |hits| ensures hits[i].row.mid != hits[j].row.mid && hits[i].score >= hits[j].score {
      ContributionFalls(i, j);
    }
    forall i | 0 <= i < |hits| ensures HitOk(hits[i], tiers) {
      LoneHit(name, rows, i);
    }
    forall mid ensures Router.Occurs(tiers, mid) <==> exists h :: h in hits && h.row.mid == mid {
      if i :| 0 <= i < |rows| && rows[i].mid == mid {
        assert hits[i] in hits;
        assert Has(tiers[0].rows, mid);
      }
    }
  }

  /** A hit of one tier stays what it is beside a tier without its id. */
  lemma HitStays(h: Hit, a: Tier, b: Tier, tiers: seq<Tier>)
    requires HitOk(h, [a]) && !Has(b.rows, h.row.mid) && (tiers == [a, b] || tiers == [b, a])
    ensures HitOk(h, tiers)
  {
    hide TierScore, Contribution;
    var mid := h.row.mid;
    var n, k := HitIsFound(h, [a]);
    var i := if tiers[0] == a then 0 else 1;
    assert Has(a.rows, mid);
    ScoreOnly([a], 0, mid);
    ScoreOnly(tiers, i, mid);
    assert TiersWith([a], mid) == {a.name};
    assert TiersWith(tiers, mid) == {a.name};
    assert h.row in tiers[i].rows;
  }

  /** A single row fused with a tier that does not have its id. */
  lemma BesideIsFused(name: string, row: Row, rows: seq<Row>)
    requires DistinctIds([row] + rows)
    ensures IsFused(OneTier(name, [row]) + OneTier("bm25", rows), [Tier(name, [row]), Tier("bm25", rows)])
  {
    hide Contribution, HitOk;
    var a, b := Tier(name, [row]), Tier("bm25", rows);
    var hits := OneTier(name, [row]) + OneTier("bm25", rows);
    assert ([row] + rows)[0] == row;
    forall i | 0 <= i < |rows| ensures rows[i].mid != row.mid {
      assert ([row] + rows)[i + 1] == rows[i];
    }
    assert DistinctIds(rows) by {
      forall i, j | 0 <= i < j < |rows| ensures rows[i].mid != rows[j].mid {
        assert ([row] + rows)[i + 1] == rows[i] && ([row] + rows)[j + 1] == rows[j];
      }
    }
    forall i | 0 <= i < |hits| ensures HitOk(hits[i], [a, b]) {
      if i == 0 {
        LoneHit(name, [row], 0);
        HitStays(hits[0], a, b, [a, b]);
      } else {
        LoneHit("bm25", rows, i - 1);
        HitStays(hits[i], b, a, [a, b]);
      }
    }
    forall i, j | 0 <= i < j < |hits| ensures hits[i].row.mid != hits[j].row.mid && hits[i].score >= hits[j].score {
      ContributionFalls(if i == 0 then 0 else i - 1, j - 1);
    }
    forall mid ensures Router.Occurs([a, b], mid) <==> exists h :: h in hits && h.row.mid == mid {
      OccursBeside(a, b, mid);
      if mid == row.mid {
        assert hits[0] in hits;
      } else if i :| 0 <= i < |rows| && rows[i].mid == mid {
        assert hits[i + 1] in hits;
      }
    }
  }

  lemma OccursBeside(a: Tier, b: Tier, mid: Bytes)
    ensures Router.Occurs([a, b], mid) <==> Has(a.rows, mid) || Has(b.rows, mid)
  {
    assert [a, b][0] == a && [a, b][1] == b;
  }

  // ----- Every other query can lose a hit -----------------------------------

  /** The row with an id of its own. */
  function Numbered(row: Row, n: nat): (r: Row)
    ensures |r.mid| == n
  {
    row.(mid := Ones(n))
  }

  /** `n` copies of one message in front of another, with ids longer than `from`. */
  function Buried(n: nat, above: Row, below: Row, from: nat): (rows: seq<Row>)
    ensures |rows| == n + 1
    ensures forall i :: 0 <= i <= n ==> rows[i] == Numbered(if i < n then above else below, from + i)
  {
    seq(n + 1, i requires 0 <= i <= n => Numbered(if i < n then above else below, from + i))
  }

  lemma BuriedIds(n: nat, above: Row, below: Row, from: nat, first: Row)
    requires |first.mid| < from
    ensures DistinctIds(Buried(n, above, below, from)) && DistinctIds([first] + Buried(n, above, below, from))
  {
    var rows := Buried(n, above, below, from);
    var all := [first] + rows;
    forall i, j | 0 <= i < j < |rows| ensures rows[i].mid != rows[j].mid {
      assert |rows[i].mid| == from + i && |rows[j].mid| == from + j;
    }
    forall i, j | 0 <= i < j < |all| ensures all[i].mid != all[j].mid {
      assert |rows[j - 1].mid| == from + j - 1;
      assert i > 0 ==> all[i] == rows[i - 1];
    }
  }

  /** The cut keeps fewer wanted hits than the limit, and drops one. */
  lemma CutLoses(ranked: seq<Hit>, f: Filters, fromMatches: Matcher, limit: nat, first: seq<Hit>, rest: seq<Hit>)
    requires |first| + |rest| == limit * 2 < |ranked| && |first| < limit
    requires ranked[..limit * 2] == first + rest
    requires forall h :: h in rest ==> !Wanted(f, fromMatches, h)
    requires Wanted(f, fromMatches, ranked[limit * 2])
    ensures !LosslessOn(ranked, f, fromMatches, limit)
  {
    hide Wanted, Filter;
    var p := WantedBy(f, fromMatches);
    CutThenFilterExactly(ranked, f, fromMatches, limit);
    FilterAppend(first, rest, p);
    FilterMembers(rest, p);
    NoMembers(Filter(rest, p));
    FilterShrinks(first, p);
    assert Take(ranked, limit * 2) == first + rest;
  }

  lemma {:induction false} FilterShrinks<T>(s: seq<T>, p: T -> bool)
    ensures |Filter(s, p)| <= |s|
    decreases |s|
  {
    if s != [] {
      FilterShrinks(s[..|s| - 1], p);
    }
  }

  lemma BesideLoses(f: Filters, fromMatches: Matcher, limit: nat, name: string, row: Row, above: Row, below: Row,
                    from: nat)
    requires limit > 0 && (limit >= 2 || !Accepts(f, fromMatches, row))
    requires !Accepts(f, fromMatches, above) && Accepts(f, fromMatches, below)
    ensures var many := OneTier("bm25", Buried(limit * 2 - 1, above, below, from));
      !LosslessOn(OneTier(name, [row]) + many, f, fromMatches, limit)
  {
    hide Contribution, LosslessOn;
    var rows := Buried(limit * 2 - 1, above, below, from);
    var one, many := OneTier(name, [row]), OneTier("bm25", rows);
    var ranked := one + many;
    var front := many[..limit * 2 - 1];
    forall h | h in front ensures !Wanted(f, fromMatches, h) {
      var i :| 0 <= i < |front| && front[i] == h;
      assert h.row == rows[i];
    }
    assert ranked[limit * 2].row == rows[limit * 2 - 1];
    if Accepts(f, fromMatches, row) {
      assert ranked[..limit * 2] == one + front;
      CutLoses(ranked, f, fromMatches, limit, one, front);
    } else {
      forall h | h in one + front ensures !Wanted(f, fromMatches, h) {
        assert h in one ==> h.row == row;
      }
      assert ranked[..limit * 2] == [] + (one + front);
      CutLoses(ranked, f, fromMatches, limit, [], one + front);
    }
  }

  lemma NativeIsPart(q: Query, limit: nat, over: bool, spec: Spec)
    requires spec in Specs(q, limit, over)
    ensures IsPart(spec.native, q.filters)
  {
  }

  /** BM25 beside a tier that may return `row`. */
  lemma PartnerLoses(q: Query, limit: nat, over: bool, fromMatches: Matcher, about: (string, Bytes) -> bool,
                     spec: Spec, row: Row)
    requires Discriminates(q.filters) && Answerable(q.filters, fromMatches, about)
    requires limit > 0 && Bm25(q, limit).cap == limit * 2
    requires spec in Specs(q, limit, over) && spec.name != "bm25" && spec.cap > 0
    requires PassesNative(spec, fromMatches, row) && Finds(spec, about, row)
    requires limit >= 2 || !Accepts(q.filters, fromMatches, row)
    ensures !Lossless(q, limit, over, fromMatches, about)
  {
    hide Discriminates, Metadata, Trigram, PassesNative, LosslessOn, Contribution, IsFused, Accepts;
    var f := q.filters;
    assert HasMessage(about, "bm25");
    var rest :| about("bm25", rest);
    var above, below, from := Odd(f, NO_FILTERS, [], rest), Good(f, [], rest), |row.mid| + 1;
    var rows := Buried(limit * 2 - 1, above, below, from);
    var tiers := [Tier(spec.name, [row]), Tier("bm25", rows)];
    RejectedAndAccepted(f, fromMatches, rest);
    BuriedIds(limit * 2 - 1, above, below, from, row);
    BesideIsFused(spec.name, row, rows);
    BesideLoses(f, fromMatches, limit, spec.name, row, above, below, from);
    BuriedReturns(q, limit, fromMatches, about, rows, rest);
    assert Returns(spec, fromMatches, about, tiers[0].rows)
      && Returns(Bm25(q, limit), fromMatches, about, tiers[1].rows);
    assert Bm25(q, limit) in Specs(q, limit, over);
    assert CanReturn(q, limit, over, fromMatches, about, tiers);
  }

  lemma RejectedAndAccepted(f: Filters, fromMatches: Matcher, rest: Bytes)
    requires Discriminates(f) && (f.from.Some? ==> fromMatches(f.from.value, f.from.value))
    ensures !Accepts(f, fromMatches, Odd(f, NO_FILTERS, [], rest)) && Accepts(f, fromMatches, Good(f, [], rest))
  {
    OddPasses(f, NO_FILTERS, fromMatches, [], rest);
    GoodPasses(f, NO_FILTERS, fromMatches, [], rest);
  }

  lemma BuriedReturns(q: Query, limit: nat, fromMatches: Matcher, about: (string, Bytes) -> bool, rows: seq<Row>,
                      rest: Bytes)
    requires Bm25(q, limit).cap == limit * 2 > 0 && |rows| <= limit * 2 && about("bm25", rest)
    requires forall i :: 0 <= i < |rows| ==> rows[i].rest == rest
    ensures Returns(Bm25(q, limit), fromMatches, about, rows) && Bm25(q, limit).name == "bm25"
  {
  }

  /** A row the tier can return: one that fails the query's filters if the tier lets it, else a wanted one. */
  lemma PartnerRow(q: Query, limit: nat, over: bool, fromMatches: Matcher, about: (string, Bytes) -> bool, spec: Spec)
    returns (row: Row)
    requires Discriminates(q.filters) && Answerable(q.filters, fromMatches, about)
    requires spec in Specs(q, limit, over) && spec.cap > 0
    ensures PassesNative(spec, fromMatches, row) && Finds(spec, about, row)
    ensures spec.native != q.filters ==> !Accepts(q.filters, fromMatches, row)
  {
    hide Metadata, Trigram, Bm25, Discriminates, Accepts;
    NativeIsPart(q, limit, over, spec);
    IdOrContent(q, limit, over, spec);
    var mid := if spec.id.Some? then spec.id.value else [];
    assert HasMessage(about, spec.name);
    var rest :| about(spec.name, rest);
    row := Odd(q.filters, spec.native, mid, rest);
    OddPasses(q.filters, spec.native, fromMatches, mid, rest);
  }

  lemma IdOrContent(q: Query, limit: nat, over: bool, spec: Spec)
    requires spec in Specs(q, limit, over)
    ensures spec.id.Some? || spec.content
  {
  }

  lemma UndatedRows(spec: Spec, f: Filters, fromMatches: Matcher, rest: Bytes)
    requires Discriminates(f) && (f.from.Some? ==> fromMatches(f.from.value, f.from.value))
    requires spec.native == f && spec.undated && (f.since.Some? || f.until.Some?)
    ensures var below := Good(f, [], rest);
      && Accepts(f, fromMatches, below) && PassesNative(spec, fromMatches, below)
      && !Accepts(f, fromMatches, below.(date := None)) && PassesNative(spec, fromMatches, below.(date := None))
  {
  }

  lemma NewIdSameFilters(spec: Spec, f: Filters, fromMatches: Matcher, row: Row, n: nat)
    ensures Accepts(f, fromMatches, Numbered(row, n)) <==> Accepts(f, fromMatches, row)
    ensures PassesNative(spec, fromMatches, Numbered(row, n)) <==> PassesNative(spec, fromMatches, row)
  {
  }

  lemma CrowdedOut(f: Filters, fromMatches: Matcher, limit: nat, name: string, above: Row, below: Row)
    requires limit > 0 && !Accepts(f, fromMatches, above) && Accepts(f, fromMatches, below)
    ensures !LosslessOn(OneTier(name, Buried(limit * 2, above, below, 1)), f, fromMatches, limit)
  {
    hide LosslessOn, Contribution;
    var rows := Buried(limit * 2, above, below, 1);
    var ranked := OneTier(name, rows);
    forall h | h in ranked[..limit * 2] ensures !Wanted(f, fromMatches, h) {
      var i :| 0 <= i < limit * 2 && ranked[i] == h;
      assert h.row == rows[i];
    }
    assert ranked[limit * 2].row == rows[limit * 2];
    assert ranked[..limit * 2] == [] + ranked[..limit * 2];
    CutLoses(ranked, f, fromMatches, limit, [], ranked[..limit * 2]);
  }

  lemma BuriedPass(spec: Spec, f: Filters, fromMatches: Matcher, about: (string, Bytes) -> bool, n: nat, above: Row,
                   below: Row)
    requires n < spec.cap && spec.content && about(spec.name, above.rest) && about(spec.name, below.rest)
    requires PassesNative(spec, fromMatches, above) && PassesNative(spec, fromMatches, below)
    ensures Returns(spec, fromMatches, about, Buried(n, above, below, 1))
  {
    hide PassesNative;
    var rows := Buried(n, above, below, 1);
    forall i | 0 <= i < |rows| ensures PassesNative(spec, fromMatches, rows[i]) && Finds(spec, about, rows[i]) {
      NewIdSameFilters(spec, f, fromMatches, if i < n then above else below, i + 1);
    }
  }

  /** A query by dates alone, scanned in Parquet: undated rows crowd out a wanted one. */
  lemma UndatedLoses(q: Query, limit: nat, over: bool, fromMatches: Matcher, about: (string, Bytes) -> bool)
    requires Discriminates(q.filters) && Answerable(q.filters, fromMatches, about) && limit > 0
    requires var m := Metadata(q, limit, over);
      m.cap > limit * 2 && m.native == q.filters && m.undated && m.id == None && m.content
    requires q.filters.since.Some? || q.filters.until.Some?
    ensures !Lossless(q, limit, over, fromMatches, about)
  {
    hide Discriminates, Metadata, LosslessOn, Contribution, IsFused;
    hide Accepts, Wanted, PassesNative, Returns, DistinctIds;
    var f, spec := q.filters, Metadata(q, limit, over);
    SpecNames(q, limit, over);
    assert HasMessage(about, "metadata");
    var rest :| about("metadata", rest);
    var below := Good(f, [], rest);
    var above := below.(date := None);
    UndatedRows(spec, f, fromMatches, rest);
    var rows := Buried(limit * 2, above, below, 1);
    BuriedIds(limit * 2, above, below, 1, below);
    OneTierIsFused("metadata", rows);
    CrowdedOut(f, fromMatches, limit, "metadata", above, below);
    BuriedPass(spec, f, fromMatches, about, limit * 2, above, below);
    var tiers := [Tier("metadata", rows)];
    assert spec in Specs(q, limit, over);
    assert CanReturn(q, limit, over, fromMatches, about, tiers);
  }

  // ----- Limit 1 with all three tiers ---------------------------------------

  lemma ThreeTiers(a: Tier, b: Tier, c: Tier, mid: Bytes)
    ensures Score([a, b, c], mid) == TierScore(a.rows, mid) + TierScore(b.rows, mid) + TierScore(c.rows, mid)
    ensures TiersWith([a, b, c], mid) ==
      (if Has(a.rows, mid) then {a.name} else {}) + (if Has(b.rows, mid) then {b.name} else {})
        + (if Has(c.rows, mid) then {c.name} else {})
    ensures Router.Occurs([a, b, c], mid) <==> Has(a.rows, mid) || Has(b.rows, mid) || Has(c.rows, mid)
  {
    hide Has, TierScore, Score, TiersWith, Router.Occurs;
    NoTier(mid);
    assert [a] == [] + [a] && [a, b] == [a] + [b] && [a, b, c] == [a, b] + [c];
    ScoreAppend([], a, mid);
    ScoreAppend([a], b, mid);
    ScoreAppend([a, b], c, mid);
    WithAppend([], a, mid);
    WithAppend([a], b, mid);
    WithAppend([a, b], c, mid);
    OccursAppend([], a, mid);
    OccursAppend([a], b, mid);
    OccursAppend([a, b], c, mid);
  }

  lemma NoTier(mid: Bytes)
    ensures Score([], mid) == 0.0 && TiersWith([], mid) == {} && !Router.Occurs([], mid)
  {
  }

  lemma OneRow(row: Row, mid: Bytes)
    ensures Has([row], mid) <==> row.mid == mid
    ensures TierScore([row], mid) == if row.mid == mid then Contribution(0) else 0.0
  {
    if row.mid == mid {
      assert [row][0].mid == mid;
      LoneScore([row], 0);
    } else {
      NoTierScore([row], mid);
    }
  }

  lemma TwoRows(row: Row, second: Row, mid: Bytes)
    requires row.mid != second.mid
    ensures Has([row, second], mid) <==> row.mid == mid || second.mid == mid
    ensures TierScore([row, second], mid)
         == if row.mid == mid then Contribution(0) else if second.mid == mid then Contribution(1) else 0.0
  {
    var rows := [row, second];
    assert rows[0] == row && rows[1] == second;
    if row.mid == mid {
      LoneScore(rows, 0);
    } else if second.mid == mid {
      LoneScore(rows, 1);
    } else {
      NoTierScore(rows, mid);
    }
  }

  /** BM25's second row is another copy of the metadata tier's row; the copy that is kept is BM25's. */
  function Crowd(z: Row, w: Row, x: Row): seq<Hit> {
    [Hit(w, Contribution(0) + Contribution(1), ["bm25", "metadata"], true), Hit(z, Contribution(0), ["bm25"], false),
     Hit(x, Contribution(0), ["trigram"], true)]
  }

  lemma CrowdIsFused(z: Row, w: Row, m: Row, x: Row)
    requires z.mid != w.mid && z.mid != x.mid && w.mid != x.mid && m.mid == w.mid
    ensures IsFused(Crowd(z, w, x), [Tier("bm25", [z, w]), Tier("metadata", [m]), Tier("trigram", [x])])
  {
    hide Contribution, Score, TierScore, Has, TiersWith, Router.Occurs;
    var a, b, c := Tier("bm25", [z, w]), Tier("metadata", [m]), Tier("trigram", [x]);
    var tiers, hits := [a, b, c], Crowd(z, w, x);
    forall mid ensures Router.Occurs(tiers, mid) <==> mid == z.mid || mid == w.mid || mid == x.mid {
      ThreeTiers(a, b, c, mid);
      TwoRows(z, w, mid);
      OneRow(m, mid);
      OneRow(x, mid);
    }
    ContributionFalls(0, 1);
    assert hits[0].row == w && hits[1].row == z && hits[2].row == x;
    forall i | 0 <= i < 3 ensures HitOk(hits[i], tiers) {
      var mid := hits[i].row.mid;
      ThreeTiers(a, b, c, mid);
      TwoRows(z, w, mid);
      OneRow(m, mid);
      OneRow(x, mid);
      assert z in tiers[0].rows && w in tiers[0].rows && x in tiers[2].rows;
      assert SetOf(["bm25", "metadata"]) == {"bm25", "metadata"};
      assert SetOf(["bm25"]) == {"bm25"} && SetOf(["trigram"]) == {"trigram"};
    }
    forall mid ensures Router.Occurs(tiers, mid) <==> exists h :: h in hits && h.row.mid == mid {
      assert hits[0] in hits && hits[1] in hits && hits[2] in hits;
    }
  }

  /**
    With limit 1 and both other tiers running, honest as they are: BM25 returns an unwanted copy of the
    metadata tier's only message, which wins with the score of both, and pushes the wanted hit out.
   */
  lemma CrowdLoses(q: Query, limit: nat, over: bool, fromMatches: Matcher, about: (string, Bytes) -> bool)
    requires Discriminates(q.filters) && Answerable(q.filters, fromMatches, about)
    requires limit == 1 && Bm25(q, limit).cap == 2
    requires var m := Metadata(q, limit, over); m.cap > 0 && m.native == q.filters && m.id == None && m.content
    requires var t := Trigram(q, limit); t.cap > 0 && t.native == q.filters && t.content
    ensures !Lossless(q, limit, over, fromMatches, about)
  {
    hide Discriminates, Metadata, Trigram, Bm25, LosslessOn, IsFused, Accepts, Contribution;
    var f := q.filters;
    SpecNames(q, limit, over);
    assert HasMessage(about, "bm25") && HasMessage(about, "metadata") && HasMessage(about, "trigram");
    var rb, rm, rt :| about("bm25", rb) && about("metadata", rm) && about("trigram", rt);
    var z, w := Odd(f, NO_FILTERS, [1], rb), Odd(f, NO_FILTERS, [2], rb);
    var m, x := Good(f, [2], rm), Good(f, [3], rt);
    OddIsRejected(f, fromMatches, [1], rb);
    OddIsRejected(f, fromMatches, [2], rb);
    GoodPasses(f, f, fromMatches, [2], rm);
    GoodPasses(f, f, fromMatches, [3], rt);
    CrowdIsFused(z, w, m, x);
    var tiers, ranked := [Tier("bm25", [z, w]), Tier("metadata", [m]), Tier("trigram", [x])], Crowd(z, w, x);
    forall h | h in ranked[..2] ensures !Wanted(f, fromMatches, h) {
      WantedIsAccepted(f, fromMatches, h);
    }
    WantedIsAccepted(f, fromMatches, ranked[2]);
    assert ranked[..2] == [] + ranked[..2];
    CutLoses(ranked, f, fromMatches, limit, [], ranked[..2]);
    BuriedReturns(q, limit, fromMatches, about, [z, w], rb);
    assert Returns(Bm25(q, limit), fromMatches, about, tiers[0].rows);
    assert Returns(Metadata(q, limit, over), fromMatches, about, tiers[1].rows);
    assert Returns(Trigram(q, limit), fromMatches, about, tiers[2].rows);
    assert CanReturn(q, limit, over, fromMatches, about, tiers);
  }

  lemma OddIsRejected(f: Filters, fromMatches: Matcher, mid: Bytes, rest: Bytes)
    requires Discriminates(f) && (f.from.Some? ==> fromMatches(f.from.value, f.from.value))
    ensures !Accepts(f, fromMatches, Odd(f, NO_FILTERS, mid, rest))
  {
    OddPasses(f, NO_FILTERS, fromMatches, mid, rest);
  }

  // ----- The main result ----------------------------------------------------

  /** What an unsafe query looks like. */
  lemma UnsafeShape(q: Query, limit: nat, over: bool)
    requires !IsSafe(q, limit, over)
    ensures var m, t, b := Metadata(q, limit, over), Trigram(q, limit), Bm25(q, limit);
      && limit > 0 && Discriminates(q.filters)
      && (b.cap == 0 ==> m.cap > limit * 2 && m.undated && m.native == q.filters && m.id == None && m.content
                         && (q.filters.since.Some? || q.filters.until.Some?))
      && (b.cap > 0 ==> b.cap == limit * 2 && (m.cap > 0 || t.cap > 0) && !m.undated && !t.undated)
      && (m.native == q.filters ==> m.id == None && m.content) && t.content
  {
  }

  /**
    A query returns the best wanted hits whatever its tiers find exactly if its limit is 0, it has no
    filter or an empty date range, its tiers together return too few rows to be cut, every tier that
    runs filters by itself, or the limit is 1 and BM25 has only one partner, which does.
   */
  lemma QueryIsLosslessExactly(q: Query, limit: nat, over: bool, fromMatches: Matcher, about: (string, Bytes) -> bool)
    requires Answerable(q.filters, fromMatches, about)
    ensures Lossless(q, limit, over, fromMatches, about) <==> IsSafe(q, limit, over)
  {
    hide CanReturn, IsFused, LosslessOn, IsSafe, Discriminates, Metadata, Trigram, Bm25, Finds, PassesNative;
    if IsSafe(q, limit, over) {
      forall tiers, ranked | CanReturn(q, limit, over, fromMatches, about, tiers) && IsFused(ranked, tiers)
        ensures LosslessOn(ranked, q.filters, fromMatches, limit)
      {
        SafeIsLossless(q, limit, over, fromMatches, about, tiers, ranked);
      }
    } else {
      UnsafeLoses(q, limit, over, fromMatches, about);
    }
  }

  lemma UnsafeLoses(q: Query, limit: nat, over: bool, fromMatches: Matcher, about: (string, Bytes) -> bool)
    requires Answerable(q.filters, fromMatches, about) && !IsSafe(q, limit, over)
    ensures !Lossless(q, limit, over, fromMatches, about)
  {
    hide Lossless, Discriminates, Metadata, Trigram, Bm25, Finds, PassesNative, Accepts, Answerable;
    var f, m, t := q.filters, Metadata(q, limit, over), Trigram(q, limit);
    UnsafeShape(q, limit, over);
    SpecNames(q, limit, over);
    assert m in Specs(q, limit, over) && t in Specs(q, limit, over);
    if Bm25(q, limit).cap == 0 {
      UndatedLoses(q, limit, over, fromMatches, about);
    } else if m.cap > 0 && (m.native != f || limit >= 2) {
      var row := PartnerRow(q, limit, over, fromMatches, about, m);
      PartnerLoses(q, limit, over, fromMatches, about, m, row);
    } else if t.cap > 0 && (t.native != f || limit >= 2) {
      var row := PartnerRow(q, limit, over, fromMatches, about, t);
      PartnerLoses(q, limit, over, fromMatches, about, t, row);
    } else {
      CrowdLoses(q, limit, over, fromMatches, about);
    }
  }

  // ----- In terms of the query ----------------------------------------------

  predicate HasWords(q: Query) {
    q.text.Some? && Squeeze(q.text.value) != []
  }

  predicate HasPatch(q: Query) {
    q.patch.Some? && q.patch.value != []
  }

  /** The metadata tier is asked for something besides the list and the dates. */
  predicate Structured(q: Query) {
    q.mid.Some? || q.fixes.Some? || q.file.Some? || q.func.Some? || q.filters.from.Some?
  }

  /** The caps by what the query asks for. */
  lemma CapsInNumbers(q: Query, limit: nat, over: bool)
    requires limit > 0
    ensures Bm25(q, limit).cap == if HasWords(q) then 2 * limit else 0
    ensures Trigram(q, limit).cap == if HasPatch(q) then limit else 0
    ensures q.mid.Some? ==> Metadata(q, limit, over).cap == 1
    ensures q.mid.None? && Structured(q) ==> Metadata(q, limit, over).cap == limit
    ensures !Structured(q) && q.text.None? && q.patch.None? && q.filters != NO_FILTERS ==>
      Metadata(q, limit, over).cap == if limit >= 500 then 20 * limit else 10_000
    ensures !Structured(q) && (q.text.Some? || q.patch.Some? || q.filters == NO_FILTERS) ==>
      Metadata(q, limit, over).cap == 0
  {
  }

  /** The filters a tier's rows have passed before the router sees them. */
  lemma NativesByName(q: Query, limit: nat, over: bool)
    ensures HasPatch(q) ==> Trigram(q, limit).native == Filters(q.filters.list, None, None, None)
    ensures Bm25(q, limit).native == Filters(None, None, None, None)
    ensures q.mid.Some? || q.fixes.Some? ==> Metadata(q, limit, over).native == Filters(None, None, None, None)
    ensures q.mid.None? && q.fixes.None? && (q.file.Some? || q.func.Some?) ==>
      Metadata(q, limit, over).native == Filters(q.filters.list, None, q.filters.since, q.filters.until)
    ensures q.mid.None? && q.fixes.None? && q.file.None? && q.func.None? && q.filters.from.Some? ==>
      Metadata(q, limit, over).native == q.filters
    ensures Metadata(q, limit, over).undated ==> !Structured(q) && q.text.None? && q.patch.None?
    ensures !Structured(q) && q.text.None? && q.patch.None? && q.filters != NO_FILTERS ==>
      (Metadata(q, limit, over).undated <==> !over || q.filters.list.None?)
  {
  }

  /** Nothing but a list and dates, and no index that keeps undated rows out. */
  predicate DatesInParquet(q: Query, over: bool) {
    && q.text.None? && q.patch.None? && !Structured(q)
    && (q.filters.since.Some? || q.filters.until.Some?) && !(over && q.filters.list.Some?)
  }

  /**
    With a limit of two or more a query can lose a hit exactly if it has a filter (and a non-empty date
    range) and either joins words with a patch substring or another predicate, or asks for dates
    without an index.
   */
  lemma LosingQueriesExactly(q: Query, limit: nat, over: bool, fromMatches: Matcher, about: (string, Bytes) -> bool)
    requires Answerable(q.filters, fromMatches, about) && limit >= 2
    ensures !Lossless(q, limit, over, fromMatches, about)
       <==> Discriminates(q.filters) && ((HasWords(q) && (HasPatch(q) || Structured(q))) || DatesInParquet(q, over))
  {
    QueryIsLosslessExactly(q, limit, over, fromMatches, about);
    SafeShape(q, limit, over);
  }

  lemma SafeShape(q: Query, limit: nat, over: bool)
    requires limit >= 2
    ensures !IsSafe(q, limit, over)
       <==> Discriminates(q.filters) && ((HasWords(q) && (HasPatch(q) || Structured(q))) || DatesInParquet(q, over))
  {
  }
}
