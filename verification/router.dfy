/** Rank fusion, and the filters after it. */
module Router {
  import opened Base
  import opened Sorting

  const RRF_K: real := 60.0

  /** A message as a tier returns it; `rest` stands for the fields the fusion does not read. */
  datatype Row = Row(mid: Bytes, list: Bytes, from: Option<Bytes>, date: Option<int>, rest: Bytes)

  /** The ranked rows of one tier. */
  datatype Tier = Tier(name: string, rows: seq<Row>)

  datatype Acc = Acc(row: Row, score: real, provenance: seq<string>)

  datatype Hit = Hit(row: Row, score: real, provenance: seq<string>, exact: bool)

  // ----- What fusion means --------------------------------------------------

  /** `rank` counts from 0. */
  function Contribution(rank: nat): real {
    1.0 / (RRF_K + rank as real + 1.0)
  }

  /** `1 / (60 + rank)` for every position of the message, counting ranks from 1. */
  function TierScore(rows: seq<Row>, mid: Bytes): real {
    if rows == [] then 0.0
    else TierScore(rows[..|rows| - 1], mid) + if rows[|rows| - 1].mid == mid then 1.0 / (60.0 + |rows| as real) else 0.0
  }

  function Score(tiers: seq<Tier>, mid: Bytes): real {
    if tiers == [] then 0.0
    else Score(tiers[..|tiers| - 1], mid) + TierScore(tiers[|tiers| - 1].rows, mid)
  }

  predicate Has(rows: seq<Row>, mid: Bytes) {
    exists i :: 0 <= i < |rows| && rows[i].mid == mid
  }

  function TiersWith(tiers: seq<Tier>, mid: Bytes): set<string> {
    set i | 0 <= i < |tiers| && Has(tiers[i].rows, mid) :: tiers[i].name
  }

  ghost predicate Occurs(tiers: seq<Tier>, mid: Bytes) {
    exists i :: 0 <= i < |tiers| && Has(tiers[i].rows, mid)
  }

  ghost predicate NamesDistinct(tiers: seq<Tier>) {
    forall i, j :: 0 <= i < j < |tiers| ==> tiers[i].name != tiers[j].name
  }

  function SetOf(s: seq<string>): set<string> {
    set x | x in s
  }

  /** The accumulator after these (partial) tiers. */
  ghost predicate IsMerged(acc: map<Bytes, Acc>, tiers: seq<Tier>) {
    && (forall mid :: mid in acc <==> Occurs(tiers, mid))
    && (forall mid :: mid in acc ==> EntryOk(acc[mid], tiers, mid))
  }

  ghost predicate EntryOk(a: Acc, tiers: seq<Tier>, mid: Bytes) {
    && a.score == Score(tiers, mid)
    && Distinct(a.provenance) && SetOf(a.provenance) == TiersWith(tiers, mid)
    && a.row.mid == mid && exists i :: 0 <= i < |tiers| && a.row in tiers[i].rows
  }

  // ----- The loops ----------------------------------------------------------

  function Put(acc: map<Bytes, Acc>, row: Row, name: string, rank: nat): map<Bytes, Acc> {
    if row.mid in acc then
      var a := acc[row.mid];
      var provenance := if name in a.provenance then a.provenance else a.provenance + [name];
      acc[row.mid := Acc(a.row, a.score + Contribution(rank), provenance)]
    else acc[row.mid := Acc(row, Contribution(rank), [name])]
  }

  lemma OccursStep(ts: seq<Tier>, name: string, rows: seq<Row>, row: Row, mid: Bytes)
    ensures Occurs(ts + [Tier(name, rows + [row])], mid) <==> Occurs(ts + [Tier(name, rows)], mid) || row.mid == mid
    ensures Occurs(ts + [Tier(name, rows)], mid) <==> Occurs(ts, mid) || Has(rows, mid)
  {
    HasStep(rows, row, mid);
    OccursAppend(ts, Tier(name, rows), mid);
    OccursAppend(ts, Tier(name, rows + [row]), mid);
  }

  lemma HasStep(rows: seq<Row>, row: Row, mid: Bytes)
    ensures Has(rows + [row], mid) <==> Has(rows, mid) || row.mid == mid
  {
    if i :| 0 <= i < |rows| && rows[i].mid == mid {
      assert (rows + [row])[i].mid == mid;
    }
    assert (rows + [row])[|rows|] == row;
  }

  lemma OccursAppend(ts: seq<Tier>, t: Tier, mid: Bytes)
    ensures Occurs(ts + [t], mid) <==> Occurs(ts, mid) || Has(t.rows, mid)
  {
    if i :| 0 <= i < |ts| && Has(ts[i].rows, mid) {
      assert (ts + [t])[i] == ts[i];
    }
    assert (ts + [t])[|ts|] == t;
  }

  lemma WithAppend(ts: seq<Tier>, t: Tier, mid: Bytes)
    ensures TiersWith(ts + [t], mid) == TiersWith(ts, mid) + if Has(t.rows, mid) then {t.name} else {}
  {
    var whole := ts + [t];
    assert whole[|ts|] == t;
    forall x | x in TiersWith(ts, mid) ensures x in TiersWith(whole, mid) {
      var i :| 0 <= i < |ts| && Has(ts[i].rows, mid) && ts[i].name == x;
      assert whole[i] == ts[i];
    }
  }

  lemma ScoreAppend(ts: seq<Tier>, t: Tier, mid: Bytes)
    ensures Score(ts + [t], mid) == Score(ts, mid) + TierScore(t.rows, mid)
  {
    assert (ts + [t])[..|ts|] == ts;
  }

  lemma TierScoreAppend(rows: seq<Row>, row: Row, mid: Bytes)
    ensures TierScore(rows + [row], mid) == TierScore(rows, mid) + if row.mid == mid then Contribution(|rows|) else 0.0
  {
    assert (rows + [row])[..|rows|] == rows;
    ContributionIs(|rows|);
  }

  lemma ContributionIs(rank: nat)
    ensures Contribution(rank) == 1.0 / (60.0 + (rank + 1) as real)
  {
  }

  lemma {:induction false} NoScore(tiers: seq<Tier>, mid: Bytes)
    requires !Occurs(tiers, mid)
    ensures Score(tiers, mid) == 0.0
    decreases |tiers|
  {
    if tiers != [] {
      var front, last := tiers[..|tiers| - 1], tiers[|tiers| - 1];
      assert tiers == front + [last];
      OccursAppend(front, last, mid);
      NoScore(front, mid);
      NoTierScore(last.rows, mid);
    }
  }

  lemma {:induction false} NoTierScore(rows: seq<Row>, mid: Bytes)
    requires !Has(rows, mid)
    ensures TierScore(rows, mid) == 0.0
    decreases |rows|
  {
    if rows != [] {
      var front, last := rows[..|rows| - 1], rows[|rows| - 1];
      assert rows == front + [last];
      HasStep(front, last, mid);
      NoTierScore(front, mid);
    }
  }

  /** One more row of the tier at hand. */
  lemma MergeStep(acc: map<Bytes, Acc>, ts: seq<Tier>, name: string, rows: seq<Row>, row: Row)
    requires IsMerged(acc, ts + [Tier(name, rows)])
    ensures IsMerged(Put(acc, row, name, |rows|), ts + [Tier(name, rows + [row])])
  {
    hide Occurs, EntryOk, Score, TierScore, TiersWith, Has, Contribution;
    var acc' := Put(acc, row, name, |rows|);
    var now := ts + [Tier(name, rows + [row])];
    forall mid ensures mid in acc' <==> Occurs(now, mid) {
      OccursStep(ts, name, rows, row, mid);
    }
    forall mid | mid in acc' ensures EntryOk(acc'[mid], now, mid) {
      if mid == row.mid {
        NewEntry(acc, ts, name, rows, row);
      } else {
        ScoreAppend(ts, Tier(name, rows), mid);
        ScoreAppend(ts, Tier(name, rows + [row]), mid);
        TierScoreAppend(rows, row, mid);
        WithAppend(ts, Tier(name, rows), mid);
        WithAppend(ts, Tier(name, rows + [row]), mid);
        HasStep(rows, row, mid);
        OldEntry(acc[mid], ts, name, rows, row, mid);
      }
    }
  }

  lemma OldEntry(a: Acc, ts: seq<Tier>, name: string, rows: seq<Row>, row: Row, mid: Bytes)
    requires var was, now := ts + [Tier(name, rows)], ts + [Tier(name, rows + [row])];
      EntryOk(a, was, mid) && Score(now, mid) == Score(was, mid) && TiersWith(now, mid) == TiersWith(was, mid)
    ensures EntryOk(a, ts + [Tier(name, rows + [row])], mid)
  {
    hide Score, TiersWith;
    RowStays(a.row, ts, name, rows, row);
  }

  lemma RowStays(r: Row, ts: seq<Tier>, name: string, rows: seq<Row>, row: Row)
    requires var was := ts + [Tier(name, rows)]; exists i :: 0 <= i < |was| && r in was[i].rows
    ensures var now := ts + [Tier(name, rows + [row])]; exists i :: 0 <= i < |now| && r in now[i].rows
  {
    var was, now := ts + [Tier(name, rows)], ts + [Tier(name, rows + [row])];
    var i :| 0 <= i < |was| && r in was[i].rows;
    assert r in now[i].rows;
  }

  lemma NewEntry(acc: map<Bytes, Acc>, ts: seq<Tier>, name: string, rows: seq<Row>, row: Row)
    requires IsMerged(acc, ts + [Tier(name, rows)])
    ensures EntryOk(Put(acc, row, name, |rows|)[row.mid], ts + [Tier(name, rows + [row])], row.mid)
  {
    hide Score, TierScore, Has, TiersWith, Occurs, Contribution;
    var mid := row.mid;
    var was, now := ts + [Tier(name, rows)], ts + [Tier(name, rows + [row])];
    ScoreAppend(ts, Tier(name, rows), mid);
    ScoreAppend(ts, Tier(name, rows + [row]), mid);
    TierScoreAppend(rows, row, mid);
    WithAppend(ts, Tier(name, rows), mid);
    WithAppend(ts, Tier(name, rows + [row]), mid);
    HasStep(rows, row, mid);
    if mid in acc {
      assert EntryOk(acc[mid], was, mid);
      RowStays(acc[mid].row, ts, name, rows, row);
    } else {
      assert !Occurs(was, mid);
      NoScore(was, mid);
      NoTiers(was, mid);
      assert now[|ts|].rows == rows + [row];
      assert row in now[|ts|].rows;
    }
  }

  lemma NoTiers(tiers: seq<Tier>, mid: Bytes)
    requires !Occurs(tiers, mid)
    ensures TiersWith(tiers, mid) == {}
  {
  }

  lemma EmptyTier(acc: map<Bytes, Acc>, ts: seq<Tier>, name: string)
    requires IsMerged(acc, ts)
    ensures IsMerged(acc, ts + [Tier(name, [])])
  {
    hide Score, TierScore, TiersWith, Occurs;
    var t := Tier(name, []);
    assert forall mid :: !Has(t.rows, mid);
    forall mid ensures Occurs(ts + [t], mid) <==> Occurs(ts, mid) {
      OccursAppend(ts, t, mid);
    }
    forall mid | mid in acc ensures EntryOk(acc[mid], ts + [t], mid) {
      assert EntryOk(acc[mid], ts, mid);
      ScoreAppend(ts, t, mid);
      WithAppend(ts, t, mid);
      NoTierScore([], mid);
      var i :| 0 <= i < |ts| && acc[mid].row in ts[i].rows;
      assert (ts + [t])[i] == ts[i];
    }
  }

  function ToHit(a: Acc): Hit {
    Hit(a.row, a.score, a.provenance, "metadata" in a.provenance || "trigram" in a.provenance)
  }

  const BEST_FIRST: (Hit, Hit) -> bool := (a: Hit, b: Hit) => a.score >= b.score

  /** Every id of any tier once, with its score and tiers, best first. */
  ghost predicate IsFused(hits: seq<Hit>, tiers: seq<Tier>) {
    && (forall i, j :: 0 <= i < j < |hits| ==> hits[i].row.mid != hits[j].row.mid && hits[i].score >= hits[j].score)
    && (forall mid :: Occurs(tiers, mid) <==> exists h :: h in hits && h.row.mid == mid)
    && (forall h :: h in hits ==> HitOk(h, tiers))
  }

  ghost predicate HitOk(h: Hit, tiers: seq<Tier>) {
    && EntryOk(Acc(h.row, h.score, h.provenance), tiers, h.row.mid)
    && (h.exact <==> "metadata" in TiersWith(tiers, h.row.mid) || "trigram" in TiersWith(tiers, h.row.mid))
  }

  /** `rrf_merge`; the tiers come in any order, and only the fused list is cut. */
  method RrfMerge(tiers: seq<Tier>, limit: nat) returns (hits: seq<Hit>)
    requires NamesDistinct(tiers)
    ensures exists ranked :: IsFused(ranked, tiers) && hits == Take(ranked, limit)
  {
    hide IsMerged, Put, IsFused, Sort;
    var acc: map<Bytes, Acc> := map[];
    NothingMerged();
    assert tiers[..0] == [];
    for t := 0 to |tiers|
      invariant IsMerged(acc, tiers[..t])
    {
      var tier := tiers[t];
      EmptyTier(acc, tiers[..t], tier.name);
      assert tier.rows[..0] == [];
      for rank := 0 to |tier.rows|
        invariant IsMerged(acc, tiers[..t] + [Tier(tier.name, tier.rows[..rank])])
      {
        MergeStep(acc, tiers[..t], tier.name, tier.rows[..rank], tier.rows[rank]);
        assert tier.rows[..rank] + [tier.rows[rank]] == tier.rows[..rank + 1];
        acc := Put(acc, tier.rows[rank], tier.name, rank);
      }
      assert tier.rows[..|tier.rows|] == tier.rows;
      assert tiers[..t + 1] == tiers[..t] + [tier];
    }
    assert tiers[..|tiers|] == tiers;
    MergedRows(acc, tiers);
    var list := Collect(acc);
    var sorted := Sort(list, BEST_FIRST);
    SortedIsFused(acc, tiers, list);
    assert IsFused(sorted, tiers);
    hits := Take(sorted, limit);
  }

  lemma MergedRows(acc: map<Bytes, Acc>, tiers: seq<Tier>)
    requires IsMerged(acc, tiers)
    ensures forall mid :: mid in acc ==> acc[mid].row.mid == mid
  {
    forall mid | mid in acc ensures acc[mid].row.mid == mid {
      EntryRow(acc[mid], tiers, mid);
    }
  }

  lemma NothingMerged()
    ensures IsMerged(map[], [])
  {
  }

  /** The accumulated values, in no particular order. */
  ghost predicate IsListing(list: seq<Hit>, acc: map<Bytes, Acc>) {
    && (forall h :: h in list ==> h.row.mid in acc && h == ToHit(acc[h.row.mid]))
    && (forall i, j :: 0 <= i < j < |list| ==> list[i].row.mid != list[j].row.mid)
    && (forall mid :: mid in acc ==> ToHit(acc[mid]) in list)
  }

  method Collect(acc: map<Bytes, Acc>) returns (list: seq<Hit>)
    requires forall mid :: mid in acc ==> acc[mid].row.mid == mid
    ensures IsListing(list, acc)
  {
    list := [];
    var left := acc.Keys;
    while left != {}
      invariant left <= acc.Keys
      invariant forall h :: h in list ==> h.row.mid in acc && h.row.mid !in left && h == ToHit(acc[h.row.mid])
      invariant forall i, j :: 0 <= i < j < |list| ==> list[i].row.mid != list[j].row.mid
      invariant forall mid :: mid in acc && mid !in left ==> ToHit(acc[mid]) in list
      decreases |left|
    {
      var mid :| mid in left;
      left := left - {mid};
      forall i | 0 <= i < |list| ensures list[i].row.mid != mid {
        assert list[i] in list;
      }
      list := list + [ToHit(acc[mid])];
    }
  }

  lemma SortedIsFused(acc: map<Bytes, Acc>, tiers: seq<Tier>, list: seq<Hit>)
    requires IsMerged(acc, tiers) && IsListing(list, acc)
    ensures IsFused(Sort(list, BEST_FIRST), tiers)
  {
    hide Sort, Occurs, EntryOk, TiersWith;
    var out := Sort(list, BEST_FIRST);
    SortSorts(list, BEST_FIRST);
    SortPermutes(list, BEST_FIRST);
    forall h ensures h in out <==> h in list {
      SortMember(list, BEST_FIRST, h);
    }
    assert Distinct(list);
    SortDistinct(list, BEST_FIRST);
    forall i, j | 0 <= i < j < |out| ensures out[i].row.mid != out[j].row.mid && out[i].score >= out[j].score {
      assert BEST_FIRST(out[i], out[j]);
      assert out[i] in out && out[j] in out && out[i] != out[j];
    }
    forall h | h in out ensures HitOk(h, tiers) {
      ListedIsOk(acc, tiers, h);
    }
    forall mid ensures Occurs(tiers, mid) <==> exists h :: h in out && h.row.mid == mid {
      if mid in acc {
        EntryRow(acc[mid], tiers, mid);
        assert ToHit(acc[mid]) in out;
      }
    }
  }

  lemma EntryRow(a: Acc, tiers: seq<Tier>, mid: Bytes)
    requires EntryOk(a, tiers, mid)
    ensures a.row.mid == mid
  {
  }

  lemma ListedIsOk(acc: map<Bytes, Acc>, tiers: seq<Tier>, h: Hit)
    requires IsMerged(acc, tiers) && h.row.mid in acc && h == ToHit(acc[h.row.mid])
    ensures HitOk(h, tiers)
  {
    hide Score, TiersWith, Occurs;
    var a := acc[h.row.mid];
    assert EntryOk(a, tiers, h.row.mid);
    assert a == Acc(h.row, h.score, h.provenance);
    assert forall x :: x in SetOf(a.provenance) <==> x in a.provenance;
  }

  // ----- The order of the tiers does not matter -----------------------------

  lemma {:induction false} ScoreIgnoresOrder(a: seq<Tier>, b: seq<Tier>, mid: Bytes)
    requires multiset(a) == multiset(b)
    ensures Score(a, mid) == Score(b, mid)
    decreases |a|
  {
    hide Score, TierScore;
    assert |a| == |multiset(a)| && |b| == |multiset(b)|;
    if a == [] {
      assert a == b;
    } else {
      var front, last := a[..|a| - 1], a[|a| - 1];
      assert a == front + [last];
      assert last in multiset(b);
      var k :| 0 <= k < |b| && b[k] == last;
      var rest := b[..k] + b[k + 1..];
      assert b == b[..k] + [last] + b[k + 1..];
      assert front + [last] + [] == a && front + [] == front;
      assert multiset(front) == multiset(a) - multiset{last};
      assert multiset(rest) == multiset(b) - multiset{last};
      ScoreIgnoresOrder(front, rest, mid);
      ScoreWithout(b[..k], last, b[k + 1..], mid);
      ScoreAppend(front, last, mid);
    }
  }

  lemma {:induction false} ScoreWithout(front: seq<Tier>, t: Tier, back: seq<Tier>, mid: Bytes)
    ensures Score(front + [t] + back, mid) == Score(front + back, mid) + TierScore(t.rows, mid)
    decreases |back|
  {
    if back == [] {
      assert front + [t] + back == front + [t] && front + back == front;
      ScoreAppend(front, t, mid);
    } else {
      var n := |back| - 1;
      ScoreWithout(front, t, back[..n], mid);
      assert front + [t] + back == (front + [t] + back[..n]) + [back[n]];
      assert front + back == (front + back[..n]) + [back[n]];
      ScoreAppend(front + [t] + back[..n], back[n], mid);
      ScoreAppend(front + back[..n], back[n], mid);
    }
  }

  lemma WithIgnoresOrder(a: seq<Tier>, b: seq<Tier>, mid: Bytes)
    requires multiset(a) == multiset(b)
    ensures TiersWith(a, mid) == TiersWith(b, mid)
    ensures Occurs(a, mid) <==> Occurs(b, mid)
  {
    forall t ensures t in a <==> t in b {
      assert t in a <==> t in multiset(a);
      assert t in b <==> t in multiset(b);
    }
    WithSubset(a, b, mid);
    WithSubset(b, a, mid);
  }

  lemma WithSubset(a: seq<Tier>, b: seq<Tier>, mid: Bytes)
    requires forall t :: t in a ==> t in b
    ensures TiersWith(a, mid) <= TiersWith(b, mid)
    ensures Occurs(a, mid) ==> Occurs(b, mid)
  {
    forall i | 0 <= i < |a| && Has(a[i].rows, mid) ensures exists j :: 0 <= j < |b| && b[j] == a[i] {
      assert a[i] in b;
    }
  }

  /** Whatever order the tiers are visited in, the same ids come out with the same scores and the same tiers. */
  lemma FusionIgnoresTierOrder(a: seq<Hit>, tiers: seq<Tier>, b: seq<Hit>, shuffled: seq<Tier>)
    requires multiset(tiers) == multiset(shuffled) && IsFused(a, tiers) && IsFused(b, shuffled)
    ensures |a| == |b|
    ensures forall h :: h in a ==> exists g :: g in b && Alike(g, h)
  {
    hide Score, TiersWith, Occurs;
    forall h | h in a ensures exists g :: g in b && Alike(g, h) {
      WithIgnoresOrder(tiers, shuffled, h.row.mid);
      ScoreIgnoresOrder(tiers, shuffled, h.row.mid);
      var g :| g in b && g.row.mid == h.row.mid;
      assert HitOk(h, tiers) && HitOk(g, shuffled);
      assert Alike(g, h);
    }
    IdsCount(a);
    IdsCount(b);
    forall mid ensures mid in Ids(a) <==> mid in Ids(b) {
      WithIgnoresOrder(tiers, shuffled, mid);
      assert mid in Ids(a) <==> Occurs(tiers, mid);
      assert mid in Ids(b) <==> Occurs(shuffled, mid);
    }
    assert Ids(a) == Ids(b);
  }

  predicate Alike(a: Hit, b: Hit) {
    a.row.mid == b.row.mid && a.score == b.score && SetOf(a.provenance) == SetOf(b.provenance) && a.exact == b.exact
  }

  function Ids(hits: seq<Hit>): set<Bytes> {
    set h | h in hits :: h.row.mid
  }

  lemma {:induction false} IdsCount(hits: seq<Hit>)
    requires forall i, j :: 0 <= i < j < |hits| ==> hits[i].row.mid != hits[j].row.mid
    ensures |Ids(hits)| == |hits|
    decreases |hits|
  {
    if hits != [] {
      var front, last := hits[..|hits| - 1], hits[|hits| - 1];
      IdsCount(front);
      assert hits == front + [last];
      assert Ids(hits) == Ids(front) + {last.row.mid};
    }
  }

  // ----- The filters after fusion -------------------------------------------

  /** `fromMatches` is the case-insensitive substring test on the author. */
  datatype Filters = Filters(list: Option<Bytes>, from: Option<Bytes>, since: Option<int>, until: Option<int>)

  predicate Wanted(f: Filters, fromMatches: (Bytes, Bytes) -> bool, h: Hit) {
    && (f.list.Some? ==> h.row.list == f.list.value)
    && (f.from.Some? ==> h.row.from.Some? && fromMatches(f.from.value, h.row.from.value))
    && (f.since.Some? ==> h.row.date.Some? && h.row.date.value >= f.since.value)
    && (f.until.Some? ==> h.row.date.Some? && h.row.date.value < f.until.value)
  }

  /** Filter by filter; the author test looks for the query's text in the row's author. */
  lemma WantedByColumn(f: Filters, fromMatches: (Bytes, Bytes) -> bool, h: Hit)
    ensures Wanted(f, fromMatches, h)
       <==> && (f.list == None || f.list == Some(h.row.list))
            && (f.from == None || (h.row.from.Some? && fromMatches(f.from.value, h.row.from.value)))
            && (f.since == None || (h.row.date.Some? && f.since.value <= h.row.date.value))
            && (f.until == None || (h.row.date.Some? && h.row.date.value < f.until.value))
  {
  }

  function WantedBy(f: Filters, fromMatches: (Bytes, Bytes) -> bool): Hit -> bool {
    (h: Hit) => Wanted(f, fromMatches, h)
  }

  /** The tail of `dispatch`: the fused list is cut to twice the limit before the filters see it. */
  function Dispatched(ranked: seq<Hit>, f: Filters, fromMatches: (Bytes, Bytes) -> bool, limit: nat): seq<Hit> {
    Take(Filter(Take(ranked, limit * 2), WantedBy(f, fromMatches)), limit)
  }

  /** What a caller would want: the best hits among all that pass the filters. */
  function Best(ranked: seq<Hit>, f: Filters, fromMatches: (Bytes, Bytes) -> bool, limit: nat): seq<Hit> {
    Take(Filter(ranked, WantedBy(f, fromMatches)), limit)
  }

  /**
    Cutting first loses nothing exactly if the first 2 * limit hits hold enough wanted ones, or
    nothing behind them is wanted; it always keeps a prefix of the best ones.
   */
  lemma CutThenFilterExactly(ranked: seq<Hit>, f: Filters, fromMatches: (Bytes, Bytes) -> bool, limit: nat)
    ensures Dispatched(ranked, f, fromMatches, limit) <= Best(ranked, f, fromMatches, limit)
    ensures Dispatched(ranked, f, fromMatches, limit) == Best(ranked, f, fromMatches, limit)
       <==> |Filter(Take(ranked, limit * 2), WantedBy(f, fromMatches))| >= limit
            || forall i :: limit * 2 <= i < |ranked| ==> !Wanted(f, fromMatches, ranked[i])
  {
    hide Filter;
    var p := WantedBy(f, fromMatches);
    var n := Min(limit * 2, |ranked|);
    var front, back := ranked[..n], ranked[n..];
    assert ranked == front + back;
    FilterAppend(front, back, p);
    FilterMembers(back, p);
    if Filter(back, p) == [] {
      forall i | n <= i < |ranked| ensures !p(ranked[i]) {
        assert ranked[i] == back[i - n];
        assert back[i - n] in back;
      }
    } else {
      assert Filter(back, p)[0] in Filter(back, p);
    }
  }
}
