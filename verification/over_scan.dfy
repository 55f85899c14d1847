/** Queries on over.db, indexed and sequential. */
module OverScan {
  import opened Base
  import opened Sorting
  import opened Over

  const SQLITE_PARAM_LIMIT: nat := 999

  datatype Query = Query(since: Option<int>, until: Option<int>, list: Option<Bytes>)

  /** The WHERE clause; a comparison with a NULL date is not true. */
  predicate Passes(q: Query, key: Key, date: Option<int>) {
    && (q.since.Some? ==> date.Some? && date.value >= q.since.value)
    && (q.until.Some? ==> date.Some? && date.value < q.until.value)
    && (q.list.Some? ==> key.list == q.list.value)
  }

  /** ORDER BY date DESC, where NULL comes last. */
  predicate NoOlder(a: Option<int>, b: Option<int>) {
    b.None? || (a.Some? && a.value >= b.value)
  }

  const SIDE_DATE: SideRow -> Option<int> := (s: SideRow) => s.date
  const ROW_DATE: Row -> Option<int> := (r: Row) => r.date
  const JOIN_DATE: ((SideRow, Row)) -> Option<int> := (p: (SideRow, Row)) => p.0.date

  ghost predicate NewestFirst<T>(out: seq<T>, date: T -> Option<int>) {
    forall i, j :: 0 <= i < j < |out| ==> NoOlder(date(out[i]), date(out[j]))
  }

  /** `out` is `limit` of `all`, newest first, and nothing left out is newer; ties may fall either way. */
  ghost predicate IsTop<T(!new)>(out: seq<T>, all: set<T>, limit: nat, date: T -> Option<int>) {
    && Distinct(out) && NewestFirst(out, date)
    && (forall x :: x in out ==> x in all)
    && |out| == Min(limit, |all|)
    && (forall x, y :: x in all && x !in out && y in out ==> NoOlder(date(y), date(x)))
  }

  /** The same order in terms of the dates: descending, undated rows last, and nothing newer left out. */
  lemma TopDates(out: seq<Row>, all: set<Row>, limit: nat)
    requires IsTop(out, all, limit, ROW_DATE)
    ensures forall i, j :: 0 <= i < j < |out| && out[i].date.Some? && out[j].date.Some? ==>
      out[i].date.value >= out[j].date.value
    ensures forall i, j :: 0 <= i < j < |out| && out[i].date.None? ==> out[j].date.None?
    ensures forall x, y ::
      x in all && x.date.Some? && x !in out && y in out ==>
        y.date.Some? && y.date.value >= x.date.value
  {
    forall i, j | 0 <= i < j < |out| ensures NoOlder(out[i].date, out[j].date) {
      assert NoOlder(ROW_DATE(out[i]), ROW_DATE(out[j]));
    }
    forall x, y | x in all && x !in out && y in out ensures NoOlder(y.date, x.date) {
      assert NoOlder(ROW_DATE(y), ROW_DATE(x));
    }
  }

  // ----- SELECT -------------------------------------------------------------

  lemma {:induction false} NewestExists<T>(all: set<T>, date: T -> Option<int>)
    requires all != {}
    ensures exists x :: x in all && forall y :: y in all ==> NoOlder(date(x), date(y))
    decreases |all|
  {
    var x :| x in all;
    var rest := all - {x};
    if rest == {} {
      assert all == {x};
    } else {
      NewestExists(rest, date);
      var m :| m in rest && forall y :: y in rest ==> NoOlder(date(m), date(y));
      var best := if NoOlder(date(m), date(x)) then m else x;
      forall y | y in all ensures NoOlder(date(best), date(y)) {
        assert y == x || y in rest;
      }
      assert best in all;
    }
  }

  lemma TopStep<T(!new)>(out: seq<T>, all: set<T>, left: set<T>, x: T, date: T -> Option<int>)
    requires IsTop(out, all, |out|, date) && left == (set y | y in all && y !in out)
    requires x in left && forall y :: y in left ==> NoOlder(date(x), date(y))
    ensures IsTop(out + [x], all, |out| + 1, date)
    ensures left - {x} == (set y | y in all && y !in out + [x])
  {
    hide NoOlder, Distinct;
    var out' := out + [x];
    assert forall y :: y in out' <==> y in out || y == x;
    StillDistinct(out, x);
    DistinctFits(out', all);
    forall i, j | 0 <= i < j < |out'| ensures NoOlder(date(out'[i]), date(out'[j])) {
      assert out'[i] in out;
    }
    forall u, y | u in all && u !in out' && y in out' ensures NoOlder(date(y), date(u)) {
      assert u in left;
    }
  }

  lemma StillDistinct<T>(s: seq<T>, x: T)
    requires Distinct(s) && x !in s
    ensures Distinct(s + [x])
  {
  }

  lemma {:induction false} DistinctSize<T>(s: seq<T>)
    requires Distinct(s)
    ensures |set x | x in s| == |s|
    decreases |s|
  {
    if s != [] {
      var front, last := s[..|s| - 1], s[|s| - 1];
      DistinctSize(front);
      assert (set x | x in s) == (set x | x in front) + {last} by {
        assert s == front + [last];
      }
    }
  }

  lemma DistinctFits<T>(s: seq<T>, all: set<T>)
    requires Distinct(s) && forall x :: x in s ==> x in all
    ensures |s| <= |all|
    ensures |s| == |all| ==> forall x :: x in all ==> x in s
  {
    DistinctSize(s);
    var used := set x | x in s;
    SubsetSize(used, all);
    if |s| == |all| {
      SameSizeSubset(used, all);
    }
  }

  lemma SameSizeSubset<T>(a: set<T>, b: set<T>)
    requires a <= b && |a| == |b|
    ensures a == b
  {
    assert |b - a| == |b| - |a| by {
      assert b == a + (b - a);
    }
  }

  /** What SQLite does for ORDER BY date DESC LIMIT; callers know no more than the contract. */
  method Select<T(==, !new)>(all: set<T>, limit: nat, date: T -> Option<int>) returns (out: seq<T>)
    ensures IsTop(out, all, limit, date)
  {
    hide IsTop, NoOlder;
    out := [];
    var left := all;
    NothingIsTop(all, date);
    while |out| < limit && left != {}
      invariant IsTop(out, all, |out|, date) && |out| <= limit
      invariant left == set y | y in all && y !in out
      decreases |left|
    {
      NewestExists(left, date);
      var x :| x in left && forall y :: y in left ==> NoOlder(date(x), date(y));
      TopStep(out, all, left, x, date);
      out := out + [x];
      left := left - {x};
    }
    assert left == {} ==> forall y :: y in all ==> y in out || y in left;
    TopOfLimit(out, all, limit, date);
  }

  lemma NothingIsTop<T(!new)>(all: set<T>, date: T -> Option<int>)
    ensures IsTop([], all, 0, date)
    ensures all == set y | y in all && y !in []
  {
  }

  lemma TopOfLimit<T(!new)>(out: seq<T>, all: set<T>, limit: nat, date: T -> Option<int>)
    requires IsTop(out, all, |out|, date) && |out| <= limit
    requires |out| == limit || forall y :: y in all ==> y in out
    ensures IsTop(out, all, limit, date)
  {
    if |out| < limit {
      DistinctSize(out);
      assert (set x | x in out) == all;
    }
  }

  // ----- Which rows match ---------------------------------------------------

  /** The rows with the value in the list field that pass the filters, as the sequential scan sees them. */
  function Matching(rows: Table, pick: Row -> seq<Bytes>, value: Bytes, q: Query): set<Row> {
    set id | id in rows && value in pick(rows[id]) && Passes(q, rows[id].key, rows[id].date) :: rows[id]
  }

  /** Column by column: the value is among the row's, the date is from `since` on and before `until`, the list fits. */
  lemma MatchingMeans(rows: Table, pick: Row -> seq<Bytes>, value: Bytes, q: Query, r: Row)
    ensures r in Matching(rows, pick, value, q)
       <==> && (exists id :: id in rows && rows[id] == r) && value in pick(r)
            && (q.since.Some? ==> r.date.Some? && r.date.value >= q.since.value)
            && (q.until.Some? ==> r.date.Some? && r.date.value < q.until.value)
            && (q.list.Some? ==> r.key.list == q.list.value)
  {
  }

  /** The part of them the side table can find. */
  function Indexed(rows: Table, pick: Row -> seq<Bytes>, value: Bytes, q: Query): set<Row> {
    set r | r in Matching(rows, pick, value, q) && value != [] && r.date.Some?
  }

  /** The rows of the side table the inner SELECT ranges over. */
  function Inner(side: set<SideRow>, value: Bytes, q: Query): set<SideRow> {
    set s | s in side && s.value == value && s.date.Some? && Passes(q, s.key, s.date)
  }

  function Joined(rows: Table, picked: set<SideRow>): set<(SideRow, Row)> {
    set s, id | s in picked && id in rows && rows[id].key == s.key :: (s, rows[id])
  }

  function Seconds(pairs: seq<(SideRow, Row)>): seq<Row> {
    seq(|pairs|, i requires 0 <= i < |pairs| => pairs[i].1)
  }

  lemma {:induction false} ImageSize<T, U>(a: set<T>, b: set<U>, f: T -> U)
    requires b == (set x | x in a :: f(x)) && forall x, y :: x in a && y in a && f(x) == f(y) ==> x == y
    ensures |a| == |b|
    decreases |a|
  {
    if a != {} {
      var x :| x in a;
      assert f(x) in b;
      assert b - {f(x)} == set y | y in a - {x} :: f(y);
      ImageSize(a - {x}, b - {f(x)}, f);
    }
  }

  function SideOf(value: Bytes): Row -> SideRow {
    (r: Row) => SideRow(value, r.key, r.date)
  }

  const FIRST: ((SideRow, Row)) -> SideRow := (p: (SideRow, Row)) => p.0

  lemma RowBehind(rows: Table, pick: Row -> seq<Bytes>, value: Bytes, q: Query, s: SideRow) returns (id: nat)
    requires s in Inner(Derived(rows, pick), value, q)
    ensures id in rows && rows[id].key == s.key && SideOf(value)(rows[id]) == s
    ensures rows[id] in Indexed(rows, pick, value, q)
  {
    id :| id in rows && s in OfRow(rows[id], pick);
    assert rows[id] in Matching(rows, pick, value, q);
  }

  lemma SideBehind(rows: Table, pick: Row -> seq<Bytes>, value: Bytes, q: Query, r: Row)
    requires r in Indexed(rows, pick, value, q)
    ensures SideOf(value)(r) in Inner(Derived(rows, pick), value, q)
  {
    var id :| id in rows && rows[id] == r && value in pick(r);
    assert SideRow(value, r.key, r.date) in OfRow(rows[id], pick);
  }

  lemma KeyDecides(rows: Table, lastId: nat, pick: Row -> seq<Bytes>, value: Bytes, q: Query)
    requires TableOk(rows, lastId)
    ensures forall r, r' ::
      r in Indexed(rows, pick, value, q) && r' in Indexed(rows, pick, value, q) && r.key == r'.key ==> r == r'
  {
  }

  /** The matching rows that have their entry in the side table. */
  function Found(rows: Table, pick: Row -> seq<Bytes>, side: set<SideRow>, value: Bytes, q: Query): set<Row> {
    set r | r in Indexed(rows, pick, value, q) && SideOf(value)(r) in side
  }

  /** As far as a side table goes, its rows and the matching rows correspond one to one. */
  lemma InnerMirrorsFound(rows: Table, lastId: nat, pick: Row -> seq<Bytes>, side: set<SideRow>, value: Bytes, q: Query)
    requires TableOk(rows, lastId) && side <= Derived(rows, pick)
    ensures Inner(side, value, q) == set r | r in Found(rows, pick, side, value, q) :: SideOf(value)(r)
    ensures |Inner(side, value, q)| == |Found(rows, pick, side, value, q)|
  {
    hide Derived, Indexed;
    var inner, found := Inner(side, value, q), Found(rows, pick, side, value, q);
    var image := set r | r in found :: SideOf(value)(r);
    forall s | s in inner ensures s in image {
      var id := RowBehind(rows, pick, value, q, s);
    }
    forall s | s in image ensures s in inner {
      var r :| r in found && SideOf(value)(r) == s;
      SideBehind(rows, pick, value, q, r);
    }
    assert inner == image;
    KeyDecides(rows, lastId, pick, value, q);
    ImageSize(found, inner, SideOf(value));
  }

  lemma FoundInDerived(rows: Table, pick: Row -> seq<Bytes>, value: Bytes, q: Query)
    ensures Found(rows, pick, Derived(rows, pick), value, q) == Indexed(rows, pick, value, q)
  {
    hide Derived, Indexed;
    forall r | r in Indexed(rows, pick, value, q) ensures SideOf(value)(r) in Derived(rows, pick) {
      SideBehind(rows, pick, value, q, r);
    }
  }

  /** Side rows and matching rows correspond one to one. */
  lemma InnerMirrorsIndexed(rows: Table, lastId: nat, pick: Row -> seq<Bytes>, value: Bytes, q: Query)
    requires TableOk(rows, lastId)
    ensures Inner(Derived(rows, pick), value, q) == set r | r in Indexed(rows, pick, value, q) :: SideOf(value)(r)
    ensures |Inner(Derived(rows, pick), value, q)| == |Indexed(rows, pick, value, q)|
  {
    hide Inner, Derived, Indexed, Found;
    InnerMirrorsFound(rows, lastId, pick, Derived(rows, pick), value, q);
    FoundInDerived(rows, pick, value, q);
  }

  /** Every picked side row meets exactly its own row in the join. */
  lemma JoinSize(rows: Table, lastId: nat, pick: Row -> seq<Bytes>, value: Bytes, q: Query, picked: set<SideRow>)
    requires TableOk(rows, lastId) && picked <= Inner(Derived(rows, pick), value, q)
    ensures |Joined(rows, picked)| == |picked|
    ensures forall p :: p in Joined(rows, picked) ==>
      p.0 in picked && p.1 in Indexed(rows, pick, value, q) && SideOf(value)(p.1) == p.0
  {
    hide Inner, Derived, Indexed;
    var pairs := Joined(rows, picked);
    forall p | p in pairs ensures p.0 in picked && p.1 in Indexed(rows, pick, value, q) && SideOf(value)(p.1) == p.0 {
      var id := RowBehind(rows, pick, value, q, p.0);
    }
    forall s | s in picked ensures exists p :: p in pairs && FIRST(p) == s {
      var id := RowBehind(rows, pick, value, q, s);
      assert (s, rows[id]) in pairs;
    }
    assert picked == set p | p in pairs :: FIRST(p);
    ImageSize(pairs, picked, FIRST);
  }

  lemma InJoin(rows: Table, lastId: nat, pick: Row -> seq<Bytes>, value: Bytes, q: Query, picked: set<SideRow>, x: Row)
    requires TableOk(rows, lastId) && x in Indexed(rows, pick, value, q) && SideOf(value)(x) in picked
    ensures (SideOf(value)(x), x) in Joined(rows, picked)
  {
    var id :| id in rows && rows[id] == x;
    assert rows[id].key == SideOf(value)(x).key;
  }

  /** The joined rows in their final order. */
  lemma JoinRows(rows: Table, lastId: nat, pick: Row -> seq<Bytes>, value: Bytes, q: Query,
                 picked: set<SideRow>, ordered: seq<(SideRow, Row)>)
    requires TableOk(rows, lastId) && picked <= Inner(Derived(rows, pick), value, q)
    requires IsTop(ordered, Joined(rows, picked), |Joined(rows, picked)|, JOIN_DATE)
    ensures |ordered| == |picked|
    ensures forall i :: 0 <= i < |ordered| ==>
      ordered[i].0 in picked && ordered[i].1 in Indexed(rows, pick, value, q)
        && SideOf(value)(ordered[i].1) == ordered[i].0
    ensures Distinct(Seconds(ordered)) && NewestFirst(Seconds(ordered), ROW_DATE)
    ensures forall x :: x in Indexed(rows, pick, value, q) && SideOf(value)(x) in picked ==> x in Seconds(ordered)
  {
    hide Inner, Derived, Indexed, Joined, NoOlder;
    var pairs := Joined(rows, picked);
    var out := Seconds(ordered);
    JoinSize(rows, lastId, pick, value, q, picked);
    forall i | 0 <= i < |out| ensures SideOf(value)(out[i]) == ordered[i].0 {
      assert ordered[i] in ordered;
    }
    forall i, j | 0 <= i < j < |out| ensures out[i] != out[j] && NoOlder(ROW_DATE(out[i]), ROW_DATE(out[j])) {
      assert ordered[i] != ordered[j];
      assert NoOlder(JOIN_DATE(ordered[i]), JOIN_DATE(ordered[j]));
    }
    DistinctFits(ordered, pairs);
    forall x | x in Indexed(rows, pick, value, q) && SideOf(value)(x) in picked ensures x in out {
      InJoin(rows, lastId, pick, value, q, picked, x);
      var i :| 0 <= i < |ordered| && ordered[i] == (SideOf(value)(x), x);
      assert out[i] == x;
    }
  }

  lemma JoinIsTop(rows: Table, lastId: nat, pick: Row -> seq<Bytes>, side: set<SideRow>, value: Bytes, q: Query,
                  limit: nat,
                  picked: seq<SideRow>, ordered: seq<(SideRow, Row)>)
    requires TableOk(rows, lastId) && side <= Derived(rows, pick)
    requires IsTop(picked, Inner(side, value, q), limit, SIDE_DATE)
    requires var pairs := Joined(rows, set s | s in picked); IsTop(ordered, pairs, |pairs|, JOIN_DATE)
    ensures IsTop(Seconds(ordered), Found(rows, pick, side, value, q), limit, ROW_DATE)
  {
    hide Inner, Derived, Indexed, Joined, NoOlder, Distinct, NewestFirst;
    var found := Found(rows, pick, side, value, q);
    var chosen := set s | s in picked;
    var out := Seconds(ordered);
    InnerMirrorsFound(rows, lastId, pick, side, value, q);
    InnerGrows(side, Derived(rows, pick), value, q);
    DistinctSize(picked);
    JoinRows(rows, lastId, pick, value, q, chosen, ordered);
    forall x | x in out ensures x in found {
      var i :| 0 <= i < |out| && out[i] == x;
      assert ordered[i].0 in picked;
    }
    forall x, y | x in found && x !in out && y in out ensures NoOlder(ROW_DATE(y), ROW_DATE(x)) {
      var s := SideOf(value)(x);
      assert s in Inner(side, value, q) && s !in picked;
      var i :| 0 <= i < |out| && out[i] == y;
      assert NoOlder(SIDE_DATE(ordered[i].0), SIDE_DATE(s));
    }
  }

  lemma InnerGrows(side: set<SideRow>, more: set<SideRow>, value: Bytes, q: Query)
    requires side <= more
    ensures Inner(side, value, q) <= Inner(more, value, q)
    ensures forall s :: s in Inner(side, value, q) ==> s in side
  {
  }

  /** `scan_eq_via_list_value_side_table`: pick side rows, join, order again. */
  method ScanSide(rows: Table, side: set<SideRow>, ghost lastId: nat, ghost pick: Row -> seq<Bytes>,
                  value: Bytes, q: Query, limit: nat) returns (out: seq<Row>)
    requires TableOk(rows, lastId) && NoOrphans(side, rows)
    ensures side <= Derived(rows, pick) ==> IsTop(out, Found(rows, pick, side, value, q), limit, ROW_DATE)
    ensures side == Derived(rows, pick) ==> IsTop(out, Indexed(rows, pick, value, q), limit, ROW_DATE)
    ensures side <= Derived(rows, pick) ==> forall i, j ::
      0 <= i < j < |out| && out[i].date.Some? && out[j].date.Some? ==> out[i].date.value >= out[j].date.value
    ensures side <= Derived(rows, pick) ==> forall x, y ::
      x in Found(rows, pick, side, value, q) && x.date.Some? && x !in out && y in out ==>
        y.date.Some? && y.date.value >= x.date.value
    ensures side <= Derived(rows, pick) ==> forall r :: r in out ==> r.date.Some?
    ensures Inner(side, value, q) == {} ==> out == []
  {
    hide IsTop, Derived, Matching, Found;
    var inner := Inner(side, value, q);
    var picked := Select(inner, limit, SIDE_DATE);
    var pairs := Joined(rows, set s | s in picked);
    var ordered := Select(pairs, |pairs|, JOIN_DATE);
    out := Seconds(ordered);
    if side <= Derived(rows, pick) {
      JoinIsTop(rows, lastId, pick, side, value, q, limit, picked, ordered);
      FoundInDerived(rows, pick, value, q);
      TopDates(out, Found(rows, pick, side, value, q), limit);
      FoundIsDated(out, rows, pick, side, value, q, limit);
    }
    if inner == {} {
      NothingPicked(rows, inner, limit, picked, ordered);
    }
  }

  lemma FoundIsDated(out: seq<Row>, rows: Table, pick: Row -> seq<Bytes>, side: set<SideRow>, value: Bytes, q: Query,
                     limit: nat)
    requires IsTop(out, Found(rows, pick, side, value, q), limit, ROW_DATE)
    ensures forall r :: r in out ==> r.date.Some?
  {
  }

  lemma NothingPicked(rows: Table, inner: set<SideRow>, limit: nat, picked: seq<SideRow>, ordered: seq<(SideRow, Row)>)
    requires IsTop(picked, inner, limit, SIDE_DATE) && inner == {}
    requires var pairs := Joined(rows, set s | s in picked); IsTop(ordered, pairs, |pairs|, JOIN_DATE)
    ensures Seconds(ordered) == []
  {
    assert picked == [];
    assert Joined(rows, set s | s in picked) == {};
  }

  // ----- The sequential scan ------------------------------------------------

  function AllPassing(rows: Table, q: Query): set<Row> {
    set id | id in rows && Passes(q, rows[id].key, rows[id].date) :: rows[id]
  }

  function Matches(pick: Row -> seq<Bytes>, value: Bytes): Row -> bool {
    (r: Row) => value in pick(r)
  }

  function AtLeastOne(n: nat): nat {
    if n == 0 then 1 else n
  }

  /** `scan_eq_sequential`: newest first over everything; the limit is looked at after a row was taken. */
  method ScanSequential(rows: Table, pick: Row -> seq<Bytes>, value: Bytes, q: Query, limit: nat)
    returns (out: seq<Row>)
    ensures IsTop(out, Matching(rows, pick, value, q), AtLeastOne(limit), ROW_DATE)
    ensures forall i, j :: 0 <= i < j < |out| && out[i].date.Some? && out[j].date.Some? ==>
      out[i].date.value >= out[j].date.value
    ensures forall i, j :: 0 <= i < j < |out| && out[i].date.None? ==> out[j].date.None?
    ensures forall x, y ::
      x in Matching(rows, pick, value, q) && x.date.Some? && x !in out && y in out ==>
        y.date.Some? && y.date.value >= x.date.value
  {
    hide IsTop, AllPassing, Matching;
    var all := AllPassing(rows, q);
    var ordered := Select(all, |all|, ROW_DATE);
    out := [];
    assert ordered[..0] == [];
    var i := 0;
    while i < |ordered|
      invariant i <= |ordered| && |out| < AtLeastOne(limit)
      invariant out == Filter(ordered[..i], Matches(pick, value))
    {
      var row := ordered[i];
      assert ordered[..i + 1][..i] == ordered[..i];
      i := i + 1;
      if Matches(pick, value)(row) {
        out := out + [row];
        if |out| >= limit {
          break;
        }
      }
    }
    assert i == |ordered| ==> ordered[..i] == ordered;
    PrefixIsTop(rows, pick, value, q, ordered, i, out, AtLeastOne(limit));
    TopDates(out, Matching(rows, pick, value, q), AtLeastOne(limit));
  }

  lemma {:induction false} FilterKeepsOrder(s: seq<Row>, p: Row -> bool)
    requires Distinct(s) && NewestFirst(s, ROW_DATE)
    ensures Distinct(Filter(s, p)) && NewestFirst(Filter(s, p), ROW_DATE)
    decreases |s|
  {
    if s != [] {
      var front, last := s[..|s| - 1], s[|s| - 1];
      FilterKeepsOrder(front, p);
      FilterMembers(front, p);
      forall i | 0 <= i < |Filter(front, p)|
        ensures Filter(front, p)[i] != last && NoOlder(ROW_DATE(Filter(front, p)[i]), ROW_DATE(last))
      {
        assert Filter(front, p)[i] in front;
        var k :| 0 <= k < |front| && front[k] == Filter(front, p)[i];
        assert s[k] == front[k];
      }
    }
  }

  lemma MatchingIsFiltered(rows: Table, pick: Row -> seq<Bytes>, value: Bytes, q: Query)
    ensures forall r :: r in Matching(rows, pick, value, q) <==> r in AllPassing(rows, q) && Matches(pick, value)(r)
  {
  }

  lemma PrefixIsTop(rows: Table, pick: Row -> seq<Bytes>, value: Bytes, q: Query, ordered: seq<Row>, i: nat,
                    out: seq<Row>, limit: nat)
    requires i <= |ordered| && out == Filter(ordered[..i], Matches(pick, value)) && |out| <= limit
    requires IsTop(ordered, AllPassing(rows, q), |AllPassing(rows, q)|, ROW_DATE)
    requires |out| == limit || i == |ordered|
    ensures IsTop(out, Matching(rows, pick, value, q), limit, ROW_DATE)
  {
    hide NoOlder, Filter, AllPassing, Matching;
    var p := Matches(pick, value);
    var matching := Matching(rows, pick, value, q);
    DistinctFits(ordered, AllPassing(rows, q));
    FilterKeepsOrder(ordered[..i], p);
    FilterMembers(ordered[..i], p);
    MatchingIsFiltered(rows, pick, value, q);
    assert forall r :: r in matching <==> r in AllPassing(rows, q) && p(r);
    forall r | r in out ensures r in matching {
      assert r in ordered[..i] && r in ordered;
    }
    forall m | 0 <= m < i && p(ordered[m]) ensures ordered[m] in out {
      assert ordered[..i][m] == ordered[m];
    }
    forall x, y | x in matching && x !in out && y in out ensures NoOlder(ROW_DATE(y), ROW_DATE(x)) {
      var k :| 0 <= k < |ordered| && ordered[k] == x;
      var j :| 0 <= j < i && ordered[..i][j] == y;
      assert k >= i;
      assert NoOlder(ROW_DATE(ordered[j]), ROW_DATE(ordered[k]));
    }
    DistinctFits(out, matching);
    if i == |ordered| {
      assert ordered[..i] == ordered;
      DistinctSize(out);
      assert (set x | x in out) == matching;
    }
  }

  // ----- scan_eq ------------------------------------------------------------

  /** `scan_eq` on touched_functions: the fast path only when the index says it is complete. */
  method ScanFunctions(db: Db, value: Bytes, q: Query, limit: nat) returns (out: seq<Row>)
    requires Valid(db)
    ensures db.state == Complete ==> IsTop(out, Indexed(db.rows, FUNCTIONS, value, q), limit, ROW_DATE)
    ensures db.state != Complete ==> IsTop(out, Matching(db.rows, FUNCTIONS, value, q), AtLeastOne(limit), ROW_DATE)
    ensures forall i, j :: 0 <= i < j < |out| && out[i].date.Some? && out[j].date.Some? ==>
      out[i].date.value >= out[j].date.value
    ensures forall i, j :: 0 <= i < j < |out| && out[i].date.None? ==> out[j].date.None?
    ensures forall x, y ::
      x in Indexed(db.rows, FUNCTIONS, value, q) && x.date.Some? && x !in out && y in out ==>
        y.date.Some? && y.date.value >= x.date.value
  {
    hide IsTop, Indexed, Matching, Derived;
    IndexedMatch(db.rows, FUNCTIONS, value, q);
    if db.state != Complete {
      out := ScanSequential(db.rows, FUNCTIONS, value, q, limit);
    } else {
      out := ScanSide(db.rows, db.functions, db.lastId, FUNCTIONS, value, q, limit);
      TopDates(out, Indexed(db.rows, FUNCTIONS, value, q), limit);
    }
  }

  lemma IndexedMatch(rows: Table, pick: Row -> seq<Bytes>, value: Bytes, q: Query)
    ensures forall r :: r in Indexed(rows, pick, value, q) ==> r in Matching(rows, pick, value, q) && r.date.Some?
  {
  }

  /** `scan_eq` on touched_files: always the side table. */
  method ScanFiles(db: Db, value: Bytes, q: Query, limit: nat) returns (out: seq<Row>)
    requires Valid(db)
    ensures db.files <= Derived(db.rows, FILES) ==>
      IsTop(out, Found(db.rows, FILES, db.files, value, q), limit, ROW_DATE)
    ensures db.files == Derived(db.rows, FILES) ==> IsTop(out, Indexed(db.rows, FILES, value, q), limit, ROW_DATE)
    ensures db.files <= Derived(db.rows, FILES) ==> forall i, j ::
      0 <= i < j < |out| && out[i].date.Some? && out[j].date.Some? ==> out[i].date.value >= out[j].date.value
    ensures db.files <= Derived(db.rows, FILES) ==> forall x, y ::
      x in Found(db.rows, FILES, db.files, value, q) && x.date.Some? && x !in out && y in out ==>
        y.date.Some? && y.date.value >= x.date.value
    ensures db.files <= Derived(db.rows, FILES) ==> forall r :: r in out ==> r.date.Some?
    ensures Inner(db.files, value, q) == {} ==> out == []
  {
    out := ScanSide(db.rows, db.files, db.lastId, FILES, value, q, limit);
  }

  /** The two paths range over the same rows exactly when the value is not empty and no undated row matches. */
  lemma PathsRangeOverTheSame(rows: Table, pick: Row -> seq<Bytes>, value: Bytes, q: Query)
    ensures Indexed(rows, pick, value, q) == Matching(rows, pick, value, q)
       <==> forall r :: r in Matching(rows, pick, value, q) ==> value != [] && r.date.Some?
    ensures value != [] && (q.since.Some? || q.until.Some?) ==>
      Indexed(rows, pick, value, q) == Matching(rows, pick, value, q)
  {
  }

  lemma PrefixCovered<T(!new)>(a: seq<T>, b: seq<T>, all: set<T>, limit: nat, date: T -> Option<int>, i: nat)
    requires IsTop(a, all, limit, date) && IsTop(b, all, limit, date) && i < |a| && i < |b|
    requires !NoOlder(date(b[i]), date(a[i]))
    ensures forall x :: x in a[..i + 1] ==> x in b[..i]
  {
    forall x | x in a[..i + 1] ensures x in b[..i] {
      var k :| 0 <= k <= i && a[k] == x;
      assert x in a && b[i] in b;
      assert NoOlder(date(a[k]), date(a[i])) || k == i;
      assert !NoOlder(date(b[i]), date(x));
      assert x in b;
      var j :| 0 <= j < |b| && b[j] == x;
      assert j < i;
      assert b[..i][j] == x;
    }
  }

  /** Two answers to one query can differ among ties only: position by position their dates are the same. */
  lemma TopsAgreeOnDates<T(!new)>(a: seq<T>, b: seq<T>, all: set<T>, limit: nat, date: T -> Option<int>)
    requires IsTop(a, all, limit, date) && IsTop(b, all, limit, date)
    ensures |a| == |b| && forall i :: 0 <= i < |a| ==> date(a[i]) == date(b[i])
  {
    forall i | 0 <= i < |a| ensures date(a[i]) == date(b[i]) {
      TopIsNoNewer(a, b, all, limit, date, i);
      TopIsNoNewer(b, a, all, limit, date, i);
    }
  }

  lemma TopIsNoNewer<T(!new)>(a: seq<T>, b: seq<T>, all: set<T>, limit: nat, date: T -> Option<int>, i: nat)
    requires IsTop(a, all, limit, date) && IsTop(b, all, limit, date) && i < |a| && i < |b|
    ensures NoOlder(date(b[i]), date(a[i]))
  {
    hide NoOlder;
    if !NoOlder(date(b[i]), date(a[i])) {
      PrefixCovered(a, b, all, limit, date, i);
      DistinctFits(a[..i + 1], set x | x in b[..i]);
      DistinctSize(b[..i]);
      assert false;
    }
  }

  /**
    For a non-empty value and dated matches the index and the sequential scan give the same dates in the
    same order.
   */
  lemma IndexAgreesWithScan(rows: Table, pick: Row -> seq<Bytes>, value: Bytes, q: Query, limit: nat, fast: seq<Row>,
                            slow: seq<Row>)
    requires value != [] && limit > 0 && forall r :: r in Matching(rows, pick, value, q) ==> r.date.Some?
    requires IsTop(fast, Indexed(rows, pick, value, q), limit, ROW_DATE)
    requires IsTop(slow, Matching(rows, pick, value, q), AtLeastOne(limit), ROW_DATE)
    ensures |fast| == |slow| && forall i :: 0 <= i < |fast| ==> fast[i].date == slow[i].date
  {
    hide IsTop, Matching, Indexed;
    PathsRangeOverTheSame(rows, pick, value, q);
    TopsAgreeOnDates(fast, slow, Matching(rows, pick, value, q), limit, ROW_DATE);
    assert forall r :: ROW_DATE(r) == r.date;
  }

  /**
    The file path has no readiness flag: on a database whose file table was never filled it answers
    nothing, where the sequential scan would answer.
   */
  lemma UnfilledFileIndexMisses()
    ensures var row := Row(Key([1], [2]), Some(5), [[3]], [], []);
      var db := Db(map[1 := row], 1, {}, {}, Absent);
      Legacy(db) && Inner(db.files, [3], Query(None, None, None)) == {}
      && row in Matching(db.rows, FILES, [3], Query(None, None, None))
  {
    var row := Row(Key([1], [2]), Some(5), [[3]], [], []);
    var rows: Table := map[1 := row];
    assert 1 in rows && [3] in FILES(rows[1]);
  }

  // ----- Cross-posts --------------------------------------------------------

  /** A missing date counts as the smallest one. */
  function DateOrMin(r: Row): int {
    if r.date.Some? then r.date.value else I64_MIN
  }

  function Freshest(a: Row, b: Row): Row {
    if DateOrMin(b) > DateOrMin(a) then b else a
  }

  function WithMid(rows: Table, mid: Bytes): set<Row> {
    set id | id in rows && rows[id].key.mid == mid :: rows[id]
  }

  /** No other row has a later date; no date counts as the smallest there is. */
  ghost predicate IsFreshest(r: Row, all: set<Row>) {
    && r in all
    && (forall x :: x in all && x.date.Some? && r.date.Some? ==> x.date.value <= r.date.value)
    && (forall x :: x in all && x.date.Some? && r.date.None? ==> x.date.value <= -0x8000_0000_0000_0000)
    && (forall x :: x in all && x.date.None? && r.date.Some? ==> -0x8000_0000_0000_0000 <= r.date.value)
  }

  /** `get`: the rows come in no particular order. */
  method Get(rows: Table, mid: Bytes) returns (best: Option<Row>)
    ensures best.None? <==> WithMid(rows, mid) == {}
    ensures best.Some? ==> IsFreshest(best.value, WithMid(rows, mid))
  {
    hide WithMid;
    best := None;
    var left := WithMid(rows, mid);
    while left != {}
      invariant left <= WithMid(rows, mid)
      invariant best.None? <==> left == WithMid(rows, mid)
      invariant best.Some? ==> best.value in WithMid(rows, mid)
      invariant best.Some? ==> forall x :: x in WithMid(rows, mid) && x !in left ==>
        DateOrMin(x) <= DateOrMin(best.value)
      decreases |left|
    {
      var row :| row in left;
      left := left - {row};
      best := Some(if best.Some? then Freshest(best.value, row) else row);
    }
  }

  function MergeFreshest(found: map<Bytes, Row>, row: Row): map<Bytes, Row> {
    found[row.key.mid := if row.key.mid in found then Freshest(found[row.key.mid], row) else row]
  }

  /** The rows read so far, collapsed by id. */
  ghost predicate Collapsed(seen: set<Row>, found: map<Bytes, Row>) {
    && (forall r :: r in seen ==> r.key.mid in found && DateOrMin(r) <= DateOrMin(found[r.key.mid]))
    && (forall mid :: mid in found ==> found[mid] in seen && found[mid].key.mid == mid)
  }

  lemma CollapsedStep(seen: set<Row>, found: map<Bytes, Row>, row: Row)
    requires Collapsed(seen, found)
    ensures Collapsed(seen + {row}, MergeFreshest(found, row))
  {
  }

  function Asked(rows: Table, mids: seq<Bytes>): set<Row> {
    set id | id in rows && rows[id].key.mid in mids :: rows[id]
  }

  /** `get_many`: IN lists of at most 999 ids; a row met again in a later list changes nothing. */
  method GetMany(rows: Table, mids: seq<Bytes>) returns (found: map<Bytes, Row>)
    ensures forall mid :: mid in found <==> mid in mids && WithMid(rows, mid) != {}
    ensures forall mid :: mid in found ==> IsFreshest(found[mid], WithMid(rows, mid))
  {
    hide Collapsed, Asked, MergeFreshest, WithMid, IsFreshest;
    found := map[];
    ghost var seen: set<Row> := {};
    NothingCollapsed();
    NothingAsked(rows);
    var i := 0;
    assert mids[..0] == [];
    while i < |mids|
      invariant i <= |mids| && seen == Asked(rows, mids[..i]) && Collapsed(seen, found)
    {
      var n := Min(SQLITE_PARAM_LIMIT, |mids| - i);
      var chunk := mids[i..i + n];
      var left := Asked(rows, chunk);
      ghost var before := seen;
      while left != {}
        invariant left <= Asked(rows, chunk) && Collapsed(seen, found)
        invariant seen == before + (Asked(rows, chunk) - left)
        decreases |left|
      {
        var row :| row in left;
        CollapsedStep(seen, found, row);
        found := MergeFreshest(found, row);
        seen := seen + {row};
        left := left - {row};
      }
      AskedAppend(rows, mids[..i], chunk);
      assert mids[..i + n] == mids[..i] + chunk;
      i := i + n;
    }
    assert mids[..i] == mids;
    CollapsedIsFreshest(rows, mids, found);
  }

  lemma NothingCollapsed()
    ensures Collapsed({}, map[])
  {
  }

  lemma NothingAsked(rows: Table)
    ensures Asked(rows, []) == {}
  {
  }

  lemma AskedAppend(rows: Table, a: seq<Bytes>, b: seq<Bytes>)
    ensures Asked(rows, a + b) == Asked(rows, a) + Asked(rows, b)
  {
  }

  lemma CollapsedIsFreshest(rows: Table, mids: seq<Bytes>, found: map<Bytes, Row>)
    requires Collapsed(Asked(rows, mids), found)
    ensures forall mid :: mid in found <==> mid in mids && WithMid(rows, mid) != {}
    ensures forall mid :: mid in found ==> IsFreshest(found[mid], WithMid(rows, mid))
  {
    forall r ensures r in Asked(rows, mids) <==> r.key.mid in mids && r in WithMid(rows, r.key.mid) {
    }
    forall mid, r | r in WithMid(rows, mid) ensures r.key.mid == mid {
    }
    forall mid | mid in mids && WithMid(rows, mid) != {} ensures mid in found {
      var r :| r in WithMid(rows, mid);
    }
  }

  /** `filters_ok`: unlike SQL it lets an undated row pass a lower bound of `i64::MIN`. */
  predicate FiltersOk(r: Row, q: Query) {
    && (q.since.Some? ==> DateOrMin(r) >= q.since.value)
    && (q.until.Some? ==> (if r.date.Some? then r.date.value else I64_MAX) < q.until.value)
    && (q.list.Some? ==> r.key.list == q.list.value)
  }

  /** In numbers: a missing date counts as the smallest against a lower bound, as the largest against an upper one. */
  lemma FiltersMean(r: Row, q: Query)
    ensures FiltersOk(r, q)
       <==> && (q.since.Some? ==> q.since.value <= if r.date.Some? then r.date.value else -0x8000_0000_0000_0000)
            && (q.until.Some? ==> (if r.date.Some? then r.date.value else 0x7FFF_FFFF_FFFF_FFFF) < q.until.value)
            && (q.list.Some? ==> q.list == Some(r.key.list))
  {
  }

  /** The answer to a query by message id: a freshest cross-post, if that one passes the filters. */
  ghost predicate IsMidAnswer(rows: Table, mid: Bytes, q: Query, out: seq<Row>) {
    if WithMid(rows, mid) == {} then out == []
    else exists r :: IsFreshest(r, WithMid(rows, mid)) && out == if FiltersOk(r, q) then [r] else []
  }

  /** `scan_eq` on a message id: the filters see the freshest cross-post only, and the limit is not looked at. */
  method ScanMessageId(rows: Table, mid: Bytes, q: Query) returns (out: seq<Row>)
    ensures IsMidAnswer(rows, mid, q, out)
  {
    hide WithMid;
    var best := Get(rows, mid);
    if best.Some? && FiltersOk(best.value, q) {
      return [best.value];
    }
    return [];
  }

  ghost predicate NoTies(all: set<Row>) {
    forall a, b :: a in all && b in all && DateOrMin(a) == DateOrMin(b) ==> a == b
  }

  /**
    Among cross-posts with different dates, one that passes the filters is returned exactly if it is the
    freshest; so the answer is empty although some pass exactly if the freshest one does not.
   */
  lemma CrossPostIsMissedExactly(rows: Table, mid: Bytes, q: Query, out: seq<Row>)
    requires IsMidAnswer(rows, mid, q, out) && NoTies(WithMid(rows, mid))
    ensures forall r :: r in WithMid(rows, mid) && FiltersOk(r, q) ==> (r in out <==> IsFreshest(r, WithMid(rows, mid)))
    ensures WithMid(rows, mid) != {} ==>
      (out == [] <==> exists r :: IsFreshest(r, WithMid(rows, mid)) && !FiltersOk(r, q))
  {
    hide WithMid, FiltersOk;
    if WithMid(rows, mid) != {} {
      var f :| IsFreshest(f, WithMid(rows, mid)) && out == if FiltersOk(f, q) then [f] else [];
      forall r | IsFreshest(r, WithMid(rows, mid)) ensures r == f {
        assert DateOrMin(r) == DateOrMin(f);
      }
    }
  }

  /** So an older cross-post in the wanted list does not show. */
  lemma FresherCrossPostHides(a: Row, b: Row)
    requires a.key.mid == b.key.mid && a.key.list != b.key.list && DateOrMin(a) < DateOrMin(b)
    ensures var rows: Table := map[1 := a, 2 := b];
      var q := Query(None, None, Some(a.key.list));
      a in WithMid(rows, a.key.mid) && FiltersOk(a, q)
      && (forall r :: IsFreshest(r, WithMid(rows, a.key.mid)) ==> !FiltersOk(r, q))
  {
    var rows: Table := map[1 := a, 2 := b];
    assert rows[1] == a && rows[2] == b;
  }
}
