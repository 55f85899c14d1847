/** Thread ids: parent walk and fallback. */
module Tid {
  import opened Base
  import opened Sorting

  const FALLBACK_WINDOW_NS: int := 30 * 24 * 3600 * 1_000_000_000
  const PARQUET_BATCH_ROWS: nat := 100_000

  datatype Lite = Lite(mid: Mid, list: Bytes, inReplyTo: Option<Mid>, firstReference: Option<Mid>,
                       subject: Option<Bytes>, from: Option<Bytes>, date: Option<int>, cover: bool, tid: Mid)

  // ----- Parents ------------------------------------------------------------

  /** `by_mid`: where a message is; the last row wins if an id occurs twice. */
  function ByMid(rows: seq<Lite>): (m: map<Mid, nat>)
    ensures forall mid :: mid in m ==> m[mid] < |rows| && rows[m[mid]].mid == mid
    ensures forall i :: 0 <= i < |rows| ==> rows[i].mid in m
  {
    if rows == [] then map[] else ByMid(rows[..|rows| - 1])[rows[|rows| - 1].mid := |rows| - 1]
  }

  function DeclaredParent(r: Lite): Option<Mid> {
    if r.inReplyTo.Some? then r.inReplyTo else r.firstReference
  }

  /** The parent the walk can move to: declared, and itself in the corpus. */
  function Parent(rows: seq<Lite>, mid: Mid): Option<Mid> {
    var index := ByMid(rows);
    if mid !in index then None
    else
      var p := DeclaredParent(rows[index[mid]]);
      if p.Some? && p.value in index then p else None
  }

  function Ids(rows: seq<Lite>): set<Mid> {
    ByMid(rows).Keys
  }

  lemma ParentIsAnId(rows: seq<Lite>, mid: Mid)
    ensures Parent(rows, mid).Some? ==> Parent(rows, mid).value in Ids(rows)
  {
  }

  /** Where the walk stands when it stops: at a message without parent, or whose parent it has seen. */
  function Top(rows: seq<Lite>, mid: Mid, visited: set<Mid>): (top: Mid)
    requires mid in visited && visited <= Ids(rows)
    ensures top in visited || top in Ids(rows)
    decreases |Ids(rows) - visited|
  {
    match Parent(rows, mid)
    case None => mid
    case Some(p) =>
      if p in visited then mid
      else
        ParentIsAnId(rows, mid);
        assert Ids(rows) - visited == (Ids(rows) - (visited + {p})) + {p};
        Top(rows, p, visited + {p})
  }

  // ----- Fallback -----------------------------------------------------------

  datatype Key = Key(list: Bytes, subject: Bytes, from: Bytes)

  function KeyOf(r: Lite): Option<Key> {
    if r.subject.None? then None
    else Some(Key(r.list, r.subject.value, if r.from.Some? then r.from.value else []))
  }

  datatype Entry = Entry(date: int, mid: Mid, row: nat)

  function BucketDate(r: Lite): int {
    if r.date.Some? then r.date.value else 0
  }

  /** The bucket of `key` in row order; `row` records that order. */
  function Entries(rows: seq<Lite>, key: Key): seq<Entry> {
    if rows == [] then []
    else
      var r := rows[|rows| - 1];
      Entries(rows[..|rows| - 1], key)
      + if KeyOf(r) == Some(key) then [Entry(BucketDate(r), r.mid, |rows| - 1)] else []
  }

  const BY_DATE: (Entry, Entry) -> bool := (a: Entry, b: Entry) => a.date <= b.date

  function Bucket(rows: seq<Lite>, key: Key): seq<Entry> {
    Sort(Entries(rows, key), BY_DATE)
  }

  /** `saturating_sub` on 64-bit integers. */
  function WindowStart(date: Option<int>): int {
    var d := if date.Some? then date.value else I64_MIN;
    if d - FALLBACK_WINDOW_NS < I64_MIN then I64_MIN else d - FALLBACK_WINDOW_NS
  }

  function WindowEnd(date: Option<int>): int {
    if date.Some? then date.value else I64_MAX
  }

  predicate InWindow(date: Option<int>, e: Entry) {
    WindowStart(date) <= e.date <= WindowEnd(date)
  }

  function FirstInWindow(bucket: seq<Entry>, date: Option<int>): Option<Entry> {
    if bucket == [] then None
    else if InWindow(date, bucket[0]) then Some(bucket[0])
    else FirstInWindow(bucket[1..], date)
  }

  function Fallback(rows: seq<Lite>, r: Lite): Mid {
    match KeyOf(r)
    case None => r.mid
    case Some(key) =>
      match FirstInWindow(Bucket(rows, key), r.date)
      case None => r.mid
      case Some(e) => e.mid
  }

  /** `resolve_tid_lite`. */
  function TidOf(rows: seq<Lite>, i: nat): Mid
    requires i < |rows|
  {
    var top := Top(rows, rows[i].mid, {rows[i].mid});
    if top != rows[i].mid then top else Fallback(rows, rows[i])
  }

  function Assigned(rows: seq<Lite>): (r: seq<Lite>)
    ensures |r| == |rows|
    ensures forall i :: 0 <= i < |rows| ==> r[i] == rows[i].(tid := TidOf(rows, i))
  {
    seq(|rows|, i requires 0 <= i < |rows| => rows[i].(tid := TidOf(rows, i)))
  }

  // ----- The loops ----------------------------------------------------------

  /** The walk: follow parents until there is none in the corpus, or it has been seen. */
  method WalkUp(rows: seq<Lite>, mid: Mid, byMid: map<Mid, nat>) returns (current: Mid)
    requires byMid == ByMid(rows) && mid in byMid
    ensures current == Top(rows, mid, {mid})
  {
    hide ByMid;
    current := mid;
    var visited := {current};
    while current in byMid
      invariant current in visited && visited <= Ids(rows)
      invariant Top(rows, current, visited) == Top(rows, mid, {mid})
      decreases |Ids(rows) - visited|
    {
      var parent := DeclaredParent(rows[byMid[current]]);
      if parent.None? || parent.value !in byMid || parent.value in visited {
        break;
      }
      SmallerRest(Ids(rows), visited, parent.value);
      visited := visited + {parent.value};
      current := parent.value;
    }
  }

  lemma SmallerRest(all: set<Mid>, visited: set<Mid>, p: Mid)
    requires p in all && p !in visited
    ensures |all - (visited + {p})| < |all - visited|
  {
    assert all - visited == (all - (visited + {p})) + {p};
  }

  method SearchBucket(bucket: seq<Entry>, date: Option<int>) returns (e: Option<Entry>)
    ensures e == FirstInWindow(bucket, date)
  {
    var k := 0;
    assert bucket[0..] == bucket;
    while k < |bucket|
      invariant k <= |bucket| && FirstInWindow(bucket[k..], date) == FirstInWindow(bucket, date)
    {
      if InWindow(date, bucket[k]) {
        return Some(bucket[k]);
      }
      k := k + 1;
    }
    return None;
  }

  /** The two maps built before resolving. */
  ghost predicate Indexed(rows: seq<Lite>, byMid: map<Mid, nat>, buckets: map<Key, seq<Entry>>) {
    && byMid == ByMid(rows)
    && (forall key :: key in buckets ==> buckets[key] == Bucket(rows, key))
    && (forall j :: 0 <= j < |rows| && KeyOf(rows[j]).Some? ==> KeyOf(rows[j]).value in buckets)
  }

  method ResolveTid(rows: seq<Lite>, i: nat, byMid: map<Mid, nat>, buckets: map<Key, seq<Entry>>) returns (tid: Mid)
    requires i < |rows| && Indexed(rows, byMid, buckets)
    ensures tid == TidOf(rows, i)
  {
    var row := rows[i];
    var current := WalkUp(rows, row.mid, byMid);
    if current != row.mid {
      return current;
    }
    var key := KeyOf(row);
    if key.Some? && key.value in buckets {
      var e := SearchBucket(buckets[key.value], row.date);
      if e.Some? {
        return e.value.mid;
      }
    }
    return row.mid;
  }

  /** Buckets filled in row order, before sorting. */
  ghost predicate Filled(rows: seq<Lite>, buckets: map<Key, seq<Entry>>) {
    && (forall key :: key in buckets ==> buckets[key] == Entries(rows, key))
    && (forall key :: key !in buckets ==> Entries(rows, key) == [])
    && (forall j :: 0 <= j < |rows| && KeyOf(rows[j]).Some? ==> KeyOf(rows[j]).value in buckets)
  }

  function PutEntry(buckets: map<Key, seq<Entry>>, r: Lite, i: nat): map<Key, seq<Entry>> {
    match KeyOf(r)
    case None => buckets
    case Some(key) =>
      buckets[key := (if key in buckets then buckets[key] else []) + [Entry(BucketDate(r), r.mid, i)]]
  }

  lemma FilledStep(rows: seq<Lite>, buckets: map<Key, seq<Entry>>, r: Lite)
    requires Filled(rows, buckets)
    ensures Filled(rows + [r], PutEntry(buckets, r, |rows|))
  {
    assert (rows + [r])[..|rows|] == rows;
  }

  method BuildIndex(rows: seq<Lite>) returns (byMid: map<Mid, nat>, buckets: map<Key, seq<Entry>>)
    ensures Indexed(rows, byMid, buckets)
  {
    hide Filled, PutEntry, ByMid, Entries, Sort, SortAll, Indexed;
    byMid, buckets := map[], map[];
    var i := 0;
    NothingFilled();
    assert rows[..0] == [];
    assert ByMid([]) == map[];
    while i < |rows|
      invariant i <= |rows| && byMid == ByMid(rows[..i]) && Filled(rows[..i], buckets)
    {
      assert rows[..i + 1] == rows[..i] + [rows[i]];
      FilledStep(rows[..i], buckets, rows[i]);
      ByMidStep(rows[..i], rows[i]);
      byMid := byMid[rows[i].mid := i];
      buckets := PutEntry(buckets, rows[i], i);
      i := i + 1;
    }
    assert rows[..i] == rows;
    FilledToIndexed(rows, buckets);
    buckets := SortAll(buckets);
  }

  function SortAll(buckets: map<Key, seq<Entry>>): map<Key, seq<Entry>> {
    map key | key in buckets :: Sort(buckets[key], BY_DATE)
  }

  lemma ByMidStep(rows: seq<Lite>, r: Lite)
    ensures ByMid(rows + [r]) == ByMid(rows)[r.mid := |rows|]
  {
    assert (rows + [r])[..|rows|] == rows;
  }

  lemma NothingFilled()
    ensures Filled([], map[])
  {
  }

  lemma FilledToIndexed(rows: seq<Lite>, buckets: map<Key, seq<Entry>>)
    requires Filled(rows, buckets)
    ensures Indexed(rows, ByMid(rows), SortAll(buckets))
  {
  }

  /** Resolve every row against the untouched rows, then write the results in place. */
  method AssignTids(rows: array<Lite>)
    modifies rows
    ensures rows[..] == Assigned(old(rows[..]))
  {
    hide Indexed, TidOf, Assigned;
    ghost var before := rows[..];
    var byMid, buckets := BuildIndex(rows[..]);
    var resolved: seq<Mid> := [];
    var i := 0;
    while i < rows.Length
      invariant i <= rows.Length && |resolved| == i && rows[..] == before
      invariant forall j :: 0 <= j < i ==> resolved[j] == TidOf(before, j)
    {
      var tid := ResolveTid(rows[..], i, byMid, buckets);
      resolved := resolved + [tid];
      i := i + 1;
    }
    i := 0;
    while i < rows.Length
      invariant i <= rows.Length
      invariant forall j :: 0 <= j < i ==> rows[j] == before[j].(tid := TidOf(before, j))
      invariant forall j :: i <= j < rows.Length ==> rows[j] == before[j]
    {
      rows[i] := rows[i].(tid := resolved[i]);
      i := i + 1;
    }
  }

  // ----- The chain ----------------------------------------------------------

  /** The ancestor `k` steps up, if there is one. */
  function Climb(rows: seq<Lite>, mid: Mid, k: nat): Option<Mid>
    decreases k
  {
    if k == 0 then Some(mid)
    else
      match Parent(rows, mid)
      case None => None
      case Some(p) => Climb(rows, p, k - 1)
  }

  /** `root` is the topmost in-corpus ancestor of `mid`, `k` steps up. */
  ghost predicate RootAt(rows: seq<Lite>, mid: Mid, k: nat, root: Mid) {
    Climb(rows, mid, k) == Some(root) && Parent(rows, root) == None
  }

  lemma {:induction false} RootIsUnique(rows: seq<Lite>, mid: Mid, k: nat, root: Mid, k': nat, root': Mid)
    requires RootAt(rows, mid, k, root) && RootAt(rows, mid, k', root')
    ensures k == k' && root == root'
    decreases k
  {
    if k > 0 && k' > 0 {
      var p := Parent(rows, mid).value;
      RootIsUnique(rows, p, k - 1, root, k' - 1, root');
    }
  }

  lemma {:induction false} ClimbToRoot(rows: seq<Lite>, mid: Mid, visited: set<Mid>, k: nat, root: Mid)
    requires mid in visited && visited <= Ids(rows) && RootAt(rows, mid, k, root)
    requires forall v :: v in visited ==> exists n: nat :: n >= k && RootAt(rows, v, n, root)
    ensures Top(rows, mid, visited) == root
    decreases k
  {
    hide ByMid;
    if k > 0 {
      var p := Parent(rows, mid).value;
      ParentIsAnId(rows, mid);
      assert RootAt(rows, p, k - 1, root);
      if p in visited {
        var n: nat :| n >= k && RootAt(rows, p, n, root);
        RootIsUnique(rows, p, k - 1, root, n, root);
      } else {
        assert forall v :: v in visited + {p} ==> exists n: nat :: n >= k - 1 && RootAt(rows, v, n, root);
        ClimbToRoot(rows, p, visited + {p}, k - 1, root);
      }
    }
  }

  /** A message whose chain ends gets its unique topmost in-corpus ancestor. */
  lemma AcyclicGetsItsRoot(rows: seq<Lite>, i: nat, k: nat, root: Mid)
    requires i < |rows| && RootAt(rows, rows[i].mid, k, root) && k > 0
    ensures TidOf(rows, i) == root
    ensures forall n: nat, r :: RootAt(rows, rows[i].mid, n, r) ==> n == k && r == root
  {
    var mid := rows[i].mid;
    assert RootAt(rows, mid, k, root);
    ClimbToRoot(rows, mid, {mid}, k, root);
    forall n: nat, r | RootAt(rows, mid, n, r) ensures n == k && r == root {
      RootIsUnique(rows, mid, n, r, k, root);
    }
    assert Parent(rows, mid).Some?;
  }

  ghost predicate IsChain(rows: seq<Lite>, path: seq<Mid>, mid: Mid, top: Mid) {
    && path != [] && path[0] == mid && path[|path| - 1] == top && Distinct(path)
    && forall j :: 0 <= j < |path| - 1 ==> Parent(rows, path[j]) == Some(path[j + 1])
  }

  lemma LongerChain(rows: seq<Lite>, path: seq<Mid>, mid: Mid, top: Mid, p: Mid)
    requires IsChain(rows, path, mid, top) && Parent(rows, top) == Some(p) && p !in path
    ensures IsChain(rows, path + [p], mid, p)
  {
  }

  /** On any parent map the walk ends at the end of a chain without repetition that cannot be extended. */
  lemma {:induction false} TopEndsAChain(rows: seq<Lite>, start: Mid, mid: Mid, visited: set<Mid>, before: seq<Mid>)
    returns (path: seq<Mid>)
    requires mid in visited && visited <= Ids(rows)
    requires IsChain(rows, before, start, mid) && forall v :: v in visited <==> v in before
    ensures var top := Top(rows, mid, visited);
      && IsChain(rows, path, start, top)
      && (Parent(rows, top) == None || Parent(rows, top).value in path)
    decreases |Ids(rows) - visited|
  {
    hide ByMid, IsChain, Parent;
    path := before;
    var parent := Parent(rows, mid);
    if parent.Some? && parent.value !in visited {
      var p := parent.value;
      ParentIsAnId(rows, mid);
      SmallerRest(Ids(rows), visited, p);
      LongerChain(rows, before, start, mid, p);
      path := TopEndsAChain(rows, start, p, visited + {p}, before + [p]);
    }
  }

  lemma TidIsAnId(rows: seq<Lite>, i: nat)
    requires i < |rows|
    ensures TidOf(rows, i) in Ids(rows)
  {
    FallbackIsAnId(rows, rows[i]);
  }

  lemma FallbackIsAnId(rows: seq<Lite>, r: Lite)
    requires r.mid in Ids(rows)
    ensures Fallback(rows, r) in Ids(rows)
  {
    var key := KeyOf(r);
    if key.Some? {
      var bucket := Bucket(rows, key.value);
      var e := FirstInWindow(bucket, r.date);
      if e.Some? {
        FirstInWindowIsThere(bucket, r.date);
        SortMember(Entries(rows, key.value), BY_DATE, e.value);
        EntryIsARow(rows, key.value, e.value);
      }
    }
  }

  lemma FirstInWindowIsThere(bucket: seq<Entry>, date: Option<int>)
    ensures var e := FirstInWindow(bucket, date);
      && (e.Some? ==> e.value in bucket && InWindow(date, e.value))
      && (e.None? ==> forall x :: x in bucket ==> !InWindow(date, x))
  {
  }

  ghost predicate IsEntryOf(rows: seq<Lite>, key: Key, e: Entry) {
    e.row < |rows| && KeyOf(rows[e.row]) == Some(key) && e == Entry(BucketDate(rows[e.row]), rows[e.row].mid, e.row)
  }

  lemma {:induction false} EntryIsARow(rows: seq<Lite>, key: Key, e: Entry)
    ensures e in Entries(rows, key) <==> IsEntryOf(rows, key, e)
    decreases |rows|
  {
    if rows != [] {
      EntryIsARow(rows[..|rows| - 1], key, e);
    }
  }

  // ----- In terms of the headers --------------------------------------------

  ghost predicate DistinctIds(rows: seq<Lite>) {
    forall i, j :: 0 <= i < j < |rows| ==> rows[i].mid != rows[j].mid
  }

  /** With distinct ids the index knows every row by its own id. */
  lemma IndexOf(rows: seq<Lite>, i: nat)
    requires DistinctIds(rows) && i < |rows|
    ensures rows[i].mid in ByMid(rows) && ByMid(rows)[rows[i].mid] == i
  {
    var j := ByMid(rows)[rows[i].mid];
    assert rows[j].mid == rows[i].mid;
  }

  lemma KnownIds(rows: seq<Lite>, p: Mid)
    ensures p in ByMid(rows) <==> exists j :: 0 <= j < |rows| && rows[j].mid == p
  {
  }

  /**
    What the walk follows: In-Reply-To decides when there is one, even if it leads out of the corpus;
    the first reference counts only without it.
   */
  lemma ParentIs(rows: seq<Lite>, i: nat, p: Mid)
    requires DistinctIds(rows) && i < |rows|
    ensures Parent(rows, rows[i].mid) == Some(p)
       <==> && (exists j :: 0 <= j < |rows| && rows[j].mid == p)
            && (rows[i].inReplyTo == Some(p) || (rows[i].inReplyTo == None && rows[i].firstReference == Some(p)))
  {
    IndexOf(rows, i);
    KnownIds(rows, p);
  }

  /** A reply to a message without headers of its own joins that message's thread, whatever it references. */
  lemma ReplyJoinsItsParent(rows: seq<Lite>, i: nat, j: nat)
    requires DistinctIds(rows) && i < |rows| && j < |rows| && i != j
    requires rows[i].inReplyTo == Some(rows[j].mid) && rows[j].inReplyTo == None && rows[j].firstReference == None
    ensures Assigned(rows)[i].tid == rows[j].mid
  {
    OneStepUp(rows, i, j);
  }

  /** Without In-Reply-To the first reference decides in the same way. */
  lemma FirstReferenceStandsIn(rows: seq<Lite>, i: nat, j: nat)
    requires DistinctIds(rows) && i < |rows| && j < |rows| && i != j
    requires rows[i].inReplyTo == None && rows[i].firstReference == Some(rows[j].mid)
    requires rows[j].inReplyTo == None && rows[j].firstReference == None
    ensures Assigned(rows)[i].tid == rows[j].mid
  {
    OneStepUp(rows, i, j);
  }

  lemma OneStepUp(rows: seq<Lite>, i: nat, j: nat)
    requires DistinctIds(rows) && i < |rows| && j < |rows| && i != j
    requires rows[i].inReplyTo == Some(rows[j].mid)
      || (rows[i].inReplyTo == None && rows[i].firstReference == Some(rows[j].mid))
    requires rows[j].inReplyTo == None && rows[j].firstReference == None
    ensures TidOf(rows, i) == rows[j].mid
  {
    hide Parent, ByMid, TidOf;
    ParentIs(rows, i, rows[j].mid);
    if Parent(rows, rows[j].mid).Some? {
      ParentIs(rows, j, Parent(rows, rows[j].mid).value);
    }
    assert Climb(rows, rows[j].mid, 0) == Some(rows[j].mid);
    assert Climb(rows, rows[i].mid, 1) == Some(rows[j].mid);
    AcyclicGetsItsRoot(rows, i, 1, rows[j].mid);
  }

  /** A message whose In-Reply-To leads out of the corpus is a root, even if its first reference is there. */
  lemma DanglingReplyIsARoot(rows: seq<Lite>, i: nat)
    requires DistinctIds(rows) && i < |rows| && rows[i].inReplyTo.Some?
    requires forall j :: 0 <= j < |rows| ==> rows[j].mid != rows[i].inReplyTo.value
    ensures Assigned(rows)[i].tid == Fallback(rows, rows[i])
  {
    hide ByMid, Fallback;
    if Parent(rows, rows[i].mid).Some? {
      ParentIs(rows, i, Parent(rows, rows[i].mid).value);
    }
  }

  // ----- Who agrees with its parent -----------------------------------------

  /** `a` is a proper in-corpus ancestor of `mid`; on a cycle a message is its own ancestor. */
  ghost predicate Ancestor(rows: seq<Lite>, mid: Mid, a: Mid) {
    exists k: nat :: k > 0 && Climb(rows, mid, k) == Some(a)
  }

  lemma {:induction false} ClimbAdd(rows: seq<Lite>, mid: Mid, a: nat, b: nat)
    requires Climb(rows, mid, a).Some?
    ensures Climb(rows, mid, a + b) == Climb(rows, Climb(rows, mid, a).value, b)
    decreases a
  {
    if a > 0 {
      ClimbAdd(rows, Parent(rows, mid).value, a - 1, b);
    }
  }

  lemma {:induction false} ChainClimbs(rows: seq<Lite>, path: seq<Mid>, mid: Mid, top: Mid, j: nat)
    requires IsChain(rows, path, mid, top) && j < |path|
    ensures Climb(rows, mid, j) == Some(path[j])
    decreases j
  {
    hide Parent, Distinct;
    if j > 0 {
      ChainClimbs(rows, path, mid, top, j - 1);
      ClimbAdd(rows, mid, j - 1, 1);
      assert Parent(rows, path[j - 1]) == Some(path[j - 1 + 1]);
      assert Climb(rows, path[j], 0) == Some(path[j]);
    }
  }

  /** A cycle through `mid` of `n` messages. */
  ghost predicate Period(rows: seq<Lite>, mid: Mid, n: nat) {
    && n > 0 && Climb(rows, mid, n) == Some(mid)
    && forall j: nat :: 0 < j < n ==> Climb(rows, mid, j) != Some(mid)
  }

  lemma {:induction false} PeriodExists(rows: seq<Lite>, mid: Mid, k: nat) returns (n: nat)
    requires k > 0 && Climb(rows, mid, k) == Some(mid)
    ensures Period(rows, mid, n) && n <= k
    decreases k
  {
    if j: nat :| 0 < j < k && Climb(rows, mid, j) == Some(mid) {
      n := PeriodExists(rows, mid, j);
    } else {
      n := k;
    }
  }

  lemma {:induction false} BeforeReturn(rows: seq<Lite>, mid: Mid, n: nat, k: nat)
    requires Period(rows, mid, n) && Climb(rows, mid, k + 1) == Some(mid)
    ensures Climb(rows, mid, k) == Climb(rows, mid, n - 1)
    decreases k
  {
    if k + 1 > n {
      ClimbAdd(rows, mid, n, k + 1 - n);
      ClimbAdd(rows, mid, n, k - n);
      BeforeReturn(rows, mid, n, k - n);
    }
  }

  /** A chain that returns to itself returns to its first message, when that is on a cycle. */
  lemma ChainRunsRound(rows: seq<Lite>, path: seq<Mid>, mid: Mid, top: Mid, n: nat)
    requires IsChain(rows, path, mid, top) && Period(rows, mid, n)
    requires Parent(rows, top) == None || Parent(rows, top).value in path
    ensures |path| == n
  {
    hide Parent;
    var m := |path|;
    ChainClimbs(rows, path, mid, top, m - 1);
    ClimbAdd(rows, mid, m - 1, 1);
    if n < m {
      ChainClimbs(rows, path, mid, top, n);
    } else if m < n {
      ClimbAdd(rows, mid, m - 1, n - (m - 1));
      var q := Parent(rows, top).value;
      var a :| 0 <= a < m && path[a] == q;
      ChainClimbs(rows, path, mid, top, a);
      assert Climb(rows, q, 0) == Some(q);
      ClimbAdd(rows, mid, m, n - m);
      ClimbAdd(rows, mid, a, n - m);
    }
  }

  /** A message on a cycle of two or more gets its predecessor on the cycle: the message it is the parent of. */
  lemma CycleMemberGetsItsPredecessor(rows: seq<Lite>, i: nat, p: Mid)
    requires i < |rows| && p != rows[i].mid
    requires Parent(rows, p) == Some(rows[i].mid) && Ancestor(rows, rows[i].mid, p)
    ensures TidOf(rows, i) == p
  {
    hide Parent, ByMid, Fallback;
    var mid := rows[i].mid;
    var k: nat :| k > 0 && Climb(rows, mid, k) == Some(p);
    ClimbAdd(rows, mid, k, 1);
    assert Climb(rows, mid, 0) == Some(mid);
    var n := PeriodExists(rows, mid, k + 1);
    BeforeReturn(rows, mid, n, k);
    var path := TopEndsAChain(rows, mid, mid, {mid}, [mid]);
    var top := Top(rows, mid, {mid});
    ChainRunsRound(rows, path, mid, top, n);
    ChainClimbs(rows, path, mid, top, n - 1);
  }

  /** Every message on a cycle of two or more has such a predecessor, so its thread id is never its own. */
  lemma CycleMemberLosesItself(rows: seq<Lite>, i: nat)
    requires i < |rows| && Ancestor(rows, rows[i].mid, rows[i].mid) && Parent(rows, rows[i].mid) != Some(rows[i].mid)
    ensures TidOf(rows, i) != rows[i].mid
    ensures Parent(rows, TidOf(rows, i)) == Some(rows[i].mid) && Ancestor(rows, rows[i].mid, TidOf(rows, i))
  {
    hide Parent, ByMid, Fallback, TidOf;
    var mid := rows[i].mid;
    var k: nat :| k > 0 && Climb(rows, mid, k) == Some(mid);
    var n := PeriodExists(rows, mid, k);
    assert Climb(rows, mid, 0) == Some(mid);
    assert Climb(rows, mid, n - 1).Some? by {
      ClimbDefined(rows, mid, n - 1, n);
    }
    var p := Climb(rows, mid, n - 1).value;
    ClimbAdd(rows, mid, n - 1, 1);
    CycleMemberGetsItsPredecessor(rows, i, p);
  }

  lemma {:induction false} ClimbDefined(rows: seq<Lite>, mid: Mid, a: nat, b: nat)
    requires a <= b && Climb(rows, mid, b).Some?
    ensures Climb(rows, mid, a).Some?
    decreases a
  {
    if a > 0 {
      ClimbDefined(rows, Parent(rows, mid).value, a - 1, b - 1);
    }
  }

  lemma {:induction false} SeenElsewhere(rows: seq<Lite>, x: Mid, visited: set<Mid>, other: Mid)
    requires x in visited && visited <= Ids(rows) && other in Ids(rows) && !Ancestor(rows, x, other)
    ensures Top(rows, x, visited + {other}) == Top(rows, x, visited)
    decreases |Ids(rows) - visited|
  {
    hide Parent, ByMid;
    if Parent(rows, x).Some? {
      var q := Parent(rows, x).value;
      ParentIsAnId(rows, x);
      assert Climb(rows, q, 0) == Some(q) && Climb(rows, x, 1) == Some(q);
      if q !in visited {
        SmallerRest(Ids(rows), visited, q);
        forall k: nat | k > 0 ensures Climb(rows, q, k) != Some(other) {
          assert Climb(rows, x, k + 1) == Climb(rows, q, k);
        }
        SeenElsewhere(rows, q, visited + {q}, other);
        assert visited + {q} + {other} == visited + {other} + {q};
      }
    }
  }

  lemma {:induction false} TopIsAbove(rows: seq<Lite>, x: Mid, visited: set<Mid>)
    requires x in visited && visited <= Ids(rows)
    ensures Top(rows, x, visited) == x || Ancestor(rows, x, Top(rows, x, visited))
    ensures visited == {x} ==> (Top(rows, x, visited) == x <==> Parent(rows, x) == None || Parent(rows, x) == Some(x))
    decreases |Ids(rows) - visited|
  {
    hide Parent, ByMid;
    if Parent(rows, x).Some? {
      var q := Parent(rows, x).value;
      ParentIsAnId(rows, x);
      if q !in visited {
        SmallerRest(Ids(rows), visited, q);
        TopIsAbove(rows, q, visited + {q});
        TopIsFresh(rows, q, visited + {q}, visited);
        var t := Top(rows, q, visited + {q});
        assert Climb(rows, q, 0) == Some(q) && Climb(rows, x, 1) == Some(q);
        if t != q {
          var k: nat :| k > 0 && Climb(rows, q, k) == Some(t);
          assert Climb(rows, x, k + 1) == Some(t);
        }
      }
    }
  }

  /** The walk never stops where it has been before. */
  lemma {:induction false} TopIsFresh(rows: seq<Lite>, x: Mid, visited: set<Mid>, before: set<Mid>)
    requires x in visited && visited <= Ids(rows) && before <= visited && x !in before
    ensures Top(rows, x, visited) !in before
    decreases |Ids(rows) - visited|
  {
    hide Parent, ByMid;
    if Parent(rows, x).Some? && Parent(rows, x).value !in visited {
      var q := Parent(rows, x).value;
      ParentIsAnId(rows, x);
      SmallerRest(Ids(rows), visited, q);
      TopIsFresh(rows, q, visited + {q}, before);
    }
  }

  /**
    A message and its parent get the same thread id exactly if the message is not an ancestor of its
    own parent (the two are not on a cycle), and the parent has itself a parent, other than itself, or
    else its fallback is its own id.
   */
  lemma ParentAgreesExactly(rows: seq<Lite>, i: nat, j: nat)
    requires i < |rows| && j < |rows| && rows[i].mid != rows[j].mid
    requires Parent(rows, rows[i].mid) == Some(rows[j].mid)
    ensures TidOf(rows, i) == TidOf(rows, j)
       <==> && !Ancestor(rows, rows[j].mid, rows[i].mid)
            && (HasOtherParent(rows, rows[j].mid) || Fallback(rows, rows[j]) == rows[j].mid)
  {
    hide Parent, ByMid, Fallback;
    var mid, p := rows[i].mid, rows[j].mid;
    assert mid in Ids(rows) && p in Ids(rows);
    assert Climb(rows, p, 0) == Some(p) && Climb(rows, mid, 1) == Some(p);
    if Ancestor(rows, p, mid) {
      CycleMemberGetsItsPredecessor(rows, j, mid);
      TopIsAbove(rows, mid, {mid});
    } else {
      SeenElsewhere(rows, p, {p}, mid);
      assert {p} + {mid} == {mid} + {p};
      assert Top(rows, mid, {mid}) == Top(rows, p, {p});
      TopIsAbove(rows, mid, {mid});
      TopIsAbove(rows, p, {p});
    }
  }

  predicate HasOtherParent(rows: seq<Lite>, mid: Mid) {
    Parent(rows, mid).Some? && Parent(rows, mid) != Some(mid)
  }

  /** A root agrees with a message below it exactly if its own fallback is its own id. */
  lemma RootAgreesExactly(rows: seq<Lite>, i: nat, j: nat, k: nat)
    requires i < |rows| && j < |rows| && k > 0 && RootAt(rows, rows[i].mid, k, rows[j].mid)
    ensures TidOf(rows, i) == TidOf(rows, j) <==> Fallback(rows, rows[j]) == rows[j].mid
  {
    hide Parent, ByMid, Fallback;
    AcyclicGetsItsRoot(rows, i, k, rows[j].mid);
    assert Top(rows, rows[j].mid, {rows[j].mid}) == rows[j].mid;
  }

  /** The smallest case: two messages that answer each other get each other's id. */
  lemma CycleMembersDisagree()
    ensures var a := Lite([1], [], Some([2]), None, None, None, None, false, []);
      var b := Lite([2], [], Some([1]), None, None, None, None, false, []);
      TidOf([a, b], 0) == [2] && TidOf([a, b], 1) == [1]
  {
    var a := Lite([1], [], Some([2]), None, None, None, None, false, []);
    var b := Lite([2], [], Some([1]), None, None, None, None, false, []);
    var rows := [a, b];
    assert rows[..1] == [a] && [a][..0] == [];
    assert ByMid(rows) == map[[1] := 0, [2] := 1];
    assert Parent(rows, [1]) == Some([2]) && Parent(rows, [2]) == Some([1]);
    assert Top(rows, [2], {[1]} + {[2]}) == [2];
    assert Top(rows, [1], {[2]} + {[1]}) == [1];
  }

  // ----- The fallback picks the earliest ------------------------------------

  ghost predicate DatesFit(rows: seq<Lite>) {
    forall i :: 0 <= i < |rows| && rows[i].date.Some? ==> I64_MIN <= rows[i].date.value <= I64_MAX
  }

  /**
    The bucket rule of the heuristic: the same subject, list and author (none counts as empty), dated within
    the 30 days before the message (no date counts as 0), or at any time for an undated message.
   */
  predicate Rival(rows: seq<Lite>, i: nat, j: nat)
    requires i < |rows|
  {
    && j < |rows| && rows[j].subject.Some? && rows[j].subject == rows[i].subject && rows[j].list == rows[i].list
    && (if rows[j].from.Some? then rows[j].from.value else [])
       == (if rows[i].from.Some? then rows[i].from.value else [])
    && var date := if rows[j].date.Some? then rows[j].date.value else 0;
       rows[i].date.Some? ==> rows[i].date.value - 2_592_000_000_000_000 <= date <= rows[i].date.value
  }

  lemma {:induction false} EntriesInRowOrder(rows: seq<Lite>, key: Key)
    ensures forall x, y :: 0 <= x < y < |Entries(rows, key)| ==> Entries(rows, key)[x].row < Entries(rows, key)[y].row
    ensures forall e :: e in Entries(rows, key) ==> e.row < |rows|
    decreases |rows|
  {
    if rows != [] {
      var front := rows[..|rows| - 1];
      EntriesInRowOrder(front, key);
      forall e | e in Entries(rows, key) ensures e.row < |rows| {
        EntryIsARow(rows, key, e);
      }
      forall x | 0 <= x < |Entries(front, key)| ensures Entries(front, key)[x].row < |front| {
        assert Entries(front, key)[x] in Entries(front, key);
      }
    }
  }

  lemma {:induction false} FilterKeepsRowOrder(s: seq<Entry>, p: Entry -> bool)
    requires forall x, y :: 0 <= x < y < |s| ==> s[x].row < s[y].row
    ensures forall x, y :: 0 <= x < y < |Filter(s, p)| ==> Filter(s, p)[x].row < Filter(s, p)[y].row
    decreases |s|
  {
    if s != [] {
      var front := s[..|s| - 1];
      FilterKeepsRowOrder(front, p);
      FilterMembers(front, p);
      forall x | 0 <= x < |Filter(front, p)| ensures Filter(front, p)[x].row < s[|s| - 1].row {
        assert Filter(front, p)[x] in Filter(front, p);
      }
    }
  }

  function OnDate(date: int): Entry -> bool {
    (e: Entry) => e.date == date
  }

  lemma {:induction false} FirstHitLeadsItsDate(bucket: seq<Entry>, date: Option<int>)
    requires FirstInWindow(bucket, date).Some?
    ensures var e := FirstInWindow(bucket, date).value;
      Filter(bucket, OnDate(e.date)) != [] && Filter(bucket, OnDate(e.date))[0] == e
    decreases |bucket|
  {
    var e := FirstInWindow(bucket, date).value;
    FilterAppend([bucket[0]], bucket[1..], OnDate(e.date));
    FilterOne(bucket[0], OnDate(e.date));
    assert bucket == [bucket[0]] + bucket[1..];
    FirstInWindowIsThere(bucket, date);
    if !InWindow(date, bucket[0]) {
      FirstHitLeadsItsDate(bucket[1..], date);
    }
  }

  lemma {:induction false} FirstHitIsEarliest(bucket: seq<Entry>, date: Option<int>, x: Entry)
    requires Sorted(bucket, BY_DATE) && x in bucket && InWindow(date, x)
    ensures FirstInWindow(bucket, date).Some? && FirstInWindow(bucket, date).value.date <= x.date
    decreases |bucket|
  {
    if !InWindow(date, bucket[0]) {
      FirstHitIsEarliest(bucket[1..], date, x);
    } else {
      var k :| 0 <= k < |bucket| && bucket[k] == x;
      assert BY_DATE(bucket[0], bucket[k]);
    }
  }

  /** Among same-date entries the first hit has the lowest row, because the sort is stable. */
  lemma FirstHitIsFirstRow(rows: seq<Lite>, key: Key, date: Option<int>, x: Entry)
    requires FirstInWindow(Bucket(rows, key), date).Some?
    requires x in Entries(rows, key) && x.date == FirstInWindow(Bucket(rows, key), date).value.date
    ensures FirstInWindow(Bucket(rows, key), date).value.row <= x.row
  {
    hide Entries, Sort;
    var e := FirstInWindow(Bucket(rows, key), date).value;
    var p := OnDate(e.date);
    SortKeepsTies(Entries(rows, key), BY_DATE, p);
    FirstHitLeadsItsDate(Bucket(rows, key), date);
    EntriesInRowOrder(rows, key);
    FilterKeepsRowOrder(Entries(rows, key), p);
    FilterMembers(Entries(rows, key), p);
    var same := Filter(Entries(rows, key), p);
    var k :| 0 <= k < |same| && same[k] == x;
    assert same[0] == e;
  }

  /** Row `j` is the earliest rival of row `i`, the first row among equals. */
  ghost predicate EarliestRival(rows: seq<Lite>, i: nat, j: nat)
    requires i < |rows|
  {
    && Rival(rows, i, j)
    && forall k: nat :: Rival(rows, i, k) ==> NoLater(rows, j, k)
  }

  predicate NoLater(rows: seq<Lite>, j: nat, k: nat) {
    && j < |rows| && k < |rows|
    && var a := if rows[j].date.Some? then rows[j].date.value else 0;
       var b := if rows[k].date.Some? then rows[k].date.value else 0;
       a < b || (a == b && j <= k)
  }

  /**
    A message with a subject whose walk goes nowhere gets the id of the earliest message with its
    list, subject and author inside the window, the first row among equals. It is one itself, so
    there always is one.
   */
  lemma {:induction false} FallbackIsEarliestInWindow(rows: seq<Lite>, i: nat)
    requires DatesFit(rows) && i < |rows| && rows[i].subject.Some?
    requires Top(rows, rows[i].mid, {rows[i].mid}) == rows[i].mid
    ensures exists j: nat :: EarliestRival(rows, i, j) && TidOf(rows, i) == rows[j].mid
  {
    hide Sort;
    var key, date := KeyOf(rows[i]).value, rows[i].date;
    RivalIsNoEarlier(rows, i, i);
    var e := FirstInWindow(Bucket(rows, key), date).value;
    FirstInWindowIsThere(Bucket(rows, key), date);
    SortMember(Entries(rows, key), BY_DATE, e);
    EntryIsARow(rows, key, e);
    assert Rival(rows, i, e.row);
    forall k: nat | Rival(rows, i, k) ensures NoLater(rows, e.row, k) {
      RivalIsNoEarlier(rows, i, k);
    }
    assert EarliestRival(rows, i, e.row);
  }

  lemma {:induction false} RivalIsNoEarlier(rows: seq<Lite>, i: nat, k: nat)
    requires DatesFit(rows) && i < |rows| && rows[i].subject.Some? && Rival(rows, i, k)
    ensures var first := FirstInWindow(Bucket(rows, KeyOf(rows[i]).value), rows[i].date);
      first.Some? && (first.value.date < BucketDate(rows[k])
        || (first.value.date == BucketDate(rows[k]) && first.value.row <= k))
  {
    hide Entries, Sort;
    var key, date := KeyOf(rows[i]).value, rows[i].date;
    var x := Entry(BucketDate(rows[k]), rows[k].mid, k);
    EntryIsARow(rows, key, x);
    SortMember(Entries(rows, key), BY_DATE, x);
    SortSorts(Entries(rows, key), BY_DATE);
    FirstHitIsEarliest(Bucket(rows, key), date, x);
    if FirstInWindow(Bucket(rows, key), date).value.date == x.date {
      FirstHitIsFirstRow(rows, key, date, x);
    }
  }
}
