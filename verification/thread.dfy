/** The breadth-first thread walk. */
module Thread {
  import opened Base
  import opened Sorting
  import opened Scan

  const NO_ID: Mid := []

  /** The row names `mid` as its own id, its parent, or one of its references. */
  predicate Names(r: MessageRow, mid: Mid) {
    r.mid == mid || Cites(r, mid)
  }

  predicate Cites(r: MessageRow, mid: Mid) {
    r.inReplyTo == Some(mid) || mid in r.references
  }

  function Naming(mid: Mid): MessageRow -> bool {
    (r: MessageRow) => Names(r, mid)
  }

  /** Ids the visit of `mid` learns from one row: what its own row cites, or who cites it. */
  function RowRelations(r: MessageRow, mid: Mid): seq<Mid> {
    if r.mid == mid then
      (if r.inReplyTo.Some? && r.inReplyTo.value != NO_ID then [r.inReplyTo.value] else [])
      + Filter(r.references, (p: Mid) => p != NO_ID)
    else [r.mid]
  }

  function Relations(rows: seq<MessageRow>, mid: Mid): seq<Mid> {
    if rows == [] then [] else Relations(rows[..|rows| - 1], mid) + RowRelations(rows[|rows| - 1], mid)
  }

  function Unvisited(relations: seq<Mid>, visited: set<Mid>): seq<Mid> {
    Filter(relations, (p: Mid) => p !in visited)
  }

  // ----- Every id the walk can meet -----------------------------------------

  function CitedBy(r: MessageRow): set<Mid> {
    (if r.inReplyTo.Some? then {r.inReplyTo.value} else {}) + set p | p in r.references
  }

  function Universe(corpus: seq<MessageRow>, seed: Mid): set<Mid> {
    {seed} + Mids(corpus) + set r, p | r in corpus && p in CitedBy(r) :: p
  }

  lemma RowRelationsMembers(r: MessageRow, mid: Mid)
    ensures forall p :: p in RowRelations(r, mid) <==>
      (r.mid == mid && p != NO_ID && Cites(r, p)) || (r.mid != mid && p == r.mid)
  {
    FilterMembers(r.references, (p: Mid) => p != NO_ID);
  }

  lemma {:induction false} RelationsMembers(rows: seq<MessageRow>, mid: Mid, p: Mid)
    ensures p in Relations(rows, mid) <==> exists r :: r in rows && p in RowRelations(r, mid)
    decreases |rows|
  {
    if rows != [] {
      var front, last := rows[..|rows| - 1], rows[|rows| - 1];
      assert rows == front + [last];
      RelationsMembers(front, mid, p);
    }
  }

  lemma RelationsInUniverse(corpus: seq<MessageRow>, seed: Mid, rows: seq<MessageRow>, mid: Mid)
    requires forall r :: r in rows ==> r in corpus
    ensures forall p :: p in Relations(rows, mid) ==> p in Universe(corpus, seed)
  {
    forall p | p in Relations(rows, mid) ensures p in Universe(corpus, seed) {
      RelationsMembers(rows, mid, p);
      var r :| r in rows && p in RowRelations(r, mid);
      RowRelationsMembers(r, mid);
      if r.mid == mid {
        assert p in CitedBy(r);
      } else {
        assert p in Mids(corpus);
      }
    }
  }

  // ----- The walk without a cap ---------------------------------------------

  ghost predicate Queued(corpus: seq<MessageRow>, seed: Mid, visited: set<Mid>, queue: seq<Mid>) {
    visited <= Universe(corpus, seed) && forall p :: p in queue ==> p in Universe(corpus, seed)
  }

  function Expand(corpus: seq<MessageRow>, visited: set<Mid>, queue: seq<Mid>): seq<Mid>
    requires queue != []
  {
    queue[1..] + Unvisited(Relations(Filter(corpus, Naming(queue[0])), queue[0]), visited + {queue[0]})
  }

  lemma ExpandStaysQueued(corpus: seq<MessageRow>, seed: Mid, visited: set<Mid>, queue: seq<Mid>)
    requires Queued(corpus, seed, visited, queue) && queue != []
    ensures Queued(corpus, seed, visited + {queue[0]}, Expand(corpus, visited, queue))
    ensures Queued(corpus, seed, visited, queue[1..])
    ensures queue[0] !in visited ==>
      |Universe(corpus, seed) - (visited + {queue[0]})| < |Universe(corpus, seed) - visited|
  {
    hide Universe, Relations;
    var mid := queue[0];
    var rows := Filter(corpus, Naming(mid));
    FilterMembers(corpus, Naming(mid));
    RelationsInUniverse(corpus, seed, rows, mid);
    FilterMembers(Relations(rows, mid), (p: Mid) => p !in visited + {mid});
    if mid !in visited {
      var u := Universe(corpus, seed);
      assert u - visited == (u - (visited + {mid})) + {mid};
    }
  }

  /** All rows collected, in order and with repetitions, and all ids visited. */
  function Walk(corpus: seq<MessageRow>, seed: Mid, visited: set<Mid>, queue: seq<Mid>): (seq<MessageRow>, set<Mid>)
    requires Queued(corpus, seed, visited, queue)
    decreases |Universe(corpus, seed) - visited|, |queue|
  {
    if queue == [] then ([], visited)
    else
      ExpandStaysQueued(corpus, seed, visited, queue);
      if queue[0] in visited then Walk(corpus, seed, visited, queue[1..])
      else
        var (rows, done) := Walk(corpus, seed, visited + {queue[0]}, Expand(corpus, visited, queue));
        (Filter(corpus, Naming(queue[0])) + rows, done)
  }

  function Collected(corpus: seq<MessageRow>, seed: Mid): seq<MessageRow> {
    Walk(corpus, seed, {}, [seed]).0
  }

  function Visited(corpus: seq<MessageRow>, seed: Mid): set<Mid> {
    Walk(corpus, seed, {}, [seed]).1
  }

  const OLDEST_FIRST: (MessageRow, MessageRow) -> bool := (a: MessageRow, b: MessageRow) => DateKey(a) <= DateKey(b)

  /** What the walk returns: the first `max` collected rows, each message once, by date. */
  function ThreadOf(corpus: seq<MessageRow>, seed: Mid, max: nat): seq<MessageRow> {
    Sort(Dedup(Take(Collected(corpus, seed), max)), OLDEST_FIRST)
  }

  // ----- The loop -----------------------------------------------------------

  /** One popped id: scan the corpus, collecting up to `max` rows overall. */
  method VisitId(dir: seq<ParquetFile>, mid: Mid, collected: seq<MessageRow>, max: nat)
    returns (collected': seq<MessageRow>, relations: seq<Mid>)
    requires |collected| < max
    ensures collected' == Take(collected + Filter(Corpus(dir), Naming(mid)), max)
    ensures |collected'| < max ==> relations == Relations(Filter(Corpus(dir), Naming(mid)), mid)
  {
    hide Corpus, Relations;
    var room := max - |collected|;
    var rows := ScanDir(dir, Naming(mid), AtLeast(room));
    VisitFirst(Corpus(dir), Naming(mid), room);
    collected' := collected + rows;
    relations := Relations(rows, mid);
    ghost var all := Filter(Corpus(dir), Naming(mid));
    if |all| < room {
      assert rows == all;
    }
  }

  method ThreadViaParquetScan(dir: seq<ParquetFile>, seed: Mid, max: nat) returns (out: seq<MessageRow>)
    ensures out == ThreadOf(Corpus(dir), seed, max)
    ensures forall i, j :: 0 <= i < j < |out| && out[i].date.Some? && out[j].date.Some? ==>
      out[i].date.value <= out[j].date.value
    ensures forall i, j :: 0 <= i < j < |out| && out[i].date.Some? && out[j].date.None? ==>
      out[i].date.value <= -0x8000_0000_0000_0000
  {
    hide Corpus, Relations, Universe, Filter, Dedup, Sort;
    ghost var corpus := Corpus(dir);
    var visited: set<Mid> := {};
    var queue := [seed];
    var collected: seq<MessageRow> := [];
    SeedIsQueued(corpus, seed);
    ghost var all := Collected(corpus, seed);
    assert [] + all == all;
    while queue != []
      invariant |collected| < max ==>
        Queued(corpus, seed, visited, queue) && all == collected + Walk(corpus, seed, visited, queue).0
      invariant |collected| >= max ==> collected == Take(all, max)
      decreases
        if |collected| < max then 1 else 0, if |collected| < max then |Universe(corpus, seed) - visited| else 0, |queue|
    {
      var mid := queue[0];
      if |collected| < max {
        ExpandStaysQueued(corpus, seed, visited, queue);
      }
      if mid in visited || |collected| >= max {
        queue := queue[1..];
        continue;
      }
      ghost var before := collected;
      ghost var rest := Walk(corpus, seed, visited + {mid}, Expand(corpus, visited, queue)).0;
      ghost var rows := Filter(corpus, Naming(mid));
      assert all == (before + rows) + rest;
      var relations;
      collected, relations := VisitId(dir, mid, collected, max);
      visited := visited + {mid};
      queue := queue[1..] + Unvisited(relations, visited);
      assert |collected| >= max ==> collected == Take(all, max);
    }
    WalkDone(corpus, seed, visited, queue, collected, max, all);
    out := Sort(Dedup(collected), OLDEST_FIRST);
    SortSorts(Dedup(collected), OLDEST_FIRST);
    OldestFirstDates(out);
  }

  /** The order in terms of the dates: ascending, and undated rows first (but for the smallest date there is). */
  lemma OldestFirstDates(rows: seq<MessageRow>)
    requires Sorted(rows, OLDEST_FIRST)
    ensures forall i, j :: 0 <= i < j < |rows| && rows[i].date.Some? && rows[j].date.Some? ==>
      rows[i].date.value <= rows[j].date.value
    ensures forall i, j :: 0 <= i < j < |rows| && rows[i].date.Some? && rows[j].date.None? ==>
      rows[i].date.value <= -0x8000_0000_0000_0000
  {
    forall i, j | 0 <= i < j < |rows| ensures DateKey(rows[i]) <= DateKey(rows[j]) {
      assert OLDEST_FIRST(rows[i], rows[j]);
    }
  }

  lemma WalkDone(corpus: seq<MessageRow>, seed: Mid, visited: set<Mid>, queue: seq<Mid>, collected: seq<MessageRow>,
                 max: nat, all: seq<MessageRow>)
    requires queue == []
    requires |collected| < max ==>
      Queued(corpus, seed, visited, queue) && all == collected + Walk(corpus, seed, visited, queue).0
    requires |collected| >= max ==> collected == Take(all, max)
    ensures collected == Take(all, max)
  {
  }

  lemma SeedIsQueued(corpus: seq<MessageRow>, seed: Mid)
    ensures Queued(corpus, seed, {}, [seed])
  {
  }

  // ----- Reachability -------------------------------------------------------

  /** The step the walk takes from `a` to `b`. */
  ghost predicate Follows(corpus: seq<MessageRow>, a: Mid, b: Mid) {
    exists r :: r in corpus && ((r.mid == a && b != NO_ID && Cites(r, b)) || (r.mid != a && r.mid == b && Cites(r, a)))
  }

  /** An undirected reply or reference edge; the other end need not be in the corpus. */
  ghost predicate Linked(corpus: seq<MessageRow>, a: Mid, b: Mid) {
    exists r :: r in corpus && ((r.mid == a && b != NO_ID && Cites(r, b)) || (r.mid == b && a != NO_ID && Cites(r, a)))
  }

  datatype Edges = WalkEdges | ReplyEdges

  ghost predicate Edge(corpus: seq<MessageRow>, e: Edges, a: Mid, b: Mid) {
    if e == WalkEdges then Follows(corpus, a, b) else Linked(corpus, a, b)
  }

  ghost predicate IsPath(corpus: seq<MessageRow>, e: Edges, path: seq<Mid>, a: Mid, b: Mid) {
    && path != [] && path[0] == a && path[|path| - 1] == b
    && forall i :: 0 <= i < |path| - 1 ==> Edge(corpus, e, path[i], path[i + 1])
  }

  ghost predicate Reaches(corpus: seq<MessageRow>, e: Edges, a: Mid, b: Mid) {
    exists path: seq<Mid> :: IsPath(corpus, e, path, a, b)
  }

  /** `m` lies in the connected component of `seed` in the undirected reply graph. */
  ghost predicate InComponent(corpus: seq<MessageRow>, seed: Mid, m: Mid) {
    Reaches(corpus, ReplyEdges, seed, m)
  }

  lemma ReachesSelf(corpus: seq<MessageRow>, e: Edges, a: Mid)
    ensures Reaches(corpus, e, a, a)
  {
    assert IsPath(corpus, e, [a], a, a);
  }

  lemma ReachesOneMore(corpus: seq<MessageRow>, e: Edges, a: Mid, b: Mid, c: Mid)
    requires Reaches(corpus, e, a, b) && Edge(corpus, e, b, c)
    ensures Reaches(corpus, e, a, c)
  {
    hide Edge;
    var path: seq<Mid> :| IsPath(corpus, e, path, a, b);
    assert IsPath(corpus, e, path + [c], a, c);
  }

  ghost predicate ClosedAlong(corpus: seq<MessageRow>, e: Edges, s: iset<Mid>) {
    forall a, b :: a in s && Edge(corpus, e, a, b) ==> b in s
  }

  lemma {:induction false} PathStaysInside(corpus: seq<MessageRow>, e: Edges, s: iset<Mid>, path: seq<Mid>, a: Mid,
                                           b: Mid)
    requires ClosedAlong(corpus, e, s) && a in s && IsPath(corpus, e, path, a, b)
    ensures b in s
    decreases |path|
  {
    hide Edge;
    if |path| > 1 {
      assert IsPath(corpus, e, path[..|path| - 1], a, path[|path| - 2]);
      PathStaysInside(corpus, e, s, path[..|path| - 1], a, path[|path| - 2]);
      assert Edge(corpus, e, path[|path| - 2], path[|path| - 1]);
    }
  }

  lemma RelationsAreSteps(corpus: seq<MessageRow>, mid: Mid, p: Mid)
    ensures p in Relations(Filter(corpus, Naming(mid)), mid) <==> Follows(corpus, mid, p)
  {
    var rows := Filter(corpus, Naming(mid));
    FilterMembers(corpus, Naming(mid));
    RelationsMembers(rows, mid, p);
    if p in Relations(rows, mid) {
      var r :| r in rows && p in RowRelations(r, mid);
      RowRelationsMembers(r, mid);
    }
    if Follows(corpus, mid, p) {
      var r :| r in corpus
        && ((r.mid == mid && p != NO_ID && Cites(r, p)) || (r.mid != mid && r.mid == p && Cites(r, mid)));
      RowRelationsMembers(r, mid);
      assert r in rows;
    }
  }

  /** Ids on the frontier or behind it. */
  ghost predicate Known(visited: set<Mid>, queue: seq<Mid>, p: Mid) {
    p in visited || p in queue
  }

  lemma ExpandKnows(corpus: seq<MessageRow>, visited: set<Mid>, queue: seq<Mid>, p: Mid)
    requires queue != []
    ensures Known(visited + {queue[0]}, Expand(corpus, visited, queue), p)
       <==> Known(visited, queue, p) || Follows(corpus, queue[0], p)
  {
    hide Relations, Filter, Naming, Follows;
    var mid := queue[0];
    RelationsAreSteps(corpus, mid, p);
    FilterMembers(Relations(Filter(corpus, Naming(mid)), mid), (x: Mid) => x !in visited + {mid});
    assert queue == [mid] + queue[1..];
  }

  /** Everything visited is reachable, and everything a visited id leads to is visited. */
  lemma {:induction false} WalkVisitsReachable(corpus: seq<MessageRow>, seed: Mid, visited: set<Mid>, queue: seq<Mid>)
    requires Queued(corpus, seed, visited, queue)
    requires forall p :: Known(visited, queue, p) ==> Reaches(corpus, WalkEdges, seed, p)
    requires forall v, p :: v in visited && Follows(corpus, v, p) ==> Known(visited, queue, p)
    ensures var done := Walk(corpus, seed, visited, queue).1;
      && (forall p :: Known(visited, queue, p) ==> p in done)
      && (forall p :: p in done ==> Reaches(corpus, WalkEdges, seed, p))
      && (forall v, p :: v in done && Follows(corpus, v, p) ==> p in done)
    decreases |Universe(corpus, seed) - visited|, |queue|
  {
    hide Universe, Follows, Reaches, Queued, Expand;
    if queue != [] {
      var mid := queue[0];
      ExpandStaysQueued(corpus, seed, visited, queue);
      assert queue == [mid] + queue[1..];
      if mid in visited {
        forall p ensures Known(visited, queue[1..], p) <==> Known(visited, queue, p) {
        }
        WalkVisitsReachable(corpus, seed, visited, queue[1..]);
        forall p | Known(visited, queue, p) ensures p in Walk(corpus, seed, visited, queue[1..]).1 {
          assert Known(visited, queue[1..], p);
        }
      } else {
        var visited', queue' := visited + {mid}, Expand(corpus, visited, queue);
        forall p ensures Known(visited', queue', p) <==> Known(visited, queue, p) || Follows(corpus, mid, p) {
          ExpandKnows(corpus, visited, queue, p);
        }
        forall p | Known(visited', queue', p) ensures Reaches(corpus, WalkEdges, seed, p) {
          assert Known(visited, queue, mid);
          if Follows(corpus, mid, p) {
            ReachesOneMore(corpus, WalkEdges, seed, mid, p);
          }
        }
        WalkVisitsReachable(corpus, seed, visited', queue');
        forall p | Known(visited, queue, p) ensures p in Walk(corpus, seed, visited', queue').1 {
          assert Known(visited', queue', p);
        }
      }
    }
  }

  lemma {:induction false} WalkCollects(corpus: seq<MessageRow>, seed: Mid, visited: set<Mid>, queue: seq<Mid>,
                                        r: MessageRow)
    requires Queued(corpus, seed, visited, queue)
    ensures var (rows, done) := Walk(corpus, seed, visited, queue);
      && visited <= done
      && (r in rows <==> r in corpus && exists v :: v in done && v !in visited && Names(r, v))
    decreases |Universe(corpus, seed) - visited|, |queue|
  {
    hide Universe, Queued, Expand, Names;
    if queue != [] {
      var mid := queue[0];
      ExpandStaysQueued(corpus, seed, visited, queue);
      if mid in visited {
        WalkCollects(corpus, seed, visited, queue[1..], r);
      } else {
        WalkCollects(corpus, seed, visited + {mid}, Expand(corpus, visited, queue), r);
        FilterMembers(corpus, Naming(mid));
        var (rows, done) := Walk(corpus, seed, visited + {mid}, Expand(corpus, visited, queue));
        assert mid in done;
      }
    }
  }

  /** Without a cap the walk collects exactly the rows whose ids it can reach. */
  lemma CollectedIsReachable(corpus: seq<MessageRow>, seed: Mid, r: MessageRow)
    ensures r in Collected(corpus, seed) <==> r in corpus && Reaches(corpus, WalkEdges, seed, r.mid)
  {
    hide Universe, Reaches;
    SeedIsQueued(corpus, seed);
    ReachesSelf(corpus, WalkEdges, seed);
    WalkVisitsReachable(corpus, seed, {}, [seed]);
    WalkCollects(corpus, seed, {}, [seed], r);
    var done := Visited(corpus, seed);
    assert Known({}, [seed], seed);
    VisitedIsReachable(corpus, seed, r.mid);
    if r in corpus {
      forall v | v in done && Names(r, v) ensures r.mid in done {
        if r.mid != v {
          assert Follows(corpus, v, r.mid);
        }
      }
      assert Names(r, r.mid);
    }
  }

  lemma VisitedIsReachable(corpus: seq<MessageRow>, seed: Mid, m: Mid)
    ensures m in Visited(corpus, seed) <==> Reaches(corpus, WalkEdges, seed, m)
  {
    SeedIsQueued(corpus, seed);
    ReachesSelf(corpus, WalkEdges, seed);
    hide Universe, Follows, Reaches;
    WalkVisitsReachable(corpus, seed, {}, [seed]);
    assert Known({}, [seed], seed);
    VisitedIsClosed(corpus, seed, m);
  }

  lemma VisitedIsClosed(corpus: seq<MessageRow>, seed: Mid, m: Mid)
    requires seed in Visited(corpus, seed)
    requires forall v, p :: v in Visited(corpus, seed) && Follows(corpus, v, p) ==> p in Visited(corpus, seed)
    ensures Reaches(corpus, WalkEdges, seed, m) ==> m in Visited(corpus, seed)
  {
    if Reaches(corpus, WalkEdges, seed, m) {
      var path: seq<Mid> :| IsPath(corpus, WalkEdges, path, seed, m);
      var inside := iset v | v in Visited(corpus, seed);
      PathStaysInside(corpus, WalkEdges, inside, path, seed, m);
    }
  }

  // ----- The undirected component -------------------------------------------

  /** The walk leaves the component only through the empty id: it is in it, and a row outside cites it. */
  ghost predicate LeaksThroughEmptyId(corpus: seq<MessageRow>, seed: Mid) {
    InComponent(corpus, seed, NO_ID) && exists r :: r in corpus && Cites(r, NO_ID) && !InComponent(corpus, seed, r.mid)
  }

  lemma ComponentIsReached(corpus: seq<MessageRow>, seed: Mid, m: Mid)
    requires InComponent(corpus, seed, m)
    ensures Reaches(corpus, WalkEdges, seed, m)
  {
    hide Reaches;
    var reached := iset v | Reaches(corpus, WalkEdges, seed, v);
    forall a, b | a in reached && Edge(corpus, ReplyEdges, a, b) ensures b in reached {
      if a != b {
        assert Edge(corpus, WalkEdges, a, b);
        ReachesOneMore(corpus, WalkEdges, seed, a, b);
      }
    }
    ReachesSelf(corpus, WalkEdges, seed);
    var path := PathOf(corpus, ReplyEdges, seed, m);
    PathStaysInside(corpus, ReplyEdges, reached, path, seed, m);
  }

  lemma PathOf(corpus: seq<MessageRow>, e: Edges, a: Mid, b: Mid) returns (path: seq<Mid>)
    requires Reaches(corpus, e, a, b)
    ensures IsPath(corpus, e, path, a, b)
  {
    path :| IsPath(corpus, e, path, a, b);
  }

  lemma ReachedIsComponent(corpus: seq<MessageRow>, seed: Mid, m: Mid)
    requires !LeaksThroughEmptyId(corpus, seed) && Reaches(corpus, WalkEdges, seed, m)
    ensures InComponent(corpus, seed, m)
  {
    hide Reaches;
    var component := iset v | InComponent(corpus, seed, v);
    forall a, b | a in component && Edge(corpus, WalkEdges, a, b) ensures b in component {
      var r :| r in corpus && ((r.mid == a && b != NO_ID && Cites(r, b)) || (r.mid != a && r.mid == b && Cites(r, a)));
      if (r.mid == a && b != NO_ID && Cites(r, b)) || a != NO_ID {
        assert Edge(corpus, ReplyEdges, a, b);
        ReachesOneMore(corpus, ReplyEdges, seed, a, b);
      }
    }
    ReachesSelf(corpus, ReplyEdges, seed);
    var path := PathOf(corpus, WalkEdges, seed, m);
    PathStaysInside(corpus, WalkEdges, component, path, seed, m);
  }

  /**
    The uncapped walk collects exactly the rows of the seed's connected component, through ids the
    corpus does not have as well, unless the empty id leaks.
   */
  lemma CollectedIsComponentExactly(corpus: seq<MessageRow>, seed: Mid)
    ensures (forall r :: r in Collected(corpus, seed) <==> r in corpus && InComponent(corpus, seed, r.mid))
       <==> !LeaksThroughEmptyId(corpus, seed)
  {
    hide Reaches, Collected;
    forall r ensures r in Collected(corpus, seed) <==> r in corpus && Reaches(corpus, WalkEdges, seed, r.mid) {
      CollectedIsReachable(corpus, seed, r);
    }
    if LeaksThroughEmptyId(corpus, seed) {
      var r :| r in corpus && Cites(r, NO_ID) && !InComponent(corpus, seed, r.mid);
      ComponentIsReached(corpus, seed, NO_ID);
      assert Edge(corpus, WalkEdges, NO_ID, r.mid);
      ReachesOneMore(corpus, WalkEdges, seed, NO_ID, r.mid);
    } else {
      forall r | r in corpus ensures Reaches(corpus, WalkEdges, seed, r.mid) <==> InComponent(corpus, seed, r.mid) {
        if Reaches(corpus, WalkEdges, seed, r.mid) {
          ReachedIsComponent(corpus, seed, r.mid);
        }
        if InComponent(corpus, seed, r.mid) {
          ComponentIsReached(corpus, seed, r.mid);
        }
      }
    }
  }

  ghost predicate OtherThan(m: Mid, x: Mid) {
    m != x
  }

  /** Without a message that has the empty id, a thread asked for by a real id never meets it. */
  lemma NoEmptyIdNoLeak(corpus: seq<MessageRow>, seed: Mid)
    requires seed != NO_ID && forall r :: r in corpus ==> r.mid != NO_ID
    ensures !InComponent(corpus, seed, NO_ID) && !LeaksThroughEmptyId(corpus, seed)
  {
    hide Reaches;
    var nonempty := iset m | OtherThan(m, NO_ID);
    if Reaches(corpus, ReplyEdges, seed, NO_ID) {
      var path := PathOf(corpus, ReplyEdges, seed, NO_ID);
      PathStaysInside(corpus, ReplyEdges, nonempty, path, seed, NO_ID);
    }
  }

  /** A reply with the empty id brings in a message that cites the empty id and has nothing to do with the thread. */
  lemma EmptyIdJoinsStrangers()
    ensures var reply, stranger := Leaf(NO_ID, Some([1])), Leaf([2], Some(NO_ID));
      LeaksThroughEmptyId([reply, stranger], [1]) && stranger in Collected([reply, stranger], [1])
  {
    hide Reaches, Collected;
    var reply, stranger := Leaf(NO_ID, Some([1])), Leaf([2], Some(NO_ID));
    var corpus := [reply, stranger];
    var seed: Mid := [1];
    var inside := iset m | OtherThan(m, [2]);
    assert reply in corpus && stranger in corpus;
    assert Edge(corpus, ReplyEdges, seed, NO_ID);
    ReachesSelf(corpus, ReplyEdges, seed);
    ReachesOneMore(corpus, ReplyEdges, seed, seed, NO_ID);
    if Reaches(corpus, ReplyEdges, seed, [2]) {
      var path := PathOf(corpus, ReplyEdges, seed, [2]);
      PathStaysInside(corpus, ReplyEdges, inside, path, seed, [2]);
    }
    ComponentIsReached(corpus, seed, NO_ID);
    assert Edge(corpus, WalkEdges, NO_ID, stranger.mid);
    ReachesOneMore(corpus, WalkEdges, seed, NO_ID, stranger.mid);
    CollectedIsReachable(corpus, seed, stranger);
  }

  function Leaf(mid: Mid, parent: Option<Mid>): MessageRow {
    MessageRow(mid, [], None, parent, [], 0, 0)
  }

  // ----- What a thread query returns ----------------------------------------

  lemma {:induction false} DedupKeepsAll(rows: seq<MessageRow>, corpus: seq<MessageRow>, r: MessageRow)
    requires DistinctMids(corpus) && forall x :: x in rows ==> x in corpus
    ensures r in Dedup(rows) <==> r in rows
    decreases |rows|
  {
    if rows != [] {
      var front, last := rows[..|rows| - 1], rows[|rows| - 1];
      assert rows == front + [last];
      DedupKeepsAll(front, corpus, r);
      if r == last && last.mid in Mids(front) {
        var x :| x in front && x.mid == last.mid;
      }
    }
  }

  /** Which rows a capped query returns: those among the first `max` collected ones, repetitions counted. */
  lemma ThreadMembers(corpus: seq<MessageRow>, seed: Mid, max: nat, r: MessageRow)
    requires DistinctMids(corpus)
    ensures r in ThreadOf(corpus, seed, max) <==> r in Take(Collected(corpus, seed), max)
  {
    hide Collected, Dedup, Sort;
    var rows := Take(Collected(corpus, seed), max);
    forall x | x in rows ensures x in corpus {
      assert x in Collected(corpus, seed);
      CollectedIsReachable(corpus, seed, x);
    }
    DedupKeepsAll(rows, corpus, r);
    SortMember(Dedup(rows), OLDEST_FIRST, r);
  }

  /**
    A thread query returns distinct messages in date order, at most `max` of them, all reachable from
    the seed; and the whole component when `max` is not below the number of collected rows.
   */
  lemma ThreadIsComponent(dir: seq<ParquetFile>, seed: Mid, max: nat)
    requires !LeaksThroughEmptyId(Corpus(dir), seed)
    ensures var corpus, out := Corpus(dir), ThreadOf(Corpus(dir), seed, max);
      && |out| <= max && Sorted(out, OLDEST_FIRST) && Distinct(out)
      && (forall i, j :: 0 <= i < j < |out| && out[i].date.Some? && out[j].date.Some? ==>
            out[i].date.value <= out[j].date.value)
      && (forall i, j :: 0 <= i < j < |out| && out[i].date.Some? && out[j].date.None? ==>
            out[i].date.value <= -0x8000_0000_0000_0000)
      && (forall r :: r in out ==> r in corpus && InComponent(corpus, seed, r.mid))
      && (max >= |Collected(corpus, seed)| ==> forall r :: r in corpus && InComponent(corpus, seed, r.mid) ==> r in out)
  {
    hide Reaches, Collected, Dedup, Sort, AllRows;
    var corpus := Corpus(dir);
    DedupKeepsMids(AllRows(ParquetFiles(dir)));
    CollectedIsComponentExactly(corpus, seed);
    var rows := Take(Collected(corpus, seed), max);
    forall r ensures r in ThreadOf(corpus, seed, max) <==> r in rows {
      ThreadMembers(corpus, seed, max, r);
    }
    DedupKeepsMids(rows);
    DedupShrinks(rows);
    SortDistinct(Dedup(rows), OLDEST_FIRST);
    SortSorts(Dedup(rows), OLDEST_FIRST);
    OldestFirstDates(ThreadOf(corpus, seed, max));
    SortPermutes(Dedup(rows), OLDEST_FIRST);
  }

  lemma DedupShrinks(rows: seq<MessageRow>)
    ensures |Dedup(rows)| <= |rows|
  {
  }

  // ----- What the cap cuts --------------------------------------------------

  /** The shortest prefix that has every element: up to the last first occurrence. */
  function Needed<T(==)>(s: seq<T>): nat {
    if s == [] then 0
    else if s[|s| - 1] in s[..|s| - 1] then Needed(s[..|s| - 1])
    else |s|
  }

  lemma {:induction false} PrefixHoldsAllExactly<T>(s: seq<T>, n: nat)
    ensures Needed(s) <= |s|
    ensures (forall x :: x in s ==> x in Take(s, n)) <==> n >= Needed(s)
    decreases |s|
  {
    if s != [] {
      var front, last := s[..|s| - 1], s[|s| - 1];
      assert s == front + [last];
      PrefixHoldsAllExactly(front, n);
      if n < |s| {
        assert Take(s, n) == Take(front, n);
        assert forall x :: x in Take(front, n) ==> x in front;
      } else {
        assert Take(s, n) == s;
      }
    }
  }

  /** A capped query returns the whole thread exactly if the cap reaches the last message met for the first time. */
  lemma WholeThreadExactly(dir: seq<ParquetFile>, seed: Mid, max: nat)
    requires !LeaksThroughEmptyId(Corpus(dir), seed)
    ensures var corpus, out := Corpus(dir), ThreadOf(Corpus(dir), seed, max);
      (forall r :: r in corpus && InComponent(corpus, seed, r.mid) ==> r in out)
         <==> max >= Needed(Collected(corpus, seed))
  {
    hide Reaches, Collected, Dedup, Sort, AllRows, Needed;
    var corpus := Corpus(dir);
    DedupKeepsMids(AllRows(ParquetFiles(dir)));
    CollectedIsComponentExactly(corpus, seed);
    forall r ensures r in ThreadOf(corpus, seed, max) <==> r in Take(Collected(corpus, seed), max) {
      ThreadMembers(corpus, seed, max, r);
    }
    PrefixHoldsAllExactly(Collected(corpus, seed), max);
  }

  // ----- How much the walk collects -----------------------------------------

  /** The ids under which a visit finds the row. */
  function NamedBy(r: MessageRow): (s: set<Mid>)
    ensures forall v :: v in s <==> Names(r, v)
  {
    {r.mid} + CitedBy(r)
  }

  /** One slot for every row and every id of `ids` that finds it. */
  function Slots(rows: seq<MessageRow>, ids: set<Mid>): nat {
    if rows == [] then 0 else Slots(rows[..|rows| - 1], ids) + |NamedBy(rows[|rows| - 1]) * ids|
  }

  lemma {:induction false} SlotsAdd(rows: seq<MessageRow>, ids: set<Mid>, v: Mid)
    requires v !in ids
    ensures Slots(rows, ids + {v}) == Slots(rows, ids) + |Filter(rows, Naming(v))|
    decreases |rows|
  {
    hide Names;
    if rows != [] {
      var named := NamedBy(rows[|rows| - 1]);
      SlotsAdd(rows[..|rows| - 1], ids, v);
      if v in named {
        assert named * (ids + {v}) == named * ids + {v};
      } else {
        assert named * (ids + {v}) == named * ids;
      }
    }
  }

  lemma {:induction false} NoSlots(rows: seq<MessageRow>)
    ensures Slots(rows, {}) == 0
    decreases |rows|
  {
    if rows != [] {
      NoSlots(rows[..|rows| - 1]);
      assert NamedBy(rows[|rows| - 1]) * {} == {};
    }
  }

  lemma {:induction false} WalkLength(corpus: seq<MessageRow>, seed: Mid, visited: set<Mid>, queue: seq<Mid>)
    requires Queued(corpus, seed, visited, queue)
    ensures var (rows, done) := Walk(corpus, seed, visited, queue);
      visited <= done && |rows| == Slots(corpus, done - visited)
    decreases |Universe(corpus, seed) - visited|, |queue|
  {
    hide Universe, Queued, Expand, Slots;
    if queue == [] {
      assert visited - visited == {};
      NoSlots(corpus);
    } else {
      var mid := queue[0];
      ExpandStaysQueued(corpus, seed, visited, queue);
      if mid in visited {
        WalkLength(corpus, seed, visited, queue[1..]);
      } else {
        WalkLength(corpus, seed, visited + {mid}, Expand(corpus, visited, queue));
        var done := Walk(corpus, seed, visited + {mid}, Expand(corpus, visited, queue)).1;
        assert (done - (visited + {mid})) + {mid} == done - visited;
        SlotsAdd(corpus, done - (visited + {mid}), mid);
      }
    }
  }

  /** Slots a row takes if the thread has it: one for its id and each different non-empty id it cites. */
  function Width(r: MessageRow): nat {
    |NamedBy(r) - {NO_ID}|
  }

  ghost function ComponentWidth(corpus: seq<MessageRow>, seed: Mid, rows: seq<MessageRow>): nat {
    if rows == [] then 0
    else
      var last := rows[|rows| - 1];
      ComponentWidth(corpus, seed, rows[..|rows| - 1]) + if InComponent(corpus, seed, last.mid) then Width(last) else 0
  }

  lemma RowSlots(corpus: seq<MessageRow>, seed: Mid, r: MessageRow)
    requires !InComponent(corpus, seed, NO_ID) && r in corpus
    ensures NamedBy(r) * Visited(corpus, seed) == if InComponent(corpus, seed, r.mid) then NamedBy(r) - {NO_ID} else {}
  {
    hide Reaches, Visited, NamedBy, Names;
    forall v | v in NamedBy(r)
      ensures v in Visited(corpus, seed) <==> InComponent(corpus, seed, r.mid) && v != NO_ID
    {
      VisitedInComponent(corpus, seed, v);
      NamedInComponent(corpus, seed, r, v);
    }
  }

  lemma VisitedInComponent(corpus: seq<MessageRow>, seed: Mid, v: Mid)
    requires !InComponent(corpus, seed, NO_ID)
    ensures v in Visited(corpus, seed) <==> InComponent(corpus, seed, v)
  {
    hide Reaches, Visited;
    VisitedIsReachable(corpus, seed, v);
    if InComponent(corpus, seed, v) {
      ComponentIsReached(corpus, seed, v);
    }
    if Reaches(corpus, WalkEdges, seed, v) {
      ReachedIsComponent(corpus, seed, v);
    }
  }

  lemma NamedInComponent(corpus: seq<MessageRow>, seed: Mid, r: MessageRow, v: Mid)
    requires !InComponent(corpus, seed, NO_ID) && r in corpus && Names(r, v)
    ensures InComponent(corpus, seed, v) <==> InComponent(corpus, seed, r.mid) && v != NO_ID
  {
    hide Reaches;
    if v != r.mid && v != NO_ID {
      if InComponent(corpus, seed, v) {
        assert Edge(corpus, ReplyEdges, v, r.mid);
        ReachesOneMore(corpus, ReplyEdges, seed, v, r.mid);
      }
      if InComponent(corpus, seed, r.mid) {
        assert Edge(corpus, ReplyEdges, r.mid, v);
        ReachesOneMore(corpus, ReplyEdges, seed, r.mid, v);
      }
    }
  }

  lemma {:induction false} SlotsAreWidth(corpus: seq<MessageRow>, seed: Mid, rows: seq<MessageRow>)
    requires !InComponent(corpus, seed, NO_ID) && forall r :: r in rows ==> r in corpus
    ensures Slots(rows, Visited(corpus, seed)) == ComponentWidth(corpus, seed, rows)
    decreases |rows|
  {
    hide Reaches, Visited, InComponent;
    if rows != [] {
      var front, last := rows[..|rows| - 1], rows[|rows| - 1];
      assert last in rows && forall r :: r in front ==> r in rows;
      SlotsAreWidth(corpus, seed, front);
      RowSlots(corpus, seed, last);
    }
  }

  /**
    What the walk collects, counted from the headers: every message of the component takes one slot for
    its own id and one for each different id it cites. A cap of that many rows is always enough.
   */
  lemma CollectedIsComponentWidth(corpus: seq<MessageRow>, seed: Mid)
    requires !InComponent(corpus, seed, NO_ID)
    ensures |Collected(corpus, seed)| == ComponentWidth(corpus, seed, corpus)
  {
    hide Walk, Universe;
    SeedIsQueued(corpus, seed);
    WalkLength(corpus, seed, {}, [seed]);
    assert Visited(corpus, seed) - {} == Visited(corpus, seed);
    SlotsAreWidth(corpus, seed, corpus);
  }

  // ----- Linear threads -----------------------------------------------------

  /** Every message answers the one before it. */
  ghost predicate Linear(corpus: seq<MessageRow>) {
    && DistinctMids(corpus) && (forall k :: 0 <= k < |corpus| ==> corpus[k].mid != NO_ID)
    && forall k :: 0 <= k < |corpus| ==> Answers(corpus, k)
  }

  predicate Answers(corpus: seq<MessageRow>, k: nat)
    requires k < |corpus|
  {
    if k == 0 then corpus[k].inReplyTo.None? else corpus[k].inReplyTo == Some(corpus[k - 1].mid)
  }

  /** Full References headers: every message cites all messages before it. */
  ghost predicate FullReferences(corpus: seq<MessageRow>) {
    forall k :: 0 <= k < |corpus| ==> (set p | p in corpus[k].references) == Mids(corpus[..k])
  }

  lemma {:induction false} MidsCount(rows: seq<MessageRow>)
    requires DistinctMids(rows)
    ensures |Mids(rows)| == |rows|
    decreases |rows|
  {
    if rows != [] {
      var front, last := rows[..|rows| - 1], rows[|rows| - 1];
      MidsCount(front);
      assert rows == front + [last];
      assert Mids(rows) == Mids(front) + {last.mid};
      assert last.mid !in Mids(front);
    }
  }

  lemma MidIndex(rows: seq<MessageRow>, i: nat, j: nat)
    requires DistinctMids(rows) && i < |rows| && j < |rows|
    ensures rows[i].mid == rows[j].mid <==> i == j
    ensures rows[i].mid in Mids(rows[..j]) <==> i < j
  {
    if i < j {
      assert rows[..j][i] == rows[i];
    }
  }

  lemma FullRowWidth(corpus: seq<MessageRow>, k: nat)
    requires Linear(corpus) && FullReferences(corpus) && k < |corpus|
    ensures Width(corpus[k]) == k + 1
  {
    var r, before := corpus[k], Mids(corpus[..k]);
    assert Answers(corpus, k);
    MidIndex(corpus, k, k);
    if k > 0 {
      MidIndex(corpus, k - 1, k);
    }
    assert NO_ID !in before;
    NamedByFull(r, before);
    MidsCount(corpus[..k]);
  }

  lemma NamedByFull(r: MessageRow, before: set<Mid>)
    requires (set p | p in r.references) == before && NO_ID !in before && r.mid != NO_ID
    requires r.inReplyTo.Some? ==> r.inReplyTo.value in before
    ensures NamedBy(r) - {NO_ID} == before + {r.mid}
  {
  }

  lemma {:induction false} LinearIsOneComponent(corpus: seq<MessageRow>, k: nat)
    requires Linear(corpus) && k < |corpus|
    ensures InComponent(corpus, corpus[0].mid, corpus[k].mid)
    decreases k
  {
    hide Reaches;
    if k == 0 {
      ReachesSelf(corpus, ReplyEdges, corpus[0].mid);
    } else {
      LinearIsOneComponent(corpus, k - 1);
      assert Answers(corpus, k);
      assert corpus[k] in corpus;
      assert Edge(corpus, ReplyEdges, corpus[k - 1].mid, corpus[k].mid);
      ReachesOneMore(corpus, ReplyEdges, corpus[0].mid, corpus[k - 1].mid, corpus[k].mid);
    }
  }

  lemma {:induction false} FullWidth(corpus: seq<MessageRow>, n: nat)
    requires Linear(corpus) && FullReferences(corpus) && n <= |corpus|
    ensures 2 * (if n == 0 then 0 else ComponentWidth(corpus, corpus[0].mid, corpus[..n])) == n * (n + 1)
    decreases n
  {
    hide InComponent, Width, Linear, FullReferences;
    if n > 0 {
      FullWidth(corpus, n - 1);
      assert corpus[..n][..n - 1] == corpus[..n - 1];
      LinearIsOneComponent(corpus, n - 1);
      FullRowWidth(corpus, n - 1);
      if n == 1 {
        assert corpus[..n - 1] == [];
      }
    }
  }

  /** A linear thread of `n` messages with full References headers fills `n (n + 1) / 2` slots. */
  lemma FullReferencesAreQuadratic(corpus: seq<MessageRow>)
    requires Linear(corpus) && FullReferences(corpus) && corpus != []
    ensures 2 * |Collected(corpus, corpus[0].mid)| == |corpus| * (|corpus| + 1)
  {
    hide InComponent, ComponentWidth, FullReferences;
    NoEmptyIdNoLeak(corpus, corpus[0].mid);
    CollectedIsComponentWidth(corpus, corpus[0].mid);
    FullWidth(corpus, |corpus|);
    assert corpus[..|corpus|] == corpus;
  }

  // ----- Linear threads without References ----------------------------------

  ghost predicate Plain(corpus: seq<MessageRow>) {
    Linear(corpus) && forall k :: 0 <= k < |corpus| ==> corpus[k].references == []
  }

  /** The visits of messages `k`, `k + 1`, ... each find the message and its answer. */
  function Doubled(corpus: seq<MessageRow>, k: nat): seq<MessageRow>
    requires k <= |corpus|
    decreases |corpus| - k
  {
    if k == |corpus| then [] else corpus[k..Min(k + 2, |corpus|)] + Doubled(corpus, k + 1)
  }

  lemma {:induction false} FilterBlock<T>(s: seq<T>, p: T -> bool, lo: nat, hi: nat)
    requires lo <= hi <= |s| && forall i :: 0 <= i < |s| ==> (p(s[i]) <==> lo <= i < hi)
    ensures Filter(s, p) == s[lo..hi]
    decreases |s|
  {
    if s != [] {
      var n := |s| - 1;
      if hi == |s| && lo < hi {
        FilterBlock(s[..n], p, lo, n);
        assert s[lo..hi] == s[..n][lo..n] + [s[n]];
      } else if hi == |s| {
        FilterBlock(s[..n], p, n, n);
      } else {
        FilterBlock(s[..n], p, lo, hi);
        assert s[lo..hi] == s[..n][lo..hi];
      }
    }
  }

  lemma PlainNames(corpus: seq<MessageRow>, k: nat, i: nat)
    requires Plain(corpus) && k < |corpus| && i < |corpus|
    ensures Names(corpus[i], corpus[k].mid) <==> k <= i < k + 2
  {
    assert Answers(corpus, i);
    MidIndex(corpus, i, k);
    if i > 0 {
      MidIndex(corpus, i - 1, k);
    }
  }

  lemma RelationsOne(r: MessageRow, mid: Mid)
    ensures Relations([r], mid) == RowRelations(r, mid)
  {
    assert [r][..0] == [];
  }

  lemma RelationsTwo(r: MessageRow, q: MessageRow, mid: Mid)
    ensures Relations([r, q], mid) == RowRelations(r, mid) + RowRelations(q, mid)
  {
    RelationsOne(r, mid);
    assert [r, q][..1] == [r];
  }

  function Back(corpus: seq<MessageRow>, k: nat): seq<Mid>
    requires k < |corpus|
  {
    if k == 0 then [] else [corpus[k - 1].mid]
  }

  function Ahead(corpus: seq<MessageRow>, k: nat): seq<Mid>
    requires k < |corpus|
  {
    if k + 1 < |corpus| then [corpus[k + 1].mid] else []
  }

  lemma PlainRow(corpus: seq<MessageRow>, k: nat)
    requires Plain(corpus) && k < |corpus|
    ensures RowRelations(corpus[k], corpus[k].mid) == Back(corpus, k)
    ensures k + 1 < |corpus| ==> RowRelations(corpus[k + 1], corpus[k].mid) == Ahead(corpus, k)
  {
    assert Filter(corpus[k].references, (p: Mid) => p != NO_ID) == [];
    assert Answers(corpus, k);
    if k + 1 < |corpus| {
      MidIndex(corpus, k, k + 1);
    }
  }

  lemma PlainRelations(corpus: seq<MessageRow>, k: nat)
    requires Plain(corpus) && k < |corpus|
    ensures Relations(corpus[k..Min(k + 2, |corpus|)], corpus[k].mid) == Back(corpus, k) + Ahead(corpus, k)
  {
    hide Plain, Relations, RowRelations;
    PlainRow(corpus, k);
    if k + 1 < |corpus| {
      assert corpus[k..k + 2] == [corpus[k], corpus[k + 1]];
      RelationsTwo(corpus[k], corpus[k + 1], corpus[k].mid);
    } else {
      assert corpus[k..k + 1] == [corpus[k]];
      RelationsOne(corpus[k], corpus[k].mid);
    }
  }

  lemma PlainFilter(corpus: seq<MessageRow>, k: nat)
    requires Plain(corpus) && k < |corpus|
    ensures Filter(corpus, Naming(corpus[k].mid)) == corpus[k..Min(k + 2, |corpus|)]
  {
    hide Plain, Names;
    forall i | 0 <= i < |corpus| ensures Naming(corpus[k].mid)(corpus[i]) <==> k <= i < Min(k + 2, |corpus|) {
      PlainNames(corpus, k, i);
    }
    FilterBlock(corpus, Naming(corpus[k].mid), k, Min(k + 2, |corpus|));
  }

  lemma PlainUnvisited(corpus: seq<MessageRow>, k: nat)
    requires Plain(corpus) && k < |corpus|
    ensures Unvisited(Back(corpus, k) + Ahead(corpus, k), Mids(corpus[..k]) + {corpus[k].mid}) == Ahead(corpus, k)
  {
    hide Mids;
    var visited := Mids(corpus[..k]) + {corpus[k].mid};
    var unseen := (p: Mid) => p !in visited;
    FilterAppend(Back(corpus, k), Ahead(corpus, k), unseen);
    if k > 0 {
      FilterOne(corpus[k - 1].mid, unseen);
      MidIndex(corpus, k - 1, k);
    }
    if k + 1 < |corpus| {
      FilterOne(corpus[k + 1].mid, unseen);
      MidIndex(corpus, k + 1, k);
    }
  }

  lemma PlainExpands(corpus: seq<MessageRow>, k: nat)
    requires Plain(corpus) && k < |corpus|
    ensures Expand(corpus, Mids(corpus[..k]), [corpus[k].mid]) == Ahead(corpus, k)
  {
    hide Relations, Plain, Mids, Unvisited, Back, Filter;
    PlainFilter(corpus, k);
    PlainRelations(corpus, k);
    PlainUnvisited(corpus, k);
    assert [corpus[k].mid][1..] == [];
  }

  lemma {:induction false} PlainWalk(corpus: seq<MessageRow>, seed: Mid, k: nat)
    requires Plain(corpus) && k < |corpus| && Queued(corpus, seed, Mids(corpus[..k]), [corpus[k].mid])
    ensures Walk(corpus, seed, Mids(corpus[..k]), [corpus[k].mid]).0 == Doubled(corpus, k)
    decreases |corpus| - k
  {
    hide Queued, Universe, Expand, Plain;
    var visited, mid := Mids(corpus[..k]), corpus[k].mid;
    PlainExpands(corpus, k);
    PlainFilter(corpus, k);
    PlainUnseen(corpus, k);
    ExpandStaysQueued(corpus, seed, visited, [mid]);
    if k + 1 < |corpus| {
      PlainWalk(corpus, seed, k + 1);
    } else {
      assert Doubled(corpus, k + 1) == [];
    }
  }

  lemma PlainUnseen(corpus: seq<MessageRow>, k: nat)
    requires Plain(corpus) && k < |corpus|
    ensures corpus[k].mid !in Mids(corpus[..k])
    ensures Mids(corpus[..k + 1]) == Mids(corpus[..k]) + {corpus[k].mid}
  {
    assert corpus[..k + 1] == corpus[..k] + [corpus[k]];
    MidsAppend(corpus[..k], [corpus[k]]);
    assert Mids([corpus[k]]) == {corpus[k].mid};
  }

  lemma DoubledStep(corpus: seq<MessageRow>, k: nat)
    requires k + 1 < |corpus|
    ensures Doubled(corpus, k) == [corpus[k], corpus[k + 1]] + Doubled(corpus, k + 1)
  {
    assert corpus[k..k + 2] == [corpus[k], corpus[k + 1]];
  }

  lemma HalfStep(i: nat)
    requires i >= 2
    ensures (i - 2 + 1) / 2 + 1 == (i + 1) / 2
  {
  }

  lemma {:induction false} DoubledAt(corpus: seq<MessageRow>, k: nat, i: nat)
    requires k < |corpus| && i < 2 * (|corpus| - k) - 1
    ensures |Doubled(corpus, k)| == 2 * (|corpus| - k) - 1
    ensures Doubled(corpus, k)[i] == corpus[k + (i + 1) / 2]
    decreases |corpus| - k
  {
    if k + 1 == |corpus| {
      assert Doubled(corpus, k + 1) == [];
    } else {
      DoubledAt(corpus, k + 1, if i < 2 then 0 else i - 2);
      var rest := Doubled(corpus, k + 1);
      DoubledStep(corpus, k);
      if i >= 2 {
        assert ([corpus[k], corpus[k + 1]] + rest)[i] == rest[i - 2];
        HalfStep(i);
      }
    }
  }

  lemma {:induction false} NeededIs<T>(s: seq<T>, n: nat)
    requires 0 < n <= |s| && s[n - 1] !in s[..n - 1] && forall i :: n <= i < |s| ==> s[i] in s[..n]
    ensures Needed(s) == n
    decreases |s|
  {
    if n < |s| {
      var front := s[..|s| - 1];
      assert front[..n] == s[..n] && front[..n - 1] == s[..n - 1];
      assert s[|s| - 1] in front;
      NeededIs(front, n);
    }
  }

  lemma PlainThreadNeedsDouble(corpus: seq<MessageRow>)
    requires Plain(corpus) && |corpus| >= 2
    ensures Needed(Collected(corpus, corpus[0].mid)) == 2 * |corpus| - 2
  {
    hide Walk, Universe, Plain;
    var seed, n := corpus[0].mid, |corpus|;
    SeedIsQueued(corpus, seed);
    assert Mids(corpus[..0]) == {};
    PlainWalk(corpus, seed, 0);
    var s := Doubled(corpus, 0);
    PlainDoubled(corpus);
    NeededIs(s, 2 * n - 2);
  }

  lemma PlainDoubled(corpus: seq<MessageRow>)
    requires Plain(corpus) && |corpus| >= 2
    ensures var s, n := Doubled(corpus, 0), 2 * |corpus| - 2;
      |s| == n + 1 && s[n - 1] !in s[..n - 1] && s[n] in s[..n]
  {
    hide Doubled;
    var s, n := Doubled(corpus, 0), 2 * |corpus| - 2;
    DoubledAt(corpus, 0, n - 1);
    DoubledAt(corpus, 0, n);
    forall i | 0 <= i < n - 1 ensures s[i] != s[n - 1] {
      DoubledAt(corpus, 0, i);
      assert DistinctMids(corpus);
    }
    assert s[n - 1] == s[n] == s[..n][n - 1];
  }

  /**
    The cap counts repetitions: a thread of `n >= 2` messages, each answering the one before and citing
    nothing else, comes back whole from its first message exactly if the cap is at least `2 n - 2`.
   */
  lemma PlainThreadIsWholeExactly(dir: seq<ParquetFile>, max: nat)
    requires Plain(Corpus(dir)) && |Corpus(dir)| >= 2
    ensures var corpus := Corpus(dir);
      (forall r :: r in corpus ==> r in ThreadOf(corpus, corpus[0].mid, max)) <==> max >= 2 * |corpus| - 2
  {
    hide Corpus, ThreadOf, Collected, Needed, InComponent;
    var corpus := Corpus(dir);
    NoEmptyIdNoLeak(corpus, corpus[0].mid);
    WholeThreadExactly(dir, corpus[0].mid, max);
    PlainThreadNeedsDouble(corpus);
    forall r | r in corpus ensures InComponent(corpus, corpus[0].mid, r.mid) {
      var k :| 0 <= k < |corpus| && corpus[k] == r;
      LinearIsOneComponent(corpus, k);
    }
  }
}
