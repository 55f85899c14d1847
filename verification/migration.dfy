/**
  The schema migration of over.db: addresses are interned and the legacy trailer and author rows are copied
  into the involvement table, chunk by chunk.
 */
module Migration {
  import opened Base

  const WINDOW: nat := 200_000

  const FROM: Bytes := [102, 114, 111, 109]

  /** A row of `over_trailer_email`. */
  datatype Trailer = Trailer(kind: Bytes, email: Bytes, mid: Bytes, list: Bytes, date: Option<int>)

  /** What the migration reads of a row of `over`. */
  datatype Author = Author(from: Option<Bytes>, mid: Bytes, list: Bytes, date: Option<int>)

  /** The primary key of `over_involvement`. */
  datatype InvKey = InvKey(kind: Bytes, addrId: nat, mid: Bytes, list: Bytes)

  type Involvement = map<InvKey, Option<int>>

  type Addresses = map<Bytes, nat>

  // ----- Tables -------------------------------------------------------------

  ghost predicate TrailersOk(trailers: map<nat, Trailer>) {
    && 0 !in trailers
    && forall i, j :: i in trailers && j in trailers && SameTrailer(trailers[i], trailers[j]) ==> i == j
  }

  /** The primary key of the legacy table. */
  predicate SameTrailer(a: Trailer, b: Trailer) {
    a.kind == b.kind && a.email == b.email && a.mid == b.mid && a.list == b.list
  }

  ghost predicate AuthorsOk(authors: map<nat, Author>) {
    && 0 !in authors
    && forall i, j :: i in authors && j in authors ==>
         authors[i].mid == authors[j].mid && authors[i].list == authors[j].list ==> i == j
  }

  ghost predicate OneToOne(addresses: Addresses) {
    && [] !in addresses
    && forall e, f :: e in addresses && f in addresses && addresses[e] == addresses[f] ==> e == f
  }

  function Emails(trailers: map<nat, Trailer>, authors: map<nat, Author>): set<Bytes> {
    (set i | i in trailers && trailers[i].email != [] :: trailers[i].email)
    + (set i | i in authors && authors[i].from.Some? && authors[i].from.value != [] :: authors[i].from.value)
  }

  // ----- The rowid walk -----------------------------------------------------

  predicate InWindow(ids: set<nat>, cursor: nat, id: nat) {
    id in ids && cursor < id <= cursor + WINDOW
  }

  predicate IsProbe(ids: set<nat>, cursor: nat, id: nat) {
    InWindow(ids, cursor, id) && forall j | j in ids :: InWindow(ids, cursor, j) ==> j <= id
  }

  lemma {:induction false} ProbeExists(ids: set<nat>, cursor: nat, id: nat)
    requires InWindow(ids, cursor, id)
    ensures exists m :: IsProbe(ids, cursor, m)
    decreases cursor + WINDOW - id
  {
    if j: nat :| InWindow(ids, cursor, j) && j > id {
      ProbeExists(ids, cursor, j);
    } else {
      assert IsProbe(ids, cursor, id);
    }
  }

  /** SELECT MAX(rowid) ... WHERE rowid > cursor AND rowid <= cursor + WINDOW. */
  function Probe(ids: set<nat>, cursor: nat): (r: Option<nat>)
    ensures r.Some? ==> IsProbe(ids, cursor, r.value)
    ensures r.None? ==> forall id :: !InWindow(ids, cursor, id)
  {
    if exists id | id in ids :: InWindow(ids, cursor, id) then
      ghost var id :| InWindow(ids, cursor, id);
      ProbeExists(ids, cursor, id);
      var m :| m in ids && IsProbe(ids, cursor, m);
      Some(m)
    else None
  }

  function Rest(ids: set<nat>, cursor: nat): set<nat> {
    set id | id in ids && id > cursor
  }

  /** Where the walk stops: at the first empty window. */
  function WalkEnd(ids: set<nat>, cursor: nat): (end: nat)
    ensures end >= cursor
    ensures end == cursor || end in ids
    decreases |Rest(ids, cursor)|
  {
    match Probe(ids, cursor)
    case None => cursor
    case Some(m) =>
      RestShrinks(ids, cursor, m);
      WalkEnd(ids, m)
  }

  lemma RestShrinks(ids: set<nat>, cursor: nat, m: nat)
    requires m in ids && m > cursor
    ensures |Rest(ids, m)| < |Rest(ids, cursor)|
  {
    assert Rest(ids, m) + {m} <= Rest(ids, cursor);
    assert Rest(ids, cursor) == (Rest(ids, m) + {m}) + (Rest(ids, cursor) - Rest(ids, m) - {m});
  }

  /** No two neighbouring ids up to `id`, counting from 0, are more than a window apart. */
  ghost predicate GapFree(ids: set<nat>, id: nat) {
    forall c: nat :: (c == 0 || c in ids) && c < id ==> HasNext(ids, c)
  }

  ghost predicate HasNext(ids: set<nat>, c: nat) {
    exists j :: j in ids && c < j <= c + 200_000
  }

  lemma {:induction false} StopsBetween(ids: set<nat>, cursor: nat, c: nat)
    requires cursor <= c < WalkEnd(ids, cursor)
    ensures HasNext(ids, c)
    decreases |Rest(ids, cursor)|
  {
    var m := Probe(ids, cursor).value;
    RestShrinks(ids, cursor, m);
    if c < m {
      assert InWindow(ids, c, m);
    } else {
      StopsBetween(ids, m, c);
    }
  }

  lemma {:induction false} EndHasNoNext(ids: set<nat>, cursor: nat)
    ensures !HasNext(ids, WalkEnd(ids, cursor))
    decreases |Rest(ids, cursor)|
  {
    var p := Probe(ids, cursor);
    if p.Some? {
      RestShrinks(ids, cursor, p.value);
      EndHasNoNext(ids, p.value);
    }
  }

  /** The walk reaches a row exactly when there is no gap wider than the window before it. */
  lemma WalkReachesExactly(ids: set<nat>, id: nat)
    requires id in ids
    ensures id <= WalkEnd(ids, 0) <==> GapFree(ids, id)
  {
    var end := WalkEnd(ids, 0);
    if id <= end {
      forall c: nat | (c == 0 || c in ids) && c < id ensures HasNext(ids, c) {
        StopsBetween(ids, 0, c);
      }
    } else {
      EndHasNoNext(ids, 0);
      assert (end == 0 || end in ids) && end < id;
    }
  }

  // ----- Images -------------------------------------------------------------

  datatype InvRow = InvRow(key: InvKey, date: Option<int>)

  /** The join of a legacy row with the dictionary; an address that is not there drops the row. */
  function TrailerRow(addresses: Addresses): Trailer -> Option<InvRow> {
    (t: Trailer) =>
      if t.email in addresses then Some(InvRow(InvKey(t.kind, addresses[t.email], t.mid, t.list), t.date)) else None
  }

  function AuthorRow(addresses: Addresses): Author -> Option<InvRow> {
    (a: Author) =>
      if a.from.Some? && a.from.value in addresses
      then Some(InvRow(InvKey(FROM, addresses[a.from.value], a.mid, a.list), a.date)) else None
  }

  /** Row `i` makes the involvement row with key `k`. */
  predicate Makes<S>(rows: map<nat, S>, row: S -> Option<InvRow>, i: nat, k: InvKey) {
    i in rows && row(rows[i]).Some? && row(rows[i]).value.key == k
  }

  ghost predicate UniqueKeys<S>(rows: map<nat, S>, row: S -> Option<InvRow>) {
    forall i, j, k :: Makes(rows, row, i, k) && Makes(rows, row, j, k) ==> i == j
  }

  /** What the statement for the window (lo, hi] selects. */
  function Page<S>(rows: map<nat, S>, row: S -> Option<InvRow>, lo: nat, hi: nat): Involvement
    decreases hi
  {
    if hi <= lo then map[]
    else
      var before := Page(rows, row, lo, hi - 1);
      if hi in rows && row(rows[hi]).Some? then before[row(rows[hi]).value.key := row(rows[hi]).value.date] else before
  }

  lemma TrailerKeysUnique(trailers: map<nat, Trailer>, addresses: Addresses)
    requires TrailersOk(trailers) && OneToOne(addresses)
    ensures UniqueKeys(trailers, TrailerRow(addresses))
  {
  }

  lemma AuthorKeysUnique(authors: map<nat, Author>, addresses: Addresses)
    requires AuthorsOk(authors)
    ensures UniqueKeys(authors, AuthorRow(addresses))
  {
  }

  lemma {:induction false} PageMakes<S>(rows: map<nat, S>, row: S -> Option<InvRow>, lo: nat, hi: nat, i: nat,
                                        k: InvKey)
    requires UniqueKeys(rows, row) && Makes(rows, row, i, k)
    ensures k in Page(rows, row, lo, hi) <==> lo < i <= hi
    ensures lo < i <= hi ==> Page(rows, row, lo, hi)[k] == row(rows[i]).value.date
    decreases hi
  {
    if hi > lo {
      PageMakes(rows, row, lo, hi - 1, i, k);
      if hi in rows && row(rows[hi]).Some? {
        assert Makes(rows, row, hi, row(rows[hi]).value.key);
      }
    }
  }

  lemma {:induction false} PageMadeBy<S>(rows: map<nat, S>, row: S -> Option<InvRow>, lo: nat, hi: nat, k: InvKey)
    returns (i: nat)
    requires k in Page(rows, row, lo, hi)
    ensures Makes(rows, row, i, k) && lo < i <= hi
    decreases hi
  {
    if Makes(rows, row, hi, k) {
      i := hi;
    } else {
      i := PageMadeBy(rows, row, lo, hi - 1, k);
    }
  }

  lemma Pages<S>(rows: map<nat, S>, row: S -> Option<InvRow>, mid: nat, hi: nat)
    requires UniqueKeys(rows, row) && mid <= hi
    ensures Page(rows, row, 0, hi) == Page(rows, row, mid, hi) + Page(rows, row, 0, mid)
  {
    hide Page, UniqueKeys;
    var whole, parts := Page(rows, row, 0, hi), Page(rows, row, mid, hi) + Page(rows, row, 0, mid);
    forall k | k in whole ensures k in parts && parts[k] == whole[k] {
      var i := PageMadeBy(rows, row, 0, hi, k);
      PageMakes(rows, row, 0, hi, i, k);
      PageMakes(rows, row, mid, hi, i, k);
      PageMakes(rows, row, 0, mid, i, k);
    }
    forall k | k in parts ensures k in whole {
      var i: nat;
      if k in Page(rows, row, 0, mid) {
        i := PageMadeBy(rows, row, 0, mid, k);
      } else {
        i := PageMadeBy(rows, row, mid, hi, k);
      }
      PageMakes(rows, row, 0, hi, i, k);
    }
    assert whole.Keys == parts.Keys;
  }

  lemma MergeIsAssociative(a: Involvement, b: Involvement, c: Involvement)
    ensures a + (b + c) == (a + b) + c
  {
  }

  lemma NoPage<S>(rows: map<nat, S>, row: S -> Option<InvRow>)
    ensures Page(rows, row, 0, 0) == map[]
  {
  }

  /** Everything the migration adds; a legacy row wins over the author row with the same key. */
  function Image(trailers: map<nat, Trailer>, authors: map<nat, Author>, addresses: Addresses): Involvement {
    Page(authors, AuthorRow(addresses), 0, WalkEnd(authors.Keys, 0))
    + Page(trailers, TrailerRow(addresses), 0, WalkEnd(trailers.Keys, 0))
  }

  // ----- One run, cut off anywhere ------------------------------------------

  /** `inv` lies between what was there before the first run and what the finished migration leaves. */
  ghost predicate Between(base: Involvement, inv: Involvement, image: Involvement) {
    && (forall k :: k in base ==> k in inv && inv[k] == base[k])
    && (forall k :: k in inv ==> k in image + base && inv[k] == (image + base)[k])
  }

  ghost predicate Extends(base: Addresses, addresses: Addresses) {
    forall e :: e in base ==> e in addresses && addresses[e] == base[e]
  }

  /** The dictionary after step 1: the old entries, and one for every address that occurs. */
  ghost predicate Interned(base: Addresses, addresses: Addresses, emails: set<Bytes>) {
    && OneToOne(addresses) && Extends(base, addresses)
    && addresses.Keys == base.Keys + emails
  }

  /** What any number of interrupted runs can leave, started on the tables `addr0` and `inv0`. */
  ghost predicate Partway(trailers: map<nat, Trailer>, authors: map<nat, Author>, addr0: Addresses, inv0: Involvement,
                          addresses: Addresses, inv: Involvement)
    requires TrailersOk(trailers) && AuthorsOk(authors)
  {
    || (addresses == addr0 && inv == inv0)
    || (Interned(addr0, addresses, Emails(trailers, authors))
      && Between(inv0, inv, Image(trailers, authors, addresses)))
  }

  /** The dictionary while step 1 runs: `todo` is still to be interned, `next` is the next free id. */
  ghost predicate Interning(base: Addresses, r: Addresses, done: set<Bytes>, next: nat) {
    && OneToOne(r) && Extends(base, r) && r.Keys == base.Keys + done
    && forall e :: e in r ==> r[e] < next
  }

  lemma InternStep(base: Addresses, r: Addresses, done: set<Bytes>, next: nat, e: Bytes)
    requires Interning(base, r, done, next) && e != []
    ensures e in r ==> Interning(base, r, done + {e}, next)
    ensures e !in r ==> Interning(base, r[e := next], done + {e}, next + 1)
  {
    if e in r {
      assert base.Keys + (done + {e}) == r.Keys;
    } else {
      assert base.Keys + (done + {e}) == r[e := next].Keys;
    }
  }

  /** One more than the largest id in use. */
  method NextId(addresses: Addresses) returns (next: nat)
    ensures forall e :: e in addresses ==> addresses[e] < next
  {
    next := 0;
    var left := addresses.Keys;
    while left != {}
      invariant left <= addresses.Keys && forall e :: e in addresses && e !in left ==> addresses[e] < next
      decreases |left|
    {
      var e :| e in left;
      left := left - {e};
      next := if addresses[e] < next then next else addresses[e] + 1;
    }
  }

  method Intern(addresses: Addresses, emails: set<Bytes>) returns (r: Addresses)
    requires OneToOne(addresses) && [] !in emails
    ensures Interned(addresses, r, emails)
  {
    hide Interning, Interned, OneToOne;
    r := addresses;
    var next := NextId(addresses);
    var todo := emails;
    ghost var done: set<Bytes> := {};
    InterningStarts(addresses, next);
    while todo != {}
      invariant done + todo == emails && Interning(addresses, r, done, next)
      decreases todo
    {
      var e :| e in todo;
      InternStep(addresses, r, done, next, e);
      done := done + {e};
      todo := todo - {e};
      if e !in r {
        r := r[e := next];
        next := next + 1;
      }
    }
    assert done == emails;
    InterningEnds(addresses, r, emails, next);
  }

  lemma InterningStarts(base: Addresses, next: nat)
    requires OneToOne(base) && forall e :: e in base ==> base[e] < next
    ensures Interning(base, base, {}, next)
  {
  }

  lemma InterningEnds(base: Addresses, r: Addresses, emails: set<Bytes>, next: nat)
    requires Interning(base, r, emails, next)
    ensures Interned(base, r, emails)
  {
  }

  lemma NoTrailersOk()
    ensures TrailersOk(map[])
  {
  }

  lemma EmailsAreNotEmpty(trailers: map<nat, Trailer>, authors: map<nat, Author>)
    ensures [] !in Emails(trailers, authors)
  {
  }

  /** The first run starts the dictionary; later runs find nothing to add. */
  lemma AfterIntern(trailers: map<nat, Trailer>, authors: map<nat, Author>, addr0: Addresses, inv0: Involvement,
                    addresses: Addresses, inv: Involvement, grown: Addresses)
    requires TrailersOk(trailers) && AuthorsOk(authors) && OneToOne(addr0)
    requires Partway(trailers, authors, addr0, inv0, addresses, inv)
    requires Interned(addresses, grown, Emails(trailers, authors))
    ensures Interned(addr0, grown, Emails(trailers, authors)) && OneToOne(grown)
    ensures Between(inv0, inv, Image(trailers, authors, grown))
  {
    hide Emails, Image;
    if Interned(addr0, addresses, Emails(trailers, authors))
      && Between(inv0, inv, Image(trailers, authors, addresses)) {
      assert grown.Keys == addresses.Keys;
      assert grown == addresses;
    }
  }

  lemma WalkOn(ids: set<nat>, cursor: nat, m: nat)
    requires Probe(ids, cursor) == Some(m)
    ensures WalkEnd(ids, m) == WalkEnd(ids, cursor) && m > cursor
    ensures |Rest(ids, m)| < |Rest(ids, cursor)|
  {
    RestShrinks(ids, cursor, m);
  }

  lemma WalkStops(ids: set<nat>, cursor: nat)
    requires Probe(ids, cursor) == None
    ensures WalkEnd(ids, cursor) == cursor
  {
  }

  /** Every point of the trailer walk is a possible state after a crash. */
  lemma TrailersStayBetween(trailers: map<nat, Trailer>, authors: map<nat, Author>, addresses: Addresses,
                            inv0: Involvement, start: Involvement, cursor: nat)
    requires TrailersOk(trailers) && AuthorsOk(authors) && OneToOne(addresses)
    requires UniqueKeys(trailers, TrailerRow(addresses))
    requires cursor <= WalkEnd(trailers.Keys, 0) && Between(inv0, start, Image(trailers, authors, addresses))
    ensures Between(inv0, Page(trailers, TrailerRow(addresses), 0, cursor) + start, Image(trailers, authors, addresses))
  {
    hide WalkEnd, Page, UniqueKeys, Emails;
    Pages(trailers, TrailerRow(addresses), cursor, WalkEnd(trailers.Keys, 0));
  }

  /** And so is every point of the author walk, which begins with all legacy rows in. */
  lemma AuthorsStayBetween(trailers: map<nat, Trailer>, authors: map<nat, Author>, addresses: Addresses,
                           inv0: Involvement, start: Involvement, cursor: nat)
    requires TrailersOk(trailers) && AuthorsOk(authors) && OneToOne(addresses)
    requires UniqueKeys(trailers, TrailerRow(addresses)) && UniqueKeys(authors, AuthorRow(addresses))
    requires cursor <= WalkEnd(authors.Keys, 0) && Between(inv0, start, Image(trailers, authors, addresses))
    ensures Between(inv0, Page(authors, AuthorRow(addresses), 0, cursor)
                          + (Page(trailers, TrailerRow(addresses), 0, WalkEnd(trailers.Keys, 0)) + start),
                    Image(trailers, authors, addresses))
  {
    hide WalkEnd, Page, UniqueKeys, Emails;
    Pages(authors, AuthorRow(addresses), cursor, WalkEnd(authors.Keys, 0));
  }

  lemma AllIn(trailers: map<nat, Trailer>, authors: map<nat, Author>, addresses: Addresses, inv0: Involvement,
              start: Involvement)
    requires TrailersOk(trailers) && AuthorsOk(authors) && OneToOne(addresses)
    requires UniqueKeys(trailers, TrailerRow(addresses)) && UniqueKeys(authors, AuthorRow(addresses))
    requires Between(inv0, start, Image(trailers, authors, addresses))
    ensures Page(authors, AuthorRow(addresses), 0, WalkEnd(authors.Keys, 0))
            + (Page(trailers, TrailerRow(addresses), 0, WalkEnd(trailers.Keys, 0)) + start)
         == Image(trailers, authors, addresses) + inv0
  {
    hide WalkEnd, Page, UniqueKeys, Emails;
  }

  lemma NowPartway(trailers: map<nat, Trailer>, authors: map<nat, Author>, addr0: Addresses, inv0: Involvement,
                   addresses: Addresses, inv: Involvement)
    requires TrailersOk(trailers) && AuthorsOk(authors) && OneToOne(addresses)
    requires Interned(addr0, addresses, Emails(trailers, authors))
    requires Between(inv0, inv, Image(trailers, authors, addresses))
    ensures Partway(trailers, authors, addr0, inv0, addresses, inv)
  {
  }

  class OverDb {
    var trailers: map<nat, Trailer>
    var authors: map<nat, Author>
    var addresses: Addresses
    var inv: Involvement

    ghost predicate Valid()
      reads this
    {
      TrailersOk(trailers) && AuthorsOk(authors) && OneToOne(addresses)
    }

    /** Step 2: the legacy rows, window by window, as long as transactions go through. */
    method CopyTrailers(commits: nat, ghost inv0: Involvement) returns (left: nat, done: bool)
      requires Valid() && UniqueKeys(trailers, TrailerRow(addresses))
      requires Between(inv0, inv, Image(trailers, authors, addresses))
      modifies `inv
      ensures Valid()
      ensures Between(inv0, inv, Image(trailers, authors, addresses))
      ensures left <= commits
      ensures done ==> inv == Page(trailers, TrailerRow(addresses), 0, WalkEnd(trailers.Keys, 0)) + old(inv)
    {
      hide Image, Between, Page, WalkEnd, UniqueKeys, Rest;
      left, done := commits, false;
      var cursor := 0;
      NoPage(trailers, TrailerRow(addresses));
      while true
        invariant left <= commits
        invariant WalkEnd(trailers.Keys, cursor) == WalkEnd(trailers.Keys, 0)
        invariant inv == Page(trailers, TrailerRow(addresses), 0, cursor) + old(inv)
        invariant Between(inv0, inv, Image(trailers, authors, addresses))
        decreases |Rest(trailers.Keys, cursor)|
      {
        var probed := Probe(trailers.Keys, cursor);
        if probed.None? {
          break;
        }
        if left == 0 {
          return;
        }
        left := left - 1;
        WalkOn(trailers.Keys, cursor, probed.value);
        Pages(trailers, TrailerRow(addresses), cursor, probed.value);
        MergeIsAssociative(Page(trailers, TrailerRow(addresses), cursor, probed.value),
          Page(trailers, TrailerRow(addresses), 0, cursor), old(inv));
        inv := Page(trailers, TrailerRow(addresses), cursor, probed.value) + inv;
        cursor := probed.value;
        TrailersStayBetween(trailers, authors, addresses, inv0, old(inv), cursor);
      }
      WalkStops(trailers.Keys, cursor);
      done := true;
    }

    /** Step 3: an author row per message with a sender, the same way. */
    method CopyAuthors(commits: nat, ghost inv0: Involvement, ghost start: Involvement) returns (left: nat, done: bool)
      requires Valid() && UniqueKeys(trailers, TrailerRow(addresses)) && UniqueKeys(authors, AuthorRow(addresses))
      requires Between(inv0, start, Image(trailers, authors, addresses))
      requires Between(inv0, inv, Image(trailers, authors, addresses))
      requires inv == Page(trailers, TrailerRow(addresses), 0, WalkEnd(trailers.Keys, 0)) + start
      modifies `inv
      ensures Valid()
      ensures Between(inv0, inv, Image(trailers, authors, addresses))
      ensures left <= commits
      ensures done ==> inv == Page(authors, AuthorRow(addresses), 0, WalkEnd(authors.Keys, 0)) + old(inv)
    {
      hide Image, Between, Page, WalkEnd, UniqueKeys, Rest;
      left, done := commits, false;
      var cursor := 0;
      NoPage(authors, AuthorRow(addresses));
      while true
        invariant left <= commits
        invariant WalkEnd(authors.Keys, cursor) == WalkEnd(authors.Keys, 0)
        invariant inv == Page(authors, AuthorRow(addresses), 0, cursor) + old(inv)
        invariant Between(inv0, inv, Image(trailers, authors, addresses))
        decreases |Rest(authors.Keys, cursor)|
      {
        var probed := Probe(authors.Keys, cursor);
        if probed.None? {
          break;
        }
        if left == 0 {
          return;
        }
        left := left - 1;
        WalkOn(authors.Keys, cursor, probed.value);
        Pages(authors, AuthorRow(addresses), cursor, probed.value);
        MergeIsAssociative(Page(authors, AuthorRow(addresses), cursor, probed.value),
          Page(authors, AuthorRow(addresses), 0, cursor), old(inv));
        inv := Page(authors, AuthorRow(addresses), cursor, probed.value) + inv;
        cursor := probed.value;
        AuthorsStayBetween(trailers, authors, addresses, inv0, start, cursor);
      }
      WalkStops(authors.Keys, cursor);
      done := true;
    }

    /**
      `migrate_to_involvement_schema`. The process dies after `commits` transactions; `addr0` and `inv0`
      are the tables before the first of the runs.
     */
    method Migrate(commits: nat, ghost addr0: Addresses, ghost inv0: Involvement)
      returns (finished: bool, addressCount: nat, rowCount: nat, dropped: nat)
      requires Valid() && OneToOne(addr0)
      requires Partway(trailers, authors, addr0, inv0, addresses, inv)
      modifies `trailers, `addresses, `inv
      ensures Valid()
      ensures !finished ==> trailers == old(trailers) && Partway(trailers, authors, addr0, inv0, addresses, inv)
      ensures finished ==> commits >= 2
      ensures finished ==> trailers == map[] && Interned(addr0, addresses, Emails(old(trailers), authors))
      ensures finished ==> inv == Image(old(trailers), authors, addresses) + inv0
      ensures finished ==> addressCount == |addresses| && rowCount == |inv| && dropped == |old(trailers)|
      ensures finished ==> forall i ::
        i in old(trailers) && old(trailers)[i].email != [] && GapFree(old(trailers).Keys, i) ==>
          TrailerArrived(old(trailers)[i], addresses, inv0, inv)
      ensures finished ==> forall i ::
        i in authors && authors[i].from.Some? && authors[i].from.value != [] && GapFree(authors.Keys, i) ==>
          AuthorArrived(authors[i], addresses, inv0, inv)
      ensures finished ==> forall k ::
        k in inv && k !in inv0 ==> Explained(old(trailers), authors, addresses, k, inv[k])
    {
      hide Interned, Image, Between, Emails, Page, WalkEnd, UniqueKeys, OneToOne, AuthorsOk, TrailersOk, Partway;
      hide GapFree, TrailerArrived, AuthorArrived, Explained;
      finished, addressCount, rowCount, dropped := false, 0, 0, 0;
      if commits == 0 {
        return;
      }
      var emails := Emails(trailers, authors);
      EmailsAreNotEmpty(trailers, authors);
      var grown := Intern(addresses, emails);
      AfterIntern(trailers, authors, addr0, inv0, addresses, inv, grown);
      addresses := grown;
      addressCount := |addresses|;
      ghost var start := inv;
      TrailerKeysUnique(trailers, addresses);
      AuthorKeysUnique(authors, addresses);
      var left, done := CopyTrailers(commits - 1, inv0);
      if done {
        left, done := CopyAuthors(left, inv0, start);
        AllIn(trailers, authors, addresses, inv0, start);
      }
      NowPartway(trailers, authors, addr0, inv0, addresses, inv);
      if !done || left == 0 {
        return;
      }
      rowCount := |inv|;
      dropped := |trailers|;
      NoTrailersOk();
      MigratedColumns(trailers, authors, addr0, addresses, inv0, inv);
      trailers := map[];
      finished := true;
    }
  }

  // ----- What is migrated ---------------------------------------------------

  /** Exactly the rows without a gap before them are migrated. */
  lemma ImageIsExactly(trailers: map<nat, Trailer>, authors: map<nat, Author>, addresses: Addresses, k: InvKey)
    requires TrailersOk(trailers) && AuthorsOk(authors) && OneToOne(addresses)
    ensures k in Image(trailers, authors, addresses)
       <==> (exists i: nat :: Makes(trailers, TrailerRow(addresses), i, k) && GapFree(trailers.Keys, i))
            || (exists i: nat :: Makes(authors, AuthorRow(addresses), i, k) && GapFree(authors.Keys, i))
  {
    TrailerKeysUnique(trailers, addresses);
    AuthorKeysUnique(authors, addresses);
    ReachedExactly(trailers, TrailerRow(addresses), k);
    ReachedExactly(authors, AuthorRow(addresses), k);
  }

  lemma ReachedExactly<S>(rows: map<nat, S>, row: S -> Option<InvRow>, k: InvKey)
    requires UniqueKeys(rows, row) && 0 !in rows
    ensures k in Page(rows, row, 0, WalkEnd(rows.Keys, 0))
       <==> exists i: nat :: Makes(rows, row, i, k) && GapFree(rows.Keys, i)
  {
    hide Page, WalkEnd, GapFree, UniqueKeys;
    var end := WalkEnd(rows.Keys, 0);
    if k in Page(rows, row, 0, end) {
      var i := PageMadeBy(rows, row, 0, end, k);
      WalkReachesExactly(rows.Keys, i);
    }
    forall i: nat | Makes(rows, row, i, k) && GapFree(rows.Keys, i) ensures k in Page(rows, row, 0, end) {
      WalkReachesExactly(rows.Keys, i);
      PageMakes(rows, row, 0, end, i, k);
    }
  }

  /** The legacy row as the migration writes it: its own kind, message and list, under the number of its address. */
  ghost predicate TrailerArrived(t: Trailer, addresses: Addresses, inv0: Involvement, inv: Involvement) {
    && t.email in addresses
    && var k := InvKey(t.kind, addresses[t.email], t.mid, t.list);
       k in inv && inv[k] == if k in inv0 then inv0[k] else t.date
  }

  /** The author row as the migration writes it, with the kind "from". */
  ghost predicate AuthorArrived(a: Author, addresses: Addresses, inv0: Involvement, inv: Involvement) {
    && a.from.Some? && a.from.value in addresses
    && InvKey([102, 114, 111, 109], addresses[a.from.value], a.mid, a.list) in inv
  }

  /** A row the migration adds comes from a legacy row, with its date, or from an author row. */
  ghost predicate Explained(trailers: map<nat, Trailer>, authors: map<nat, Author>, addresses: Addresses,
                            k: InvKey, date: Option<int>) {
    || (exists i ::
          && i in trailers && GapFree(trailers.Keys, i) && trailers[i].email in addresses && date == trailers[i].date
          && k == InvKey(trailers[i].kind, addresses[trailers[i].email], trailers[i].mid, trailers[i].list))
    || (exists i ::
          && i in authors && GapFree(authors.Keys, i) && authors[i].from.Some? && authors[i].from.value in addresses
          && date == authors[i].date
          && k == InvKey([102, 114, 111, 109], addresses[authors[i].from.value], authors[i].mid, authors[i].list))
  }

  /** The finished migration, column by column. */
  lemma MigratedColumns(trailers: map<nat, Trailer>, authors: map<nat, Author>, addr0: Addresses, addresses: Addresses,
                        inv0: Involvement, inv: Involvement)
    requires TrailersOk(trailers) && AuthorsOk(authors) && Interned(addr0, addresses, Emails(trailers, authors))
    requires inv == Image(trailers, authors, addresses) + inv0
    ensures forall i :: i in trailers && trailers[i].email != [] && GapFree(trailers.Keys, i) ==>
      TrailerArrived(trailers[i], addresses, inv0, inv)
    ensures forall i ::
      i in authors && authors[i].from.Some? && authors[i].from.value != [] && GapFree(authors.Keys, i) ==>
        AuthorArrived(authors[i], addresses, inv0, inv)
    ensures forall k :: k in inv && k !in inv0 ==> Explained(trailers, authors, addresses, k, inv[k])
  {
    hide GapFree, Image, UniqueKeys, TrailersOk, AuthorsOk;
    forall i | i in trailers && trailers[i].email != [] && GapFree(trailers.Keys, i)
      ensures TrailerArrived(trailers[i], addresses, inv0, inv)
    {
      assert trailers[i].email in Emails(trailers, authors);
      var k := InvKey(trailers[i].kind, addresses[trailers[i].email], trailers[i].mid, trailers[i].list);
      assert Makes(trailers, TrailerRow(addresses), i, k);
      ImageKeepsDates(trailers, authors, addresses, k, i);
    }
    forall i | i in authors && authors[i].from.Some? && authors[i].from.value != [] && GapFree(authors.Keys, i)
      ensures AuthorArrived(authors[i], addresses, inv0, inv)
    {
      assert authors[i].from.value in Emails(trailers, authors);
      var k := InvKey([102, 114, 111, 109], addresses[authors[i].from.value], authors[i].mid, authors[i].list);
      assert Makes(authors, AuthorRow(addresses), i, k);
      ImageIsExactly(trailers, authors, addresses, k);
    }
    forall k | k in inv && k !in inv0 ensures Explained(trailers, authors, addresses, k, inv[k]) {
      AddedIsExplained(trailers, authors, addresses, k);
    }
  }

  lemma AddedIsExplained(trailers: map<nat, Trailer>, authors: map<nat, Author>, addresses: Addresses, k: InvKey)
    requires TrailersOk(trailers) && AuthorsOk(authors) && OneToOne(addresses)
    requires k in Image(trailers, authors, addresses)
    ensures Explained(trailers, authors, addresses, k, Image(trailers, authors, addresses)[k])
  {
    hide GapFree, Image, UniqueKeys, TrailersOk, AuthorsOk;
    ImageIsExactly(trailers, authors, addresses, k);
    if i: nat :| Makes(trailers, TrailerRow(addresses), i, k) && GapFree(trailers.Keys, i) {
      ImageKeepsDates(trailers, authors, addresses, k, i);
    } else {
      var i: nat :| Makes(authors, AuthorRow(addresses), i, k) && GapFree(authors.Keys, i);
      UnreachedIsNotMade(trailers, authors, addresses, k, i);
    }
  }

  /** The author row gives the date where no legacy row with the same key is reached. */
  lemma UnreachedIsNotMade(trailers: map<nat, Trailer>, authors: map<nat, Author>, addresses: Addresses, k: InvKey,
                           i: nat)
    requires TrailersOk(trailers) && AuthorsOk(authors) && OneToOne(addresses)
    requires Makes(authors, AuthorRow(addresses), i, k) && GapFree(authors.Keys, i)
    requires forall j: nat :: Makes(trailers, TrailerRow(addresses), j, k) ==> !GapFree(trailers.Keys, j)
    ensures k in Image(trailers, authors, addresses) && Image(trailers, authors, addresses)[k] == authors[i].date
  {
    hide Page, WalkEnd, GapFree, UniqueKeys;
    TrailerKeysUnique(trailers, addresses);
    AuthorKeysUnique(authors, addresses);
    WalkReachesExactly(authors.Keys, i);
    PageMakes(authors, AuthorRow(addresses), 0, WalkEnd(authors.Keys, 0), i, k);
    ReachedExactly(trailers, TrailerRow(addresses), k);
  }

  /** A migrated row keeps its date; the legacy row decides where an author row has the same key. */
  lemma ImageKeepsDates(trailers: map<nat, Trailer>, authors: map<nat, Author>, addresses: Addresses, k: InvKey, i: nat)
    requires TrailersOk(trailers) && AuthorsOk(authors) && OneToOne(addresses)
    ensures Makes(trailers, TrailerRow(addresses), i, k) && GapFree(trailers.Keys, i) ==>
      k in Image(trailers, authors, addresses) && Image(trailers, authors, addresses)[k] == trailers[i].date
    ensures (Makes(authors, AuthorRow(addresses), i, k) && GapFree(authors.Keys, i)
             && forall j: nat :: !Makes(trailers, TrailerRow(addresses), j, k)) ==>
      k in Image(trailers, authors, addresses) && Image(trailers, authors, addresses)[k] == authors[i].date
  {
    hide Page, WalkEnd, GapFree, UniqueKeys;
    TrailerKeysUnique(trailers, addresses);
    AuthorKeysUnique(authors, addresses);
    if Makes(trailers, TrailerRow(addresses), i, k) && GapFree(trailers.Keys, i) {
      WalkReachesExactly(trailers.Keys, i);
      PageMakes(trailers, TrailerRow(addresses), 0, WalkEnd(trailers.Keys, 0), i, k);
    }
    if Makes(authors, AuthorRow(addresses), i, k) && GapFree(authors.Keys, i) {
      WalkReachesExactly(authors.Keys, i);
      PageMakes(authors, AuthorRow(addresses), 0, WalkEnd(authors.Keys, 0), i, k);
      if k in Page(trailers, TrailerRow(addresses), 0, WalkEnd(trailers.Keys, 0)) {
        var j := PageMadeBy(trailers, TrailerRow(addresses), 0, WalkEnd(trailers.Keys, 0), k);
      }
    }
  }

  /**
    With the dictionary of step 1 a legacy row is carried over, with its date, exactly when its address
    is not empty and no gap lies before it; otherwise nothing stands for it in the image.
   */
  lemma TrailerIsMigratedExactly(trailers: map<nat, Trailer>, authors: map<nat, Author>, addr0: Addresses,
                                 addresses: Addresses, i: nat)
    requires TrailersOk(trailers) && AuthorsOk(authors) && Interned(addr0, addresses, Emails(trailers, authors))
    requires i in trailers
    ensures TrailerRow(addresses)(trailers[i]).Some? <==> trailers[i].email != []
    ensures trailers[i].email != [] ==>
      Makes(trailers, TrailerRow(addresses), i, TrailerRow(addresses)(trailers[i]).value.key)
    ensures trailers[i].email != [] && GapFree(trailers.Keys, i) ==>
      var k := TrailerRow(addresses)(trailers[i]).value.key;
      k in Image(trailers, authors, addresses) && Image(trailers, authors, addresses)[k] == trailers[i].date
    ensures trailers[i].email != [] && !GapFree(trailers.Keys, i) ==>
      TrailerRow(addresses)(trailers[i]).value.key
      !in Page(trailers, TrailerRow(addresses), 0, WalkEnd(trailers.Keys, 0))
  {
    hide GapFree, WalkEnd, Page, UniqueKeys;
    TrailerKeysUnique(trailers, addresses);
    assert trailers[i].email != [] ==> trailers[i].email in Emails(trailers, authors);
    if trailers[i].email != [] {
      var k := TrailerRow(addresses)(trailers[i]).value.key;
      ImageKeepsDates(trailers, authors, addresses, k, i);
      WalkReachesExactly(trailers.Keys, i);
      PageMakes(trailers, TrailerRow(addresses), 0, WalkEnd(trailers.Keys, 0), i, k);
    }
  }

  /** A gap in the rowids wider than the window loses every legacy row behind it when the table is dropped. */
  lemma GapLosesRows(a: Trailer, b: Trailer, addresses: Addresses)
    requires !SameTrailer(a, b) && b.email in addresses && OneToOne(addresses)
    ensures TrailersOk(map[1 := a, 200_002 := b])
    ensures TrailerRow(addresses)(b).value.key !in Image(map[1 := a, 200_002 := b], map[], addresses)
  {
    var trailers: map<nat, Trailer> := map[1 := a, 200_002 := b];
    var none: map<nat, Author> := map[];
    var k := TrailerRow(addresses)(b).value.key;
    assert TrailersOk(trailers) && AuthorsOk(none);
    LateRowUnreached(trailers, a, b);
    TrailerKeysUnique(trailers, addresses);
    assert Makes(trailers, TrailerRow(addresses), 200_002, k);
    ImageIsExactly(trailers, none, addresses, k);
  }

  lemma LateRowUnreached(trailers: map<nat, Trailer>, a: Trailer, b: Trailer)
    requires trailers == map[1 := a, 200_002 := b]
    ensures !GapFree(trailers.Keys, 200_002)
  {
    assert 1 in trailers.Keys;
    assert !HasNext(trailers.Keys, 1);
  }
}
