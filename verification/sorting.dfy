/**
  Sequences: stable sorting by a total preorder, filtering and taking, ascending listings of number sets,
  and the bytewise (lexicographic) order of byte strings with its laws.
 */
module Sorting {
  import opened Base

  ghost predicate TotalPreorder<T(!new)>(le: (T, T) -> bool) {
    && (forall x, y :: le(x, y) || le(y, x))
    && (forall x, y, z :: le(x, y) && le(y, z) ==> le(x, z))
  }

  ghost predicate Sorted<T>(s: seq<T>, le: (T, T) -> bool) {
    forall i, j :: 0 <= i < j < |s| ==> le(s[i], s[j])
  }

  ghost predicate Distinct<T>(s: seq<T>) {
    forall i, j :: 0 <= i < j < |s| ==> s[i] != s[j]
  }

  /** Places `x` behind the last element that is not greater. */
  function Insert<T>(x: T, s: seq<T>, le: (T, T) -> bool): seq<T> {
    if s == [] || le(s[|s| - 1], x) then s + [x]
    else Insert(x, s[..|s| - 1], le) + [s[|s| - 1]]
  }

  /** Stable sort. */
  function Sort<T>(s: seq<T>, le: (T, T) -> bool): seq<T> {
    if s == [] then [] else Insert(s[|s| - 1], Sort(s[..|s| - 1], le), le)
  }

  function Filter<T>(s: seq<T>, p: T -> bool): seq<T> {
    if s == [] then []
    else Filter(s[..|s| - 1], p) + if p(s[|s| - 1]) then [s[|s| - 1]] else []
  }

  function Map<T, U>(s: seq<T>, f: T -> U): (r: seq<U>)
    ensures |r| == |s|
    ensures forall i :: 0 <= i < |s| ==> r[i] == f(s[i])
  {
    seq(|s|, i requires 0 <= i < |s| => f(s[i]))
  }

  function Take<T>(s: seq<T>, n: nat): (r: seq<T>)
    ensures r == if n <= |s| then s[..n] else s
  {
    s[..Min(n, |s|)]
  }

  lemma TakeHolds<T>(s: seq<T>, n: nat, j: nat)
    requires j < |s|
    ensures j < n ==> s[j] in Take(s, n)
  {
    if j < n {
      assert Take(s, n)[j] == s[j];
    }
  }

  lemma InsertPermutes<T>(x: T, s: seq<T>, le: (T, T) -> bool)
    ensures multiset(Insert(x, s, le)) == multiset(s) + multiset{x}
  {
    if s != [] && !le(s[|s| - 1], x) {
      InsertPermutes(x, s[..|s| - 1], le);
      assert s == s[..|s| - 1] + [s[|s| - 1]];
    }
  }

  lemma SortPermutes<T>(s: seq<T>, le: (T, T) -> bool)
    ensures multiset(Sort(s, le)) == multiset(s)
    ensures |Sort(s, le)| == |s|
  {
    if s != [] {
      SortPermutes(s[..|s| - 1], le);
      InsertPermutes(s[|s| - 1], Sort(s[..|s| - 1], le), le);
      assert s == s[..|s| - 1] + [s[|s| - 1]];
    }
    assert |multiset(Sort(s, le))| == |multiset(s)|;
  }

  lemma SortMember<T>(s: seq<T>, le: (T, T) -> bool, x: T)
    ensures x in Sort(s, le) <==> x in s
  {
    SortPermutes(s, le);
    assert x in Sort(s, le) <==> x in multiset(Sort(s, le));
    assert x in s <==> x in multiset(s);
  }

  lemma InsertMembers<T>(x: T, s: seq<T>, le: (T, T) -> bool)
    ensures forall y :: y in Insert(x, s, le) <==> y == x || y in s
  {
    InsertPermutes(x, s, le);
    forall y ensures y in Insert(x, s, le) <==> y == x || y in s {
      assert y in Insert(x, s, le) <==> y in multiset(Insert(x, s, le));
      assert y in s <==> y in multiset(s);
    }
  }

  lemma InsertSorts<T(!new)>(x: T, s: seq<T>, le: (T, T) -> bool)
    requires TotalPreorder(le) && Sorted(s, le)
    ensures Sorted(Insert(x, s, le), le)
  {
    if s != [] {
      var front, last := s[..|s| - 1], s[|s| - 1];
      if le(last, x) {
        assert forall i :: 0 <= i < |s| ==> le(s[i], x);
      } else {
        InsertSorts(x, front, le);
        InsertMembers(x, front, le);
        var r := Insert(x, front, le);
        forall i | 0 <= i < |r| ensures le(r[i], last) {
          assert r[i] in r;
        }
      }
    }
  }

  lemma SortSorts<T(!new)>(s: seq<T>, le: (T, T) -> bool)
    requires TotalPreorder(le)
    ensures Sorted(Sort(s, le), le)
  {
    if s != [] {
      SortSorts(s[..|s| - 1], le);
      InsertSorts(s[|s| - 1], Sort(s[..|s| - 1], le), le);
    }
  }

  lemma SortDistinct<T>(s: seq<T>, le: (T, T) -> bool)
    requires Distinct(s)
    ensures Distinct(Sort(s, le))
  {
    SortPermutes(s, le);
    DistinctCounts(s);
    var r := Sort(s, le);
    forall i, j | 0 <= i < j < |r| ensures r[i] != r[j] {
      if r[i] == r[j] {
        RepeatCounts(r, i, j);
      }
    }
  }

  lemma RepeatCounts<T>(s: seq<T>, i: nat, j: nat)
    requires i < j < |s| && s[i] == s[j]
    ensures multiset(s)[s[i]] >= 2
  {
    assert s == s[..j] + [s[j]] + s[j + 1..];
    assert s[..j][i] in multiset(s[..j]);
  }

  lemma DistinctCounts<T>(s: seq<T>)
    requires Distinct(s)
    ensures forall x :: multiset(s)[x] <= 1
  {
    if s != [] {
      var front, last := s[..|s| - 1], s[|s| - 1];
      DistinctCounts(front);
      assert s == front + [last];
      assert last !in front;
      assert multiset(front)[last] == 0;
    }
  }

  // ----- Stability ----------------------------------------------------------

  lemma FilterAppend<T>(a: seq<T>, b: seq<T>, p: T -> bool)
    ensures Filter(a + b, p) == Filter(a, p) + Filter(b, p)
  {
    if b == [] {
      assert a + b == a;
    } else {
      FilterAppend(a, b[..|b| - 1], p);
      assert (a + b)[..|a + b| - 1] == a + b[..|b| - 1];
    }
  }

  lemma FilterMembers<T>(s: seq<T>, p: T -> bool)
    ensures forall x :: x in Filter(s, p) <==> x in s && p(x)
  {
    if s != [] {
      FilterMembers(s[..|s| - 1], p);
      assert s == s[..|s| - 1] + [s[|s| - 1]];
    }
  }

  /** `p` picks out elements that tie with each other. */
  ghost predicate TieClass<T>(p: T -> bool, s: seq<T>, le: (T, T) -> bool) {
    forall x, y :: x in s && y in s && p(x) && p(y) ==> le(x, y)
  }

  lemma {:induction false} InsertKeepsTies<T>(x: T, s: seq<T>, le: (T, T) -> bool, p: T -> bool)
    requires TieClass(p, s + [x], le)
    ensures Filter(Insert(x, s, le), p) == Filter(s, p) + Filter([x], p)
  {
    FilterAppend(s, [x], p);
    if s != [] && !le(s[|s| - 1], x) {
      var front, last := s[..|s| - 1], s[|s| - 1];
      assert s == front + [last];
      assert last in s + [x] && x in s + [x];
      assert !p(last) || !p(x);
      assert TieClass(p, front + [x], le) by {
        assert forall y :: y in front + [x] ==> y in s + [x];
      }
      InsertKeepsTies(x, front, le, p);
      FilterAppend(Insert(x, front, le), [last], p);
      FilterAppend(front, [last], p);
      FilterOne(x, p);
      FilterOne(last, p);
    }
  }

  lemma FilterOne<T>(x: T, p: T -> bool)
    ensures Filter([x], p) == if p(x) then [x] else []
  {
    assert [x][..0] == [];
  }

  /** Stability: elements that tie keep the order they came in. */
  lemma {:induction false} SortKeepsTies<T>(s: seq<T>, le: (T, T) -> bool, p: T -> bool)
    requires TieClass(p, s, le)
    ensures Filter(Sort(s, le), p) == Filter(s, p)
    decreases |s|
  {
    if s != [] {
      var front, last := s[..|s| - 1], s[|s| - 1];
      assert s == front + [last];
      assert forall y :: y in front ==> y in s;
      SortKeepsTies(front, le, p);
      var done := Sort(front, le);
      assert TieClass(p, done + [last], le) by {
        forall y | y in done + [last] ensures y in s {
          assert last in s;
          SortMember(front, le, y);
        }
      }
      InsertKeepsTies(last, done, le, p);
      FilterAppend(front, [last], p);
    }
  }

  lemma NoMembers<T(!new)>(s: seq<T>)
    ensures s == [] <==> forall x :: x !in s
  {
    if s != [] {
      assert s[0] in s;
    }
  }

  lemma TailMember<T>(a: seq<T>, x: T)
    requires a != [] && a[0] !in a[1..]
    ensures x in a[1..] <==> x in a && x != a[0]
  {
    if x in a && x != a[0] {
      var i :| 0 <= i < |a| && a[i] == x;
      assert a[1..][i - 1] == x;
    }
  }

  /** A list in strict order is decided by its members. */
  lemma {:induction false} OrderedIsUnique<T(!new)>(a: seq<T>, b: seq<T>, less: (T, T) -> bool)
    requires Sorted(a, less) && Sorted(b, less) && forall x, y :: less(x, y) ==> !less(y, x)
    requires forall x :: x in a <==> x in b
    ensures a == b
    decreases |a|
  {
    NoMembers(a);
    NoMembers(b);
    if a != [] {
      assert a[0] in b && b[0] in a;
      forall x | x in a[1..] ensures less(a[0], x) {
      }
      forall x | x in b[1..] ensures less(b[0], x) {
      }
      assert a == [a[0]] + a[1..] && b == [b[0]] + b[1..];
      assert a[0] == b[0];
      forall x ensures x in a[1..] <==> x in b[1..] {
        TailMember(a, x);
        TailMember(b, x);
      }
      OrderedIsUnique(a[1..], b[1..], less);
    }
  }

  // ----- Number sets in ascending order -------------------------------------

  lemma {:induction false} SetHasMin(s: set<nat>, n: nat)
    requires n in s
    ensures exists m :: m in s && forall x :: x in s ==> m <= x
    decreases n
  {
    if x :| x in s && x < n {
      SetHasMin(s, x);
    }
  }

  function MinOf(s: set<nat>): (m: nat)
    requires s != {}
    ensures m in s && forall x :: x in s ==> m <= x
  {
    ghost var y :| y in s;
    SetHasMin(s, y);
    var m :| m in s && forall x :: x in s ==> m <= x;
    m
  }

  /** The members of `s` in ascending order. */
  function Listing(s: set<nat>): (r: seq<nat>) {
    if s == {} then [] else [MinOf(s)] + Listing(s - {MinOf(s)})
  }

  ghost predicate Ascending(r: seq<nat>) {
    forall i, j :: 0 <= i < j < |r| ==> r[i] < r[j]
  }

  lemma {:induction false} ListingIsAscending(s: set<nat>)
    ensures forall x :: x in Listing(s) <==> x in s
    ensures |Listing(s)| == |s|
    ensures Ascending(Listing(s))
    decreases |s|
  {
    if s != {} {
      var m := MinOf(s);
      var rest := s - {m};
      assert s == {m} + rest;
      assert |s| == 1 + |rest|;
      ListingIsAscending(rest);
      var tail := Listing(rest);
      assert Listing(s) == [m] + tail;
      forall i | 0 <= i < |tail| ensures m < tail[i] {
        assert tail[i] in tail;
      }
      forall x ensures x in Listing(s) <==> x in s {
        assert x in [m] + tail <==> x == m || x in tail;
      }
    }
  }

  // ----- Bytewise (lexicographic) order -------------------------------------

  predicate LexLe(a: Bytes, b: Bytes) {
    a == [] || (b != [] && (a[0] < b[0] || (a[0] == b[0] && LexLe(a[1..], b[1..]))))
  }

  predicate LexLt(a: Bytes, b: Bytes) {
    LexLe(a, b) && a != b
  }

  lemma LexTotal(a: Bytes, b: Bytes)
    ensures LexLe(a, b) || LexLe(b, a)
  {
  }

  lemma LexReflexive(a: Bytes)
    ensures LexLe(a, a)
  {
  }

  lemma LexTransitive(a: Bytes, b: Bytes, c: Bytes)
    requires LexLe(a, b) && LexLe(b, c)
    ensures LexLe(a, c)
  {
  }

  lemma LexAntisymmetric(a: Bytes, b: Bytes)
    requires LexLe(a, b) && LexLe(b, a)
    ensures a == b
  {
    if a != [] && b != [] {
      LexAntisymmetric(a[1..], b[1..]);
      assert a == [a[0]] + a[1..] && b == [b[0]] + b[1..];
    }
  }

  const LEX: (Bytes, Bytes) -> bool := (a, b) => LexLe(a, b)

  lemma LexIsTotalPreorder()
    ensures TotalPreorder(LEX)
  {
    forall x, y ensures LEX(x, y) || LEX(y, x) {
      LexTotal(x, y);
    }
    forall x, y, z | LEX(x, y) && LEX(y, z) ensures LEX(x, z) {
      LexTransitive(x, y, z);
    }
  }
}
