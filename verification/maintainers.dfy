/** Looking up the maintainers of a path: which sections claim it, in which order they are listed. */
module Maintainers {
  import opened Base
  import opened Sorting
  import opened Glob

  /** A section; `title` stands for the fields the lookup does not read, `names` are its raw N: expressions. */
  datatype Entry = Entry(title: Bytes, files: seq<Pattern>, excludes: seq<Pattern>, names: seq<Bytes>)

  datatype Hit = Hit(depth: nat, index: nat)

  const DEEPEST_FIRST: (Hit, Hit) -> bool := (a: Hit, b: Hit) => a.depth >= b.depth

  predicate AnyMatches(patterns: seq<Pattern>, path: Bytes) {
    exists p | p in patterns :: PatternMatches(p, path)
  }

  /** The largest depth among the F: patterns that match. */
  function BestDepth(files: seq<Pattern>, path: Bytes): Option<nat> {
    if files == [] then None
    else
      var best := BestDepth(files[..|files| - 1], path);
      var p := files[|files| - 1];
      if !PatternMatches(p, path) then best
      else Some(if best.Some? && best.value >= p.depth then best.value else p.depth)
  }

  /** `nameMatches` says which raw expressions match which paths; one that does not compile matches none. */
  function Rank(e: Entry, path: Bytes, nameMatches: (Bytes, Bytes) -> bool): Option<nat> {
    if AnyMatches(e.excludes, path) then None
    else
      var best := BestDepth(e.files, path);
      if best.Some? then best
      else if exists n | n in e.names :: nameMatches(n, path) then Some(0)
      else None
  }

  /** The entries that qualify, in file order. */
  function Hits(entries: seq<Entry>, path: Bytes, nameMatches: (Bytes, Bytes) -> bool): seq<Hit> {
    if entries == [] then []
    else
      var n := |entries| - 1;
      var rank := Rank(entries[n], path, nameMatches);
      Hits(entries[..n], path, nameMatches) + if rank.Some? then [Hit(rank.value, n)] else []
  }

  function Ranked(entries: seq<Entry>, path: Bytes, nameMatches: (Bytes, Bytes) -> bool): seq<Hit> {
    Sort(Hits(entries, path, nameMatches), DEEPEST_FIRST)
  }

  lemma {:induction false} HitsAre(entries: seq<Entry>, path: Bytes, nameMatches: (Bytes, Bytes) -> bool, h: Hit)
    ensures h in Hits(entries, path, nameMatches)
       <==> h.index < |entries| && Rank(entries[h.index], path, nameMatches) == Some(h.depth)
    decreases |entries|
  {
    hide Rank;
    if entries != [] {
      HitsAre(entries[..|entries| - 1], path, nameMatches, h);
    }
  }

  ghost predicate InFileOrder(hits: seq<Hit>) {
    forall i, j :: 0 <= i < j < |hits| ==> hits[i].index < hits[j].index
  }

  lemma {:induction false} HitsInFileOrder(entries: seq<Entry>, path: Bytes, nameMatches: (Bytes, Bytes) -> bool)
    ensures InFileOrder(Hits(entries, path, nameMatches))
    decreases |entries|
  {
    hide Rank;
    if entries != [] {
      var front := entries[..|entries| - 1];
      HitsInFileOrder(front, path, nameMatches);
      var hits := Hits(front, path, nameMatches);
      forall i | 0 <= i < |hits| ensures hits[i].index < |front| {
        assert hits[i] in hits;
        HitsAre(front, path, nameMatches, hits[i]);
      }
      var rank := Rank(entries[|entries| - 1], path, nameMatches);
      var tail := if rank.Some? then [Hit(rank.value, |front|)] else [];
      assert Hits(entries, path, nameMatches) == hits + tail;
    }
  }

  // ----- The loops ----------------------------------------------------------

  method FirstMatch(patterns: seq<Pattern>, path: Bytes) returns (found: bool)
    ensures found <==> AnyMatches(patterns, path)
  {
    for i := 0 to |patterns|
      invariant forall k :: 0 <= k < i ==> !PatternMatches(patterns[k], path)
    {
      if PatternMatches(patterns[i], path) {
        return true;
      }
    }
    return false;
  }

  method Deepest(files: seq<Pattern>, path: Bytes) returns (best: Option<nat>)
    ensures best == BestDepth(files, path)
  {
    best := None;
    assert files[..0] == [];
    for i := 0 to |files|
      invariant best == BestDepth(files[..i], path)
    {
      var p := files[i];
      assert files[..i + 1][..i] == files[..i];
      if PatternMatches(p, path) {
        best := Some(if best.Some? && best.value >= p.depth then best.value else p.depth);
      }
    }
    assert files[..|files|] == files;
  }

  method NameMatch(names: seq<Bytes>, path: Bytes, nameMatches: (Bytes, Bytes) -> bool) returns (found: bool)
    ensures found <==> exists n | n in names :: nameMatches(n, path)
  {
    for i := 0 to |names|
      invariant forall k :: 0 <= k < i ==> !nameMatches(names[k], path)
    {
      if nameMatches(names[i], path) {
        return true;
      }
    }
    return false;
  }

  /** The entries the hits stand for, one for one. */
  ghost predicate Lists(found: seq<Entry>, hits: seq<Hit>, entries: seq<Entry>) {
    |found| == |hits| && forall i :: 0 <= i < |found| ==>
      hits[i].index < |entries| && found[i] == entries[hits[i].index]
  }

  /** `lookup`. */
  method Lookup(entries: seq<Entry>, path: Bytes, nameMatches: (Bytes, Bytes) -> bool) returns (found: seq<Entry>)
    ensures Lists(found, Ranked(entries, path, nameMatches), entries)
  {
    hide PatternMatches, BestDepth, AnyMatches, Sort;
    var hits: seq<Hit> := [];
    assert entries[..0] == [];
    for i := 0 to |entries|
      invariant hits == Hits(entries[..i], path, nameMatches)
    {
      var entry := entries[i];
      assert entries[..i + 1][..i] == entries[..i];
      var excluded := FirstMatch(entry.excludes, path);
      if excluded {
        continue;
      }
      var best := Deepest(entry.files, path);
      if best.None? && |entry.names| > 0 {
        var named := NameMatch(entry.names, path, nameMatches);
        if named {
          best := Some(0);
        }
      }
      if best.Some? {
        hits := hits + [Hit(best.value, i)];
      }
    }
    assert entries[..|entries|] == entries;
    var ordered := Sort(hits, DEEPEST_FIRST);
    found := [];
    for i := 0 to |ordered|
      invariant |found| == i
      invariant forall k :: 0 <= k < i ==> ordered[k].index < |entries| && found[k] == entries[ordered[k].index]
    {
      SortMember(hits, DEEPEST_FIRST, ordered[i]);
      HitsAre(entries, path, nameMatches, ordered[i]);
      found := found + [entries[ordered[i].index]];
    }
  }

  // ----- What a lookup finds ------------------------------------------------

  /** The patterns `parse` makes of a section's F: and X: lines. */
  ghost predicate FromAsciiGlobs(patterns: seq<Pattern>) {
    forall p :: p in patterns ==> p == Compiled(p.glob) && IsAscii(p.glob)
  }

  ghost predicate SomeGlobMatches(patterns: seq<Pattern>, path: Bytes) {
    exists p :: p in patterns && GlobMatches(p.glob, path)
  }

  /** Not excluded, and claimed by a file glob or, failing that, by a name expression. */
  ghost predicate Claims(e: Entry, path: Bytes, nameMatches: (Bytes, Bytes) -> bool) {
    && !SomeGlobMatches(e.excludes, path)
    && (SomeGlobMatches(e.files, path) || exists n :: n in e.names && nameMatches(n, path))
  }

  /** `d` is the largest number of slashes among the matching globs, or 0 if there is none. */
  ghost predicate IsDepth(e: Entry, path: Bytes, d: nat) {
    if SomeGlobMatches(e.files, path) then
      && (exists p :: p in e.files && GlobMatches(p.glob, path) && d == |set i | 0 <= i < |p.glob| && p.glob[i] == 47|)
      && (forall p :: p in e.files && GlobMatches(p.glob, path) ==> d >= |set i | 0 <= i < |p.glob| && p.glob[i] == 47|)
    else d == 0
  }

  lemma PatternMeaning(patterns: seq<Pattern>, path: Bytes)
    requires FromAsciiGlobs(patterns) && LF !in path
    ensures forall p :: p in patterns ==>
      p.depth == CountSlashes(p.glob) && (PatternMatches(p, path) <==> GlobMatches(p.glob, path))
  {
    forall p | p in patterns
      ensures p.depth == CountSlashes(p.glob) && (PatternMatches(p, path) <==> GlobMatches(p.glob, path))
    {
      CompilationKeepsMeaning(p.glob, path);
    }
  }

  lemma {:induction false} BestDepthIsMax(files: seq<Pattern>, path: Bytes)
    ensures var best := BestDepth(files, path);
      && (best.None? <==> forall p :: p in files ==> !PatternMatches(p, path))
      && (best.Some? ==> exists p :: p in files && PatternMatches(p, path) && p.depth == best.value)
      && (best.Some? ==> forall p :: p in files && PatternMatches(p, path) ==> p.depth <= best.value)
    decreases |files|
  {
    hide PatternMatches;
    if files != [] {
      var front, last := files[..|files| - 1], files[|files| - 1];
      BestDepthIsMax(front, path);
      assert forall p :: p in files <==> p in front || p == last;
    }
  }

  lemma RankMeans(e: Entry, path: Bytes, nameMatches: (Bytes, Bytes) -> bool)
    requires FromAsciiGlobs(e.files) && FromAsciiGlobs(e.excludes) && LF !in path
    ensures Rank(e, path, nameMatches).Some? <==> Claims(e, path, nameMatches)
    ensures Rank(e, path, nameMatches).Some? ==> IsDepth(e, path, Rank(e, path, nameMatches).value)
  {
    hide PatternMatches, GlobMatches, CountSlashes, Compiled, IsAscii, BestDepth;
    PatternMeaning(e.files, path);
    PatternMeaning(e.excludes, path);
    BestDepthIsMax(e.files, path);
    forall p | p in e.files ensures CountSlashes(p.glob) == |set i | 0 <= i < |p.glob| && p.glob[i] == 47| {
      CountSlashesIs(p.glob);
    }
  }

  /**
    For sections with ASCII globs: an entry is found exactly if it claims the path, once, and the result
    runs in non-increasing order of matched depth, in file order where depths are equal.
   */
  lemma LookupFindsExactly(entries: seq<Entry>, path: Bytes, nameMatches: (Bytes, Bytes) -> bool)
    requires LF !in path && forall e :: e in entries ==> FromAsciiGlobs(e.files) && FromAsciiGlobs(e.excludes)
    ensures var ranked := Ranked(entries, path, nameMatches);
      && (forall h :: h in ranked ==>
            h.index < |entries| && Claims(entries[h.index], path, nameMatches)
              && IsDepth(entries[h.index], path, h.depth))
      && (forall i: nat :: i < |entries| && Claims(entries[i], path, nameMatches) ==>
        exists h :: h in ranked && h.index == i)
      && (forall i, j :: 0 <= i < j < |ranked| ==>
            ranked[i].depth > ranked[j].depth
              || (ranked[i].depth == ranked[j].depth && ranked[i].index < ranked[j].index))
  {
    hide Rank, Hits, Sort, Claims, IsDepth, FromAsciiGlobs;
    var hits := Hits(entries, path, nameMatches);
    var ranked := Ranked(entries, path, nameMatches);
    forall h | h in ranked
      ensures h.index < |entries| && Claims(entries[h.index], path, nameMatches)
      ensures IsDepth(entries[h.index], path, h.depth)
    {
      SortMember(hits, DEEPEST_FIRST, h);
      HitsAre(entries, path, nameMatches, h);
      RankMeans(entries[h.index], path, nameMatches);
    }
    forall i: nat | i < |entries| && Claims(entries[i], path, nameMatches)
      ensures exists h :: h in ranked && h.index == i
    {
      RankMeans(entries[i], path, nameMatches);
      var h := Hit(Rank(entries[i], path, nameMatches).value, i);
      HitsAre(entries, path, nameMatches, h);
      SortMember(hits, DEEPEST_FIRST, h);
    }
    RankedInOrder(entries, path, nameMatches);
  }

  function AtDepth(depth: nat): Hit -> bool {
    (h: Hit) => h.depth == depth
  }

  lemma {:induction false} FilterOrder(s: seq<Hit>, p: Hit -> bool, i: nat, j: nat)
    requires i < j < |s| && p(s[i]) && p(s[j])
    ensures exists a, b :: 0 <= a < b < |Filter(s, p)| && Filter(s, p)[a] == s[i] && Filter(s, p)[b] == s[j]
    decreases |s|
  {
    var front, last := s[..|s| - 1], s[|s| - 1];
    if j == |s| - 1 {
      FilterMembers(front, p);
      assert front[i] in Filter(front, p);
      var a :| 0 <= a < |Filter(front, p)| && Filter(front, p)[a] == s[i];
      assert Filter(s, p)[a] == s[i] && Filter(s, p)[|Filter(front, p)|] == last;
    } else {
      FilterOrder(front, p, i, j);
      var a, b :| 0 <= a < b < |Filter(front, p)| && Filter(front, p)[a] == s[i] && Filter(front, p)[b] == s[j];
      assert Filter(s, p)[a] == s[i] && Filter(s, p)[b] == s[j];
    }
  }

  lemma {:induction false} FilterKeepsIndexOrder(s: seq<Hit>, p: Hit -> bool)
    requires InFileOrder(s)
    ensures InFileOrder(Filter(s, p))
    decreases |s|
  {
    if s != [] {
      var front := s[..|s| - 1];
      FilterKeepsIndexOrder(front, p);
      FilterMembers(front, p);
      forall x | 0 <= x < |Filter(front, p)| ensures Filter(front, p)[x].index < s[|s| - 1].index {
        assert Filter(front, p)[x] in front;
      }
    }
  }

  lemma TiesInFileOrder(entries: seq<Entry>, path: Bytes, nameMatches: (Bytes, Bytes) -> bool, p: Hit -> bool)
    ensures InFileOrder(Filter(Hits(entries, path, nameMatches), p))
  {
    HitsInFileOrder(entries, path, nameMatches);
    FilterKeepsIndexOrder(Hits(entries, path, nameMatches), p);
  }

  lemma RankedInOrder(entries: seq<Entry>, path: Bytes, nameMatches: (Bytes, Bytes) -> bool)
    ensures var ranked := Ranked(entries, path, nameMatches);
      forall i, j :: 0 <= i < j < |ranked| ==>
        ranked[i].depth > ranked[j].depth || (ranked[i].depth == ranked[j].depth && ranked[i].index < ranked[j].index)
  {
    hide Hits, Sort, Filter, Rank;
    var hits := Hits(entries, path, nameMatches);
    var ranked := Ranked(entries, path, nameMatches);
    SortSorts(hits, DEEPEST_FIRST);
    forall i, j | 0 <= i < j < |ranked|
      ensures ranked[i].depth > ranked[j].depth
        || (ranked[i].depth == ranked[j].depth && ranked[i].index < ranked[j].index)
    {
      assert DEEPEST_FIRST(ranked[i], ranked[j]);
      if ranked[i].depth == ranked[j].depth {
        var p := AtDepth(ranked[i].depth);
        SortKeepsTies(hits, DEEPEST_FIRST, p);
        TiesInFileOrder(entries, path, nameMatches, p);
        FilterOrder(ranked, p, i, j);
        var a, b :| 0 <= a < b < |Filter(ranked, p)| && Filter(ranked, p)[a] == ranked[i]
          && Filter(ranked, p)[b] == ranked[j];
      }
    }
  }
}
