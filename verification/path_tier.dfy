/** The path vocabulary: building it, looking paths up in it, and the file it is kept in. */
module PathTier {
  import opened Base
  import opened Sorting
  import opened Text

  ghost predicate StrictlyUp(s: seq<Bytes>) {
    forall i, j :: 0 <= i < j < |s| ==> LexLt(s[i], s[j])
  }

  // ----- Order --------------------------------------------------------------

  lemma {:induction false} PrefixIsBelow(p: Bytes, s: Bytes)
    requires p <= s
    ensures LexLe(p, s)
    decreases |p|
  {
    if p != [] {
      PrefixIsBelow(p[1..], s[1..]);
    }
  }

  /** Past the block: once a string above the prefix does not start with it, no later one does. */
  lemma {:induction false} BlockEnds(p: Bytes, s: Bytes, t: Bytes)
    requires LexLe(p, s) && !(p <= s) && LexLe(s, t)
    ensures !(p <= t)
    decreases |p|
  {
    if p <= t && s[0] == p[0] {
      assert p == [p[0]] + p[1..] && s == [s[0]] + s[1..];
      BlockEnds(p[1..], s[1..], t[1..]);
    }
  }

  lemma LtFromNotLe(a: Bytes, b: Bytes)
    ensures !LexLe(a, b) ==> LexLt(b, a)
    ensures LexLt(a, b) ==> !LexLe(b, a)
  {
    LexTotal(a, b);
    LexReflexive(a);
    if LexLe(a, b) && LexLe(b, a) {
      LexAntisymmetric(a, b);
    }
  }

  lemma LtTrans(a: Bytes, b: Bytes, c: Bytes)
    requires LexLe(a, b) && LexLt(b, c)
    ensures LexLt(a, c)
  {
    LexTransitive(a, b, c);
    LtFromNotLe(b, c);
  }

  // ----- Sorting and removing duplicates ------------------------------------

  /** Drops an element equal to the one before it. */
  function Dedup(s: seq<Bytes>): seq<Bytes> {
    if s == [] then []
    else if |s| > 1 && s[|s| - 2] == s[|s| - 1] then Dedup(s[..|s| - 1])
    else Dedup(s[..|s| - 1]) + [s[|s| - 1]]
  }

  function Normal(list: seq<Bytes>): seq<Bytes> {
    Dedup(Sort(list, LEX))
  }

  lemma {:induction false} DedupMembers(s: seq<Bytes>, x: Bytes)
    ensures x in Dedup(s) <==> x in s
    decreases |s|
  {
    if s != [] {
      var front, last := s[..|s| - 1], s[|s| - 1];
      DedupMembers(front, x);
      assert s == front + [last];
      if |s| > 1 && s[|s| - 2] == last {
        assert front[|front| - 1] == last;
      }
    }
  }

  lemma {:induction false} DedupOfSorted(s: seq<Bytes>)
    requires Sorted(s, LEX)
    ensures StrictlyUp(Dedup(s))
    ensures s != [] ==> Dedup(s) != [] && Dedup(s)[|Dedup(s)| - 1] == s[|s| - 1]
    decreases |s|
  {
    hide LexLe;
    if |s| > 1 {
      var front, last := s[..|s| - 1], s[|s| - 1];
      DedupOfSorted(front);
      var d := Dedup(front);
      if s[|s| - 2] != last {
        assert LEX(s[|s| - 2], last);
        forall i | 0 <= i < |d| ensures LexLt(d[i], last) {
          if i < |d| - 1 {
            LtTrans(d[i], d[|d| - 1], last);
          }
        }
      }
    } else if |s| == 1 {
      assert Dedup(s) == [s[0]];
    }
  }

  lemma NormalIs(list: seq<Bytes>)
    ensures StrictlyUp(Normal(list))
    ensures forall x :: x in Normal(list) <==> x in list
  {
    LexIsTotalPreorder();
    SortSorts(list, LEX);
    DedupOfSorted(Sort(list, LEX));
    forall x ensures x in Normal(list) <==> x in list {
      DedupMembers(Sort(list, LEX), x);
      SortMember(list, LEX, x);
    }
  }

  /** A strictly ascending list is decided by its members. */
  lemma UpIsUnique(a: seq<Bytes>, b: seq<Bytes>)
    requires StrictlyUp(a) && StrictlyUp(b) && forall x :: x in a <==> x in b
    ensures a == b
  {
    var less := (x: Bytes, y: Bytes) => LexLt(x, y);
    forall x, y | less(x, y) ensures !less(y, x) {
      LtFromNotLe(x, y);
    }
    OrderedIsUnique(a, b, less);
  }

  // ----- Basenames ----------------------------------------------------------

  /** `rsplit('/').next()`: what stands behind the last slash. */
  function Basename(path: Bytes): Bytes {
    if path == [] || path[|path| - 1] == SLASH then []
    else Basename(path[..|path| - 1]) + [path[|path| - 1]]
  }

  ghost predicate IsBasename(path: Bytes, b: Bytes) {
    SLASH !in b && (path == b || exists dir: Bytes :: path == dir + [SLASH] + b)
  }

  lemma {:induction false} BasenameIs(path: Bytes)
    ensures IsBasename(path, Basename(path))
    ensures forall b :: IsBasename(path, b) ==> b == Basename(path)
    decreases |path|
  {
    hide IsBasename, Basename;
    if path == [] {
      EmptyBasename();
    } else {
      var front, last := path[..|path| - 1], path[|path| - 1];
      BasenameIs(front);
      assert path == front + [last];
      BasenameStep(front, last);
      if last == SLASH {
        SlashBasename(front);
      } else {
        GrowBasename(front, Basename(front), last);
      }
      forall b | IsBasename(path, b) ensures b == Basename(path) {
        ShrinkBasename(front, last, b);
      }
    }
  }

  lemma BasenameStep(front: Bytes, last: Byte)
    ensures Basename(front + [last]) == if last == SLASH then [] else Basename(front) + [last]
  {
    assert (front + [last])[..|front|] == front;
  }

  lemma EmptyBasename()
    ensures Basename([]) == [] && IsBasename([], [])
    ensures forall b :: IsBasename([], b) ==> b == []
  {
    forall b | IsBasename([], b) ensures b == [] {
      forall dir: Bytes ensures |dir + [SLASH] + b| > 0 {
      }
    }
  }

  lemma SlashBasename(front: Bytes)
    ensures IsBasename(front + [SLASH], [])
  {
    assert front + [SLASH] == front + [SLASH] + [];
  }

  lemma GrowBasename(front: Bytes, b: Bytes, last: Byte)
    requires IsBasename(front, b) && last != SLASH
    ensures IsBasename(front + [last], b + [last])
  {
    if front != b {
      var dir: Bytes :| front == dir + [SLASH] + b;
      assert front + [last] == dir + [SLASH] + (b + [last]);
    }
  }

  lemma ShrinkBasename(front: Bytes, last: Byte, b: Bytes)
    requires IsBasename(front + [last], b)
    ensures last == SLASH ==> b == []
    ensures last != SLASH ==> b != [] && b == b[..|b| - 1] + [last] && IsBasename(front, b[..|b| - 1])
  {
    var path := front + [last];
    assert path[|path| - 1] == last;
    if path != b {
      var dir: Bytes :| path == dir + [SLASH] + b;
      if b != [] {
        assert b[|b| - 1] == path[|path| - 1];
        assert path[..|path| - 1] == front;
        assert (dir + [SLASH] + b)[..|path| - 1] == dir + [SLASH] + b[..|b| - 1];
        assert front == dir + [SLASH] + b[..|b| - 1];
      }
    } else {
      assert b[|b| - 1] in b;
      assert front == b[..|b| - 1];
    }
  }

  function IdsWithBasename(paths: seq<Bytes>, b: Bytes): seq<nat> {
    if paths == [] then []
    else IdsWithBasename(paths[..|paths| - 1], b) + if Basename(paths[|paths| - 1]) == b then [|paths| - 1] else []
  }

  lemma {:induction false} IdsWithBasenameAre(paths: seq<Bytes>, b: Bytes, id: nat)
    ensures id in IdsWithBasename(paths, b) <==> id < |paths| && Basename(paths[id]) == b
    decreases |paths|
  {
    if paths != [] {
      IdsWithBasenameAre(paths[..|paths| - 1], b, id);
    }
  }

  lemma {:induction false} IdsAscend(paths: seq<Bytes>, b: Bytes)
    ensures Ascending(IdsWithBasename(paths, b))
    decreases |paths|
  {
    if paths != [] {
      var front := paths[..|paths| - 1];
      IdsAscend(front, b);
      var ids := IdsWithBasename(front, b);
      forall i | 0 <= i < |ids| ensures ids[i] < |front| {
        assert ids[i] in ids;
        IdsWithBasenameAre(front, b, ids[i]);
      }
      var tail := if Basename(paths[|paths| - 1]) == b then [|front|] else [];
      assert IdsWithBasename(paths, b) == ids + tail;
    }
  }

  // ----- The vocabulary -----------------------------------------------------

  method DedupLoop(s: seq<Bytes>) returns (r: seq<Bytes>)
    ensures r == Dedup(s)
  {
    r := [];
    assert s[..0] == [];
    for i := 0 to |s|
      invariant r == Dedup(s[..i])
    {
      assert s[..i + 1][..i] == s[..i];
      if !(i > 0 && s[i - 1] == s[i]) {
        r := r + [s[i]];
      }
    }
    assert s[..|s|] == s;
  }

  ghost predicate IndexOk(paths: seq<Bytes>, index: map<Bytes, seq<nat>>) {
    forall b :: (if b in index then index[b] else []) == IdsWithBasename(paths, b)
  }

  class PathVocab {
    var paths: seq<Bytes>
    var basenameIndex: map<Bytes, seq<nat>>

    ghost predicate Valid()
      reads this
    {
      StrictlyUp(paths) && IndexOk(paths, basenameIndex)
    }

    /** `from_paths`: any list, with or without order and repetition. */
    constructor (list: seq<Bytes>)
      ensures Valid() && paths == Normal(list)
    {
      new;
      hide Basename, IdsWithBasename, IndexOk;
      var distinct := DedupLoop(Sort(list, LEX));
      NormalIs(list);
      paths := distinct;
      basenameIndex := map[];
      EmptyIndex();
      assert paths[..0] == [];
      for id := 0 to |paths|
        invariant paths == distinct && IndexOk(paths[..id], basenameIndex)
      {
        var basename := Basename(paths[id]);
        IndexStep(paths[..id], basenameIndex, paths[id]);
        assert paths[..id] + [paths[id]] == paths[..id + 1];
        var ids := if basename in basenameIndex then basenameIndex[basename] else [];
        basenameIndex := basenameIndex[basename := ids + [id]];
      }
      assert paths[..|paths|] == paths;
    }

    /** The number of paths below `key`; what the library's binary searches rest on. */
    method PartitionPoint(key: Bytes) returns (k: nat)
      requires Valid()
      ensures k <= |paths|
      ensures forall i :: 0 <= i < k ==> LexLt(paths[i], key)
      ensures forall i :: k <= i < |paths| ==> LexLe(key, paths[i])
    {
      hide LexLe;
      k := 0;
      var hi := |paths|;
      while k < hi
        invariant k <= hi <= |paths|
        invariant forall i :: 0 <= i < k ==> LexLt(paths[i], key)
        invariant forall i :: hi <= i < |paths| ==> LexLe(key, paths[i])
      {
        var mid := k + (hi - k) / 2;
        LtFromNotLe(key, paths[mid]);
        LtFromNotLe(paths[mid], key);
        if LexLt(paths[mid], key) {
          forall i | 0 <= i <= mid ensures LexLt(paths[i], key) {
            if i < mid {
              LtTrans(paths[i], paths[mid], key);
            }
          }
          k := mid + 1;
        } else {
          assert LexLe(key, paths[mid]);
          forall i | mid <= i < |paths| ensures LexLe(key, paths[i]) {
            if mid < i {
              LexTransitive(key, paths[mid], paths[i]);
            }
          }
          hi := mid;
        }
      }
    }

    /** `lookup_exact`: the id of the path, if it is in the vocabulary. */
    method LookupExact(path: Bytes) returns (id: Option<nat>)
      requires Valid()
      ensures id.Some? ==> id.value < |paths| && paths[id.value] == path
      ensures id.None? ==> path !in paths
    {
      hide LexLe;
      var k := PartitionPoint(path);
      if k < |paths| && paths[k] == path {
        return Some(k);
      }
      forall i | 0 <= i < |paths| ensures paths[i] != path {
        if i >= k && paths[i] == path {
          assert LexLe(path, paths[k]) && LexLt(paths[k], paths[i]);
          LexAntisymmetric(path, paths[k]);
        }
      }
      return None;
    }

    /** `lookup_prefix`: exactly the ids of all paths with the prefix, ascending. */
    method LookupPrefix(prefix: Bytes) returns (out: seq<nat>)
      requires Valid()
      ensures Ascending(out)
      ensures forall id: nat :: id in out <==> id < |paths| && prefix <= paths[id]
      ensures forall i :: 0 <= i < |out| ==> out[i] == out[0] + i
    {
      hide LexLe;
      var start := PartitionPoint(prefix);
      out := [];
      var i := start;
      while i < |paths| && prefix <= paths[i]
        invariant start <= i <= |paths|
        invariant |out| == i - start && forall k :: 0 <= k < |out| ==> out[k] == start + k
        invariant forall k :: start <= k < i ==> prefix <= paths[k]
      {
        out := out + [i];
        i := i + 1;
      }
      forall id: nat | id < |paths| && prefix <= paths[id] ensures start <= id < i {
        PrefixIsBelow(prefix, paths[id]);
        if id < start {
          LtFromNotLe(paths[id], prefix);
        }
        if i < |paths| && i < id {
          BlockEnds(prefix, paths[i], paths[id]);
        }
      }
      forall id: nat | start <= id < i ensures id in out {
        assert out[id - start] == id;
      }
    }

    /** `lookup_basename`. */
    method LookupBasename(b: Bytes) returns (ids: seq<nat>)
      requires Valid()
      ensures Ascending(ids)
      ensures forall id: nat :: id in ids <==> id < |paths| && IsBasename(paths[id], b)
    {
      hide Basename, IsBasename, IdsWithBasename;
      ids := if b in basenameIndex then basenameIndex[b] else [];
      IdsAscend(paths, b);
      forall id: nat ensures id in ids <==> id < |paths| && IsBasename(paths[id], b) {
        IdsWithBasenameAre(paths, b, id);
        if id < |paths| {
          BasenameIs(paths[id]);
        }
      }
    }
  }

  lemma EmptyIndex()
    ensures IndexOk([], map[])
  {
  }

  lemma IndexStep(paths: seq<Bytes>, index: map<Bytes, seq<nat>>, path: Bytes)
    requires IndexOk(paths, index)
    ensures var b := Basename(path);
      IndexOk(paths + [path], index[b := (if b in index then index[b] else []) + [|paths|]])
  {
    assert (paths + [path])[..|paths|] == paths;
  }

  // ----- The file -----------------------------------------------------------

  const NOT_EMPTY: Bytes -> bool := (line: Bytes) => line != []

  /** `load_vocab` on the file's content: the paths of the vocabulary it builds. */
  function Load(content: Bytes): Option<seq<Bytes>> {
    var lines := Filter(Lines(content), NOT_EMPTY);
    if lines == [] then None else Some(Normal(lines))
  }

  /** `save_vocab`. */
  function Save(paths: seq<Bytes>): Bytes {
    Separated(paths)
  }

  predicate EndsInCr(s: Bytes) {
    s != [] && s[|s| - 1] == CR
  }

  /** No empty path, no line feed inside one, and a carriage return at most at the end of the last. */
  ghost predicate Savable(paths: seq<Bytes>) {
    && paths != [] && OneLiners(paths) && [] !in paths
    && forall i :: 0 <= i < |paths| - 1 ==> !EndsInCr(paths[i])
  }

  lemma {:induction false} LinesAreOneLiners(s: Bytes)
    ensures OneLiners(Lines(s))
    decreases |s|
  {
    if s != [] {
      var i := FirstLf(s);
      if i < |s| {
        LinesAreOneLiners(s[i + 1..]);
      }
    }
  }

  /** What a reload gives, as a set of lines. */
  lemma LoadMembers(content: Bytes, x: Bytes)
    ensures Load(content).Some? ==> (x in Load(content).value <==> x in Lines(content) && x != [])
    ensures Load(content).Some? ==> StrictlyUp(Load(content).value)
    ensures Load(content).None? ==> forall line :: line in Lines(content) ==> line == []
  {
    var lines := Filter(Lines(content), NOT_EMPTY);
    FilterMembers(Lines(content), NOT_EMPTY);
    NormalIs(lines);
    NoMembers(lines);
  }

  lemma SavedLines(paths: seq<Bytes>)
    requires OneLiners(paths) && paths != [] && [] !in paths
    ensures Lines(Save(paths)) == StripAll(paths[..|paths| - 1]) + [paths[|paths| - 1]]
  {
    LinesOfSeparated(paths);
    assert paths[|paths| - 1] in paths;
  }

  lemma SavableLoadsBack(paths: seq<Bytes>)
    requires StrictlyUp(paths) && Savable(paths)
    ensures Load(Save(paths)) == Some(paths)
  {
    hide Lines, Filter, Normal, StrictlyUp, Load, Save;
    SavedLines(paths);
    var front := paths[..|paths| - 1];
    assert StripAll(front) == front by {
      forall i | 0 <= i < |front| ensures StripAll(front)[i] == front[i] {
        assert !EndsInCr(paths[i]);
      }
    }
    assert Lines(Save(paths)) == paths;
    forall x ensures Load(Save(paths)).Some? ==> (x in Load(Save(paths)).value <==> x in paths) {
      LoadMembers(Save(paths), x);
    }
    LoadMembers(Save(paths), []);
    assert paths[0] in paths;
    UpIsUnique(Load(Save(paths)).value, paths);
  }

  /** If a path that loses its carriage return survived, a longer one must have lost its own to restore it. */
  lemma LongerOne(paths: seq<Bytes>, i: nat) returns (j: nat)
    requires StrictlyUp(paths) && OneLiners(paths) && [] !in paths && i < |paths| - 1 && EndsInCr(paths[i])
    requires Load(Save(paths)) == Some(paths)
    ensures j < |paths| - 1 && paths[j] == paths[i] + [CR]
  {
    hide Lines, Filter, Normal, Load, Save, StrictlyUp, StripAll;
    SavedLines(paths);
    assert paths[i] in paths;
    LoadMembers(Save(paths), paths[i]);
    var lines := Lines(Save(paths));
    j :| 0 <= j < |lines| && lines[j] == paths[i];
    NotTheLast(paths, i);
    LineIsLonger(paths[..|paths| - 1], paths[|paths| - 1], paths[i], j);
  }

  lemma NotTheLast(paths: seq<Bytes>, i: nat)
    requires StrictlyUp(paths) && i < |paths| - 1
    ensures paths[i] != paths[|paths| - 1]
  {
    hide LexLe;
    assert LexLt(paths[i], paths[|paths| - 1]);
  }

  lemma LineIsLonger(front: seq<Bytes>, last: Bytes, p: Bytes, j: nat)
    requires j <= |front| && (StripAll(front) + [last])[j] == p && p != last && EndsInCr(p)
    ensures j < |front| && front[j] == p + [CR]
  {
    hide StripAll;
    assert j < |front|;
    assert StripAll(front)[j] == StripCr(front[j]);
    StripRestores(front[j]);
  }

  lemma StripRestores(q: Bytes)
    ensures EndsInCr(StripCr(q)) ==> q == StripCr(q) + [CR]
  {
    if q != [] {
      assert q == q[..|q| - 1] + [q[|q| - 1]];
    }
  }

  lemma {:induction false} NoneLosesItsCr(paths: seq<Bytes>, i: nat, longest: nat)
    requires StrictlyUp(paths) && OneLiners(paths) && [] !in paths && i < |paths| - 1
    requires Load(Save(paths)) == Some(paths) && forall p :: p in paths ==> |p| <= longest
    ensures !EndsInCr(paths[i])
    decreases longest - |paths[i]|
  {
    hide StrictlyUp, Load, Save, OneLiners;
    assert paths[i] in paths;
    if EndsInCr(paths[i]) {
      var j := LongerOne(paths, i);
      assert paths[j] in paths;
      NoneLosesItsCr(paths, j, longest);
    }
  }

  function Longest(paths: seq<Bytes>): (n: nat)
    ensures forall p :: p in paths ==> |p| <= n
  {
    if paths == [] then 0
    else
      var n := Longest(paths[1..]);
      assert forall p :: p in paths ==> p == paths[0] || p in paths[1..];
      if |paths[0]| > n then |paths[0]| else n
  }

  /** Saving and loading gives the vocabulary back exactly for the savable ones. */
  lemma VocabRoundTrip(paths: seq<Bytes>)
    requires StrictlyUp(paths)
    ensures Load(Save(paths)) == Some(paths) <==> Savable(paths)
  {
    hide StrictlyUp, Load, Save;
    if Savable(paths) {
      SavableLoadsBack(paths);
    }
    if Load(Save(paths)) == Some(paths) {
      LinesAreOneLiners(Save(paths));
      forall p | p in paths ensures LF !in p && p != [] {
        LoadMembers(Save(paths), p);
        var k :| 0 <= k < |Lines(Save(paths))| && Lines(Save(paths))[k] == p;
      }
      assert paths != [] by {
        LoadedIsNotEmpty(Save(paths));
      }
      forall i | 0 <= i < |paths| - 1 ensures !EndsInCr(paths[i]) {
        NoneLosesItsCr(paths, i, Longest(paths));
      }
      assert OneLiners(paths) by {
        forall i | 0 <= i < |paths| ensures LF !in paths[i] {
          assert paths[i] in paths;
        }
      }
    }
  }

  lemma LoadedIsNotEmpty(content: Bytes)
    ensures Load(content).Some? ==> Load(content).value != []
  {
    var lines := Filter(Lines(content), NOT_EMPTY);
    NormalIs(lines);
    NoMembers(lines);
    NoMembers(Normal(lines));
  }
}
