/** Wildcard filters and the manifest diff. */
module Sync {
  import opened Base
  import opened Sorting
  import opened Glob

  /** One entry of the manifest: a shard path and the fingerprint of its state. */
  datatype Shard = Shard(path: Bytes, fingerprint: Bytes)

  // ----- Wildcards ----------------------------------------------------------

  /** The matcher's recursion. */
  predicate Fnmatch(pat: Bytes, s: Bytes)
    decreases |pat| + |s|
  {
    if pat == [] then s == []
    else if pat[0] == STAR then
      Fnmatch(pat[1..], s) || (s != [] && Fnmatch(pat, s[1..]))
    else if s == [] then false
    else (pat[0] == QUESTION || pat[0] == s[0]) && Fnmatch(pat[1..], s[1..])
  }

  /** Byte by byte: a star stands for any text, a question mark for one byte, every other byte for itself. */
  function Wildcards(pat: Bytes): (r: seq<Token>)
    ensures |r| == |pat|
  {
    seq(|pat|, i requires 0 <= i < |pat| =>
      if pat[i] == STAR then DoubleStar else if pat[i] == QUESTION then Question else Char(pat[i]))
  }

  /** The recursion holds exactly if the string splits into a piece for every byte of the pattern. */
  lemma {:induction false} FnmatchIsDenotes(pat: Bytes, s: Bytes)
    ensures Fnmatch(pat, s) <==> Denotes(Wildcards(pat), s)
    decreases |pat| + |s|
  {
    hide Denotes;
    if pat == [] {
      assert Wildcards(pat) == [];
      DenotesNothing(s);
    } else {
      assert Wildcards(pat)[1..] == Wildcards(pat[1..]);
      if pat[0] == STAR {
        DenotesStar(Wildcards(pat), s);
        FnmatchIsDenotes(pat[1..], s);
        if s != [] {
          FnmatchIsDenotes(pat, s[1..]);
        }
      } else {
        DenotesOne(Wildcards(pat), s);
        if s != [] {
          FnmatchIsDenotes(pat[1..], s[1..]);
        }
      }
    }
  }

  // ----- Bracket expressions ------------------------------------------------

  const BANG: Byte := 33
  const DASH: Byte := 45

  /**
    Position of the `]` that closes the bracket expression `pat` begins with; one right after the `[` or
    `[!` is a member.
   */
  function ClassEnd(pat: Bytes): (end: Option<nat>)
    requires pat != [] && pat[0] == OPEN
    ensures end.Some? ==> 2 <= end.value < |pat| && pat[end.value] == CLOSE
  {
    FirstClose(pat, if |pat| > 1 && pat[1] == BANG then 3 else 2)
  }

  function FirstClose(pat: Bytes, from: nat): (i: Option<nat>)
    ensures i.Some? ==> from <= i.value < |pat| && pat[i.value] == CLOSE
    ensures i.None? ==> forall k :: from <= k < |pat| ==> pat[k] != CLOSE
    decreases |pat| - from
  {
    if from >= |pat| then None else if pat[from] == CLOSE then Some(from) else FirstClose(pat, from + 1)
  }

  /** Members stand one by one or as ranges. */
  predicate InClass(members: Bytes, b: Byte) {
    if members == [] then false
    else if |members| >= 3 && members[1] == DASH then members[0] <= b <= members[2] || InClass(members[3..], b)
    else members[0] == b || InClass(members[1..], b)
  }

  predicate ClassHas(pat: Bytes, end: nat, b: Byte)
    requires 2 <= end < |pat|
  {
    if pat[1] == BANG && end > 2 then !InClass(pat[2..end], b) else InClass(pat[1..end], b)
  }

  /** The documented language: `*`, `?` and `[...]`; a `[` that is never closed stands for itself. */
  predicate ClassFnmatch(pat: Bytes, s: Bytes)
    decreases |pat| + |s|
  {
    if pat == [] then s == []
    else if pat[0] == STAR then
      ClassFnmatch(pat[1..], s) || (s != [] && ClassFnmatch(pat, s[1..]))
    else if s == [] then false
    else if pat[0] == OPEN && ClassEnd(pat).Some? then
      ClassHas(pat, ClassEnd(pat).value, s[0]) && ClassFnmatch(pat[ClassEnd(pat).value + 1..], s[1..])
    else (pat[0] == QUESTION || pat[0] == s[0]) && ClassFnmatch(pat[1..], s[1..])
  }

  /** Some `[` of the pattern is closed. */
  predicate HasClass(pat: Bytes) {
    pat != [] && ((pat[0] == OPEN && ClassEnd(pat).Some?) || HasClass(pat[1..]))
  }

  lemma {:induction false} WithoutClassAgree(pat: Bytes, s: Bytes)
    requires !HasClass(pat)
    ensures Fnmatch(pat, s) <==> ClassFnmatch(pat, s)
    decreases |pat| + |s|
  {
    if pat != [] {
      WithoutClassAgree(pat[1..], s);
      if s != [] {
        WithoutClassAgree(pat[1..], s[1..]);
        if pat[0] == STAR {
          WithoutClassAgree(pat, s[1..]);
        }
      }
    }
  }

  /** The pattern's bytes without its stars: a shortest text the matcher accepts. */
  function Bare(pat: Bytes): Bytes {
    if pat == [] then [] else (if pat[0] == STAR then [] else [pat[0]]) + Bare(pat[1..])
  }

  lemma {:induction false} BareMatches(pat: Bytes)
    ensures Fnmatch(pat, Bare(pat))
    decreases |pat|
  {
    if pat != [] {
      BareMatches(pat[1..]);
      if pat[0] != STAR {
        assert Bare(pat)[0] == pat[0] && Bare(pat)[1..] == Bare(pat[1..]);
      } else {
        assert Bare(pat) == Bare(pat[1..]);
      }
    }
  }

  lemma {:induction false} BareIsShortest(pat: Bytes, s: Bytes)
    ensures Fnmatch(pat, s) ==> |s| >= |Bare(pat)|
    decreases |pat| + |s|
  {
    if pat != [] {
      BareIsShortest(pat[1..], s);
      if s != [] {
        BareIsShortest(pat[1..], s[1..]);
        if pat[0] == STAR {
          BareIsShortest(pat, s[1..]);
        }
      }
    }
  }

  lemma {:induction false} BareSplit(pat: Bytes, i: nat)
    requires i <= |pat|
    ensures Bare(pat) == Bare(pat[..i]) + Bare(pat[i..])
    decreases i
  {
    if i == 0 {
      assert pat[..0] == [] && pat[0..] == pat;
    } else {
      BareSplit(pat[1..], i - 1);
      assert pat[..i] == [pat[0]] + pat[1..][..i - 1];
      assert pat[i..] == pat[1..][i - 1..];
      assert pat[..i][0] == pat[0] && pat[..i][1..] == pat[1..][..i - 1];
    }
  }

  /** A closed bracket expression has at least two bytes that are not stars, and stands for one byte. */
  lemma ClassIsLonger(pat: Bytes)
    requires pat != [] && pat[0] == OPEN && ClassEnd(pat).Some?
    ensures |Bare(pat)| >= 2 + |Bare(pat[ClassEnd(pat).value + 1..])|
  {
    var end := ClassEnd(pat).value;
    BareSplit(pat[1..], end - 1);
    assert pat[1..][end - 1..] == pat[end..];
    assert pat[end..][0] == CLOSE && pat[end..][1..] == pat[end + 1..];
  }

  /** A text with the documented meaning can be cut down until no star takes anything. */
  lemma {:induction false} ShortMatch(pat: Bytes, s: Bytes) returns (short: Bytes)
    requires ClassFnmatch(pat, s)
    ensures ClassFnmatch(pat, short) && |short| <= |Bare(pat)|
    ensures HasClass(pat) ==> |short| < |Bare(pat)|
    decreases |pat| + |s|
  {
    if pat == [] {
      short := [];
    } else if pat[0] == STAR {
      if ClassFnmatch(pat[1..], s) {
        short := ShortMatch(pat[1..], s);
      } else {
        short := ShortMatch(pat, s[1..]);
      }
    } else if pat[0] == OPEN && ClassEnd(pat).Some? {
      var rest := ShortMatch(pat[ClassEnd(pat).value + 1..], s[1..]);
      ClassIsLonger(pat);
      short := [s[0]] + rest;
      assert short[1..] == rest;
    } else {
      var rest := ShortMatch(pat[1..], s[1..]);
      short := [s[0]] + rest;
      assert short[1..] == rest;
    }
  }

  /** The matcher has the documented meaning on every text exactly if the pattern has no closed bracket expression. */
  lemma DocumentedMeaningExactly(pat: Bytes)
    ensures (forall s :: Fnmatch(pat, s) <==> ClassFnmatch(pat, s)) <==> !HasClass(pat)
  {
    if HasClass(pat) {
      var text := Bare(pat);
      BareMatches(pat);
      if ClassFnmatch(pat, Bare(pat)) {
        text := ShortMatch(pat, Bare(pat));
        BareIsShortest(pat, text);
      }
      assert Fnmatch(pat, text) != ClassFnmatch(pat, text);
    } else {
      forall s ensures Fnmatch(pat, s) <==> ClassFnmatch(pat, s) {
        WithoutClassAgree(pat, s);
      }
    }
  }

  /** Some documented meanings: a range, a negated set, and a closing bracket as the first member. */
  lemma DocumentedExamples(b: Byte)
    ensures ClassFnmatch([OPEN, 97, DASH, 122, CLOSE], [b]) <==> 97 <= b <= 122
    ensures ClassFnmatch([OPEN, BANG, 97, 98, CLOSE], [b]) <==> b != 97 && b != 98
    ensures ClassFnmatch([OPEN, CLOSE, 97, CLOSE], [b]) <==> b == 93 || b == 97
  {
    OneClass([OPEN, 97, DASH, 122, CLOSE], 4, b);
    OneClass([OPEN, BANG, 97, 98, CLOSE], 4, b);
    OneClass([OPEN, CLOSE, 97, CLOSE], 3, b);
    assert [OPEN, 97, DASH, 122, CLOSE][1..4] == [97, DASH, 122];
    assert [OPEN, BANG, 97, 98, CLOSE][2..4] == [97, 98];
    assert [OPEN, CLOSE, 97, CLOSE][1..3] == [CLOSE, 97];
    RangeHas(97, 122, b);
    PairHas(97, 98, b);
    PairHas(CLOSE, 97, b);
  }

  lemma RangeHas(x: Byte, y: Byte, b: Byte)
    ensures InClass([x, DASH, y], b) <==> x <= b <= y
  {
    assert [x, DASH, y][3..] == [];
    assert !InClass([], b);
  }

  lemma PairHas(x: Byte, y: Byte, b: Byte)
    ensures InClass([x, y], b) <==> b == x || b == y
  {
    assert [x, y][1..] == [y] && [y][1..] == [];
    assert !InClass([], b);
    assert InClass([y], b) <==> b == y;
  }

  lemma OneClass(pat: Bytes, end: nat, b: Byte)
    requires pat != [] && pat[0] == OPEN && 2 <= end == |pat| - 1 && pat[end] == CLOSE
    requires end > 2 && forall i :: 2 <= i < end ==> pat[i] != CLOSE
    requires pat[1] == BANG ==> end > 3
    ensures ClassFnmatch(pat, [b]) <==> ClassHas(pat, end, b)
  {
    FirstCloseIs(pat, if |pat| > 1 && pat[1] == BANG then 3 else 2, end);
    assert pat[end + 1..] == [] && [b][1..] == [];
  }

  lemma {:induction false} FirstCloseIs(pat: Bytes, from: nat, end: nat)
    requires from <= end < |pat| && pat[end] == CLOSE && forall i :: from <= i < end ==> pat[i] != CLOSE
    ensures FirstClose(pat, from) == Some(end)
    decreases end - from
  {
    if from < end {
      FirstCloseIs(pat, from + 1, end);
    }
  }

  /** `[ab]` does not match `a`. */
  lemma BracketsAreLiteral()
    ensures var pat: Bytes := [OPEN, 97, 98, CLOSE]; ClassFnmatch(pat, [97]) && !Fnmatch(pat, [97]) && Fnmatch(pat, pat)
  {
    var pat: Bytes := [OPEN, 97, 98, CLOSE];
    assert FirstClose(pat, 3) == Some(3);
    assert FirstClose(pat, 2) == Some(3);
    assert pat[1..3] == [97, 98] && pat[4..] == [];
    assert InClass([97, 98], 97);
    assert pat[1..] == [97, 98, CLOSE] && pat[1..][1..] == [98, CLOSE] && pat[1..][1..][1..] == [CLOSE];
    assert Bare([CLOSE]) == [CLOSE];
    assert Bare([98, CLOSE]) == [98, CLOSE];
    assert Bare([97, 98, CLOSE]) == [97, 98, CLOSE];
    assert Bare(pat) == pat;
    BareMatches(pat);
    BareIsShortest(pat, [97]);
  }

  predicate AnyFnmatch(pats: seq<Bytes>, path: Bytes) {
    exists p | p in pats :: Fnmatch(p, path)
  }

  predicate PathMatches(path: Bytes, includes: seq<Bytes>, excludes: seq<Bytes>) {
    (includes == [] || AnyFnmatch(includes, path)) && !AnyFnmatch(excludes, path)
  }

  ghost predicate Covers(pats: seq<Bytes>, path: Bytes) {
    exists p :: p in pats && Denotes(Wildcards(p), path)
  }

  /** No include pattern means everything; an exclude pattern always wins. */
  lemma PathMatchesMeans(path: Bytes, includes: seq<Bytes>, excludes: seq<Bytes>)
    ensures PathMatches(path, includes, excludes)
       <==> (includes == [] || Covers(includes, path)) && !Covers(excludes, path)
  {
    hide Denotes, Fnmatch;
    forall p ensures Fnmatch(p, path) <==> Denotes(Wildcards(p), path) {
      FnmatchIsDenotes(p, path);
    }
  }

  // ----- The diff -----------------------------------------------------------

  /** A manifest is kept in ascending order of its paths, each once. */
  ghost predicate IsManifest(m: seq<Shard>) {
    forall i, j :: 0 <= i < j < |m| ==> LexLt(m[i].path, m[j].path)
  }

  function Get(m: seq<Shard>, path: Bytes): Option<Shard> {
    if m == [] then None
    else if m[|m| - 1].path == path then Some(m[|m| - 1])
    else Get(m[..|m| - 1], path)
  }

  predicate Same(local: seq<Shard>, s: Shard) {
    Get(local, s.path).Some? && Get(local, s.path).value.fingerprint == s.fingerprint
  }

  predicate IsChanged(local: seq<Shard>, includes: seq<Bytes>, excludes: seq<Bytes>, s: Shard) {
    PathMatches(s.path, includes, excludes) && !Same(local, s)
  }

  lemma {:induction false} GetFinds(m: seq<Shard>, i: nat)
    requires IsManifest(m) && i < |m|
    ensures Get(m, m[i].path) == Some(m[i])
    decreases |m|
  {
    if i < |m| - 1 {
      assert LexLt(m[i].path, m[|m| - 1].path);
      GetFinds(m[..|m| - 1], i);
    }
  }

  lemma {:induction false} GetIsThere(m: seq<Shard>, path: Bytes)
    ensures Get(m, path).Some? ==> Get(m, path).value in m && Get(m, path).value.path == path
    decreases |m|
  {
    if m != [] && m[|m| - 1].path != path {
      GetIsThere(m[..|m| - 1], path);
    }
  }

  /** `diff_manifest`: in path order exactly the wanted entries that are new or have another fingerprint. */
  method DiffManifest(remote: seq<Shard>, local: seq<Shard>, includes: seq<Bytes>, excludes: seq<Bytes>)
    returns (changed: seq<Bytes>)
    requires IsManifest(remote)
    ensures forall i, j :: 0 <= i < j < |changed| ==> LexLt(changed[i], changed[j])
    ensures forall p :: p in changed <==>
      exists s :: s in remote && s.path == p && IsChanged(local, includes, excludes, s)
  {
    hide PathMatches, Same, LexLt;
    changed := [];
    ghost var from: seq<nat> := [];
    for i := 0 to |remote|
      invariant |from| == |changed|
      invariant forall k :: 0 <= k < |from| ==> from[k] < i && remote[from[k]].path == changed[k]
      invariant forall k, l :: 0 <= k < l < |from| ==> from[k] < from[l]
      invariant forall p :: p in changed <==>
        exists k :: 0 <= k < i && remote[k].path == p && IsChanged(local, includes, excludes, remote[k])
    {
      var shard := remote[i];
      if !PathMatches(shard.path, includes, excludes) {
        continue;
      }
      var same := Same(local, shard);
      if !same {
        changed := changed + [shard.path];
        from := from + [i];
      }
    }
  }

  /** The local cache agrees with the remote manifest on every wanted path. */
  ghost predicate Agrees(remote: seq<Shard>, local: seq<Shard>, includes: seq<Bytes>, excludes: seq<Bytes>) {
    forall s :: s in remote && PathMatches(s.path, includes, excludes) ==> s in local
  }

  /** The diff is empty exactly if the cache agrees; right after the remote manifest is saved it is. */
  lemma DiffIsEmptyExactly(remote: seq<Shard>, local: seq<Shard>, includes: seq<Bytes>, excludes: seq<Bytes>)
    requires IsManifest(remote) && IsManifest(local)
    ensures (forall s :: s in remote ==> !IsChanged(local, includes, excludes, s))
       <==> Agrees(remote, local, includes, excludes)
    ensures forall s :: s in remote ==> !IsChanged(remote, includes, excludes, s)
  {
    forall s ensures Same(local, s) <==> s in local {
      SameMeans(local, s);
    }
    forall s ensures Same(remote, s) <==> s in remote {
      SameMeans(remote, s);
    }
  }

  lemma SameMeans(m: seq<Shard>, s: Shard)
    requires IsManifest(m)
    ensures Same(m, s) <==> s in m
  {
    GetIsThere(m, s.path);
    if s in m {
      var i :| 0 <= i < |m| && m[i] == s;
      GetFinds(m, i);
    }
  }
}
