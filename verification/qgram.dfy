/** Byte trigrams and edits. */
module QGram {
  // The combinatorial fact the fuzzy threshold relies on. Only windows made of three ASCII bytes
  // count as trigrams, on both sides.

  import opened Base

  predicate AsciiAt(s: Bytes, i: nat)
    requires i + 3 <= |s|
  {
    s[i] < 0x80 && s[i + 1] < 0x80 && s[i + 2] < 0x80
  }

  function Pack(a: Byte, b: Byte, c: Byte): nat {
    a * 0x1_0000 + b * 0x100 + c
  }

  /** `pack_trigram` on the window of `s` that starts at `i`. */
  function PackAt(s: Bytes, i: nat): nat
    requires i + 3 <= |s|
  {
    Pack(s[i], s[i + 1], s[i + 2])
  }

  /** The distinct trigrams of `s`. */
  function Trigrams(s: Bytes): set<nat> {
    set i | 0 <= i <= |s| - 3 && AsciiAt(s, i) :: PackAt(s, i)
  }

  /** The window at `i` in numbers: three bytes below 128, most significant first. */
  ghost predicate WindowIs(s: Bytes, i: int, t: int) {
    && 0 <= i < |s| - 2 && s[i] < 128 && s[i + 1] < 128 && s[i + 2] < 128
    && t == 65536 * (s[i] as int) + 256 * (s[i + 1] as int) + s[i + 2] as int
  }

  lemma TrigramsMean(s: Bytes, t: nat)
    ensures t in Trigrams(s) <==> exists i :: WindowIs(s, i, t)
  {
    if t in Trigrams(s) {
      var i :| 0 <= i <= |s| - 3 && AsciiAt(s, i) && PackAt(s, i) == t;
      assert WindowIs(s, i, t);
    }
    if i :| WindowIs(s, i, t) {
      assert AsciiAt(s, i) && PackAt(s, i) == t;
    }
  }

  lemma PackInjective(a: Byte, b: Byte, c: Byte, x: Byte, y: Byte, z: Byte)
    requires Pack(a, b, c) == Pack(x, y, z)
    ensures a == x && b == y && c == z
  {
  }

  // ----- Edit distance ------------------------------------------------------

  /** Levenshtein distance: the least number of insertions, deletions and substitutions. */
  function Lev(a: Bytes, b: Bytes): nat
    decreases |a| + |b|
  {
    if a == [] then |b|
    else if b == [] then |a|
    else
      var sub := Lev(a[1..], b[1..]) + if a[0] == b[0] then 0 else 1;
      Min(sub, 1 + Min(Lev(a[1..], b), Lev(a, b[1..])))
  }

  /** `t` has a substring within `k` edits of `needle`. */
  ghost predicate Near(needle: Bytes, t: Bytes, k: nat) {
    exists sub: Bytes :: Occurs(sub, t) && Lev(needle, sub) <= k
  }

  lemma TrigramsOfSuffix(s: Bytes, j: nat)
    requires j <= |s|
    ensures Trigrams(s[j..]) <= Trigrams(s)
  {
    forall t | t in Trigrams(s[j..]) ensures t in Trigrams(s) {
      var i :| 0 <= i <= |s[j..]| - 3 && AsciiAt(s[j..], i) && PackAt(s[j..], i) == t;
      assert AsciiAt(s, i + j) && PackAt(s, i + j) == t;
    }
  }

  lemma TrigramsOfSubstring(sub: Bytes, t: Bytes)
    requires Occurs(sub, t)
    ensures Trigrams(sub) <= Trigrams(t)
  {
    var p: nat :| OccursAt(sub, t, p);
    forall g | g in Trigrams(sub) ensures g in Trigrams(t) {
      var i :| 0 <= i <= |sub| - 3 && AsciiAt(sub, i) && PackAt(sub, i) == g;
      assert t[p..p + |sub|][i] == t[p + i] && t[p..p + |sub|][i + 1] == t[p + i + 1]
        && t[p..p + |sub|][i + 2] == t[p + i + 2];
      assert AsciiAt(t, p + i) && PackAt(t, p + i) == g;
    }
  }

  lemma ShortHasNoTrigram(s: Bytes)
    requires |s| <= 2
    ensures Trigrams(s) == {}
  {
  }

  /** The trigrams that start at positions below `j`. */
  function Leading(s: Bytes, j: nat): set<nat> {
    set i | 0 <= i < j && i <= |s| - 3 && AsciiAt(s, i) :: PackAt(s, i)
  }

  lemma LeadingSize(s: Bytes, j: nat)
    ensures |Leading(s, j)| <= j
  {
    if j == 0 {
      assert Leading(s, 0) == {};
    } else {
      LeadingSize(s, j - 1);
      var last := if j - 1 <= |s| - 3 && AsciiAt(s, j - 1) then {PackAt(s, j - 1)} else {};
      assert Leading(s, j) == Leading(s, j - 1) + last;
    }
  }

  lemma SplitTrigrams(s: Bytes, j: nat)
    requires j <= |s|
    ensures Trigrams(s) == Leading(s, j) + Trigrams(s[j..])
  {
    TrigramsOfSuffix(s, j);
    forall t | t in Trigrams(s) ensures t in Leading(s, j) + Trigrams(s[j..]) {
      var i :| 0 <= i <= |s| - 3 && AsciiAt(s, i) && PackAt(s, i) == t;
      if i >= j {
        assert AsciiAt(s[j..], i - j) && PackAt(s[j..], i - j) == t;
      }
    }
  }

  /** Trigrams of `u` that `v` lacks. */
  function Lost(u: Bytes, v: Bytes): set<nat> {
    Trigrams(u) - Trigrams(v)
  }

  lemma LostSteps(u: Bytes, v: Bytes, i: nat, j: nat)
    requires i <= |u| && j <= |v|
    ensures |Lost(u, v)| <= i + |Lost(u[i..], v[j..])|
  {
    SplitTrigrams(u, i);
    TrigramsOfSuffix(v, j);
    LeadingSize(u, i);
    assert Lost(u, v) <= Leading(u, i) + Lost(u[i..], v[j..]);
    SubsetSize(Lost(u, v), Leading(u, i) + Lost(u[i..], v[j..]));
    UnionSize(Leading(u, i), Lost(u[i..], v[j..]));
  }

  lemma UnionSize<T>(a: set<T>, b: set<T>)
    ensures |a + b| <= |a| + |b|
  {
    assert a + b == a + (b - a);
    assert |a + (b - a)| == |a| + |b - a|;
    SubsetSize(b - a, b);
  }

  lemma NothingLeft(x: Bytes, a: Bytes, b: Bytes)
    requires |x| <= 2
    ensures a == [] ==> Lost(x + a, x + b) == {}
    ensures b == [] ==> |Lost(x + a, x + b)| <= |a|
  {
    hide Trigrams, Leading;
    if a == [] {
      assert x + a == x && (x + b)[..|x|] == x;
      assert OccursAt(x, x + b, 0);
      TrigramsOfSubstring(x, x + b);
    }
    if b == [] {
      LostSteps(x + a, x + b, |a|, 0);
      ShortHasNoTrigram((x + a)[|a|..]);
      assert Lost((x + a)[|a|..], (x + b)[0..]) == {};
    }
  }

  lemma DropContext(x: Bytes, a: Bytes, i: nat)
    requires i <= |a|
    ensures (x + a)[|x| + i..] == [] + a[i..]
  {
  }

  /** Giving up the context and `i` bytes of `a` costs as many trigrams at most. */
  lemma GiveUp(x: Bytes, a: Bytes, b: Bytes, i: nat, j: nat)
    requires i <= |a| && j <= |b|
    ensures |Lost(x + a, x + b)| <= |x| + i + |Lost([] + a[i..], [] + b[j..])|
  {
    hide Lost;
    LostSteps(x + a, x + b, |x| + i, |x| + j);
    DropContext(x, a, i);
    DropContext(x, b, j);
  }

  /**
    The q-gram lemma with a context: `x` is the (at most two byte) tail of what has already been
    matched, so it accounts for the windows that straddle the current position.
   */
  lemma {:induction false} EditsLoseFewTrigrams(x: Bytes, a: Bytes, b: Bytes)
    requires |x| <= 2
    ensures |Lost(x + a, x + b)| <= 3 * Lev(a, b)
    decreases |a| + |b|
  {
    hide Lost;
    if a == [] || b == [] {
      NothingLeft(x, a, b);
    } else {
      var a', b' := a[1..], b[1..];
      assert a[0..] == a && b[0..] == b;
      if Lev(a, b) == 1 + Lev(a', b) {
        GiveUp(x, a, b, 1, 0);
        EditsLoseFewTrigrams([], a', b);
      } else if Lev(a, b) == 1 + Lev(a, b') {
        GiveUp(x, a, b, 0, 1);
        EditsLoseFewTrigrams([], a, b');
      } else if a[0] != b[0] {
        GiveUp(x, a, b, 1, 1);
        EditsLoseFewTrigrams([], a', b');
      } else {
        KeepByte(x, a, b);
        EditsLoseFewTrigrams(Tail2(x + [a[0]]), a', b');
      }
    }
  }

  function Tail2(x: Bytes): (r: Bytes)
    requires |x| <= 3
    ensures |r| <= 2
  {
    if |x| == 3 then x[1..] else x
  }

  /** A byte kept by the alignment loses nothing that the shifted context does not. */
  lemma KeepByte(x: Bytes, a: Bytes, b: Bytes)
    requires |x| <= 2 && a != [] && b != [] && a[0] == b[0]
    ensures |Lost(x + a, x + b)| <= |Lost(Tail2(x + [a[0]]) + a[1..], Tail2(x + [a[0]]) + b[1..])|
  {
    hide Trigrams, Leading;
    var y := x + [a[0]];
    var u, v := x + a, x + b;
    assert u == y + a[1..] && v == y + b[1..];
    if |x| == 2 {
      assert u[1..] == y[1..] + a[1..] && v[1..] == y[1..] + b[1..];
      assert u[..3] == v[..3] == y;
      SharedFirstWindow(u, v);
      SubsetSize(Lost(u, v), Lost(u[1..], v[1..]));
    }
  }

  lemma LeadingOne(u: Bytes)
    requires |u| >= 3
    ensures Leading(u, 1) == if AsciiAt(u, 0) then {PackAt(u, 0)} else {}
  {
  }

  lemma SharedFirstWindow(u: Bytes, v: Bytes)
    requires |u| >= 3 && |v| >= 3 && u[..3] == v[..3]
    ensures Lost(u, v) <= Lost(u[1..], v[1..])
  {
    assert u[..3][0] == v[..3][0] && u[..3][1] == v[..3][1] && u[..3][2] == v[..3][2];
    LeadingOne(u);
    LeadingOne(v);
    hide Leading, Trigrams;
    SplitTrigrams(u, 1);
    SplitTrigrams(v, 1);
  }

  /** The q-gram lemma: a text within `k` edits keeps all but `3 * k` of the needle's distinct trigrams. */
  lemma SharedTrigrams(needle: Bytes, t: Bytes, k: nat)
    requires Near(needle, t, k)
    ensures |Trigrams(needle) * Trigrams(t)| >= |Trigrams(needle)| - 3 * k
  {
    var sub: Bytes :| Occurs(sub, t) && Lev(needle, sub) <= k;
    EditsLoseFewTrigrams([], needle, sub);
    assert [] + needle == needle && [] + sub == sub;
    TrigramsOfSubstring(sub, t);
    var n, kept := Trigrams(needle), Trigrams(needle) * Trigrams(t);
    assert n - kept <= Lost(needle, sub);
    SubsetSize(n - kept, Lost(needle, sub));
    assert n == kept + (n - kept);
  }

  // ----- The exact number of edits that can wipe out every trigram ----------

  /** Fewest single-byte damages that spoil every ASCII window, found greedily from the left. */
  function Cover(s: Bytes): nat {
    if |s| < 3 then 0
    else if AsciiAt(s, 0) then 1 + Cover(s[3..])
    else Cover(s[1..])
  }

  lemma CoverDrop1(s: Bytes)
    requires s != []
    ensures Cover(s[1..]) <= Cover(s) <= 1 + (if |s| >= 3 then Cover(s[3..]) else 0)
    decreases |s|
  {
    if |s| > 3 {
      CoverDrop1(s[1..]);
      CoverDrop1(s[3..]);
      assert s[1..][3..] == s[3..][1..];
    }
  }

  lemma CoverDrop(s: Bytes, j: nat)
    requires j <= 3 && j <= |s|
    ensures Cover(s) <= 1 + Cover(s[j..])
  {
    if j == 0 {
      assert s[0..] == s;
    } else if |s| >= 3 {
      CoverDrop1(s);
      if j < 3 {
        CoverDrop1(s[j..]);
        if j == 1 {
          CoverDrop1(s[2..]);
          assert s[1..][1..] == s[2..] && s[2..][1..] == s[3..];
        } else {
          assert s[2..][1..] == s[3..];
        }
      }
    }
  }

  lemma CoverBound(s: Bytes)
    ensures Cover(s) <= if |s| < 2 then 0 else |s| - 2
  {
    if |s| >= 3 && AsciiAt(s, 0) {
      CoverBound(s[3..]);
    } else if |s| >= 3 {
      CoverBound(s[1..]);
    }
  }

  /** Every damaged byte spoils at most three windows, so `Cover` is at least a third of the trigrams. */
  lemma {:induction false} TrigramsWithinCover(s: Bytes)
    ensures |Trigrams(s)| <= 3 * Cover(s)
    decreases |s|
  {
    if |s| < 3 {
      assert Trigrams(s) == {};
    } else {
      var j := if AsciiAt(s, 0) then 3 else 1;
      SplitTrigrams(s, j);
      LeadingSize(s, j);
      UnionSize(Leading(s, j), Trigrams(s[j..]));
      TrigramsWithinCover(s[j..]);
      if j == 1 {
        assert Leading(s, 1) == {};
      }
    }
  }

  lemma FirstWindowInBoth(u: Bytes, v: Bytes)
    requires |u| >= 3 && |v| >= 3 && u[..3] == v[..3] && AsciiAt(u, 0)
    ensures PackAt(u, 0) in Trigrams(u) && PackAt(u, 0) in Trigrams(v)
  {
    assert u[..3][0] == v[..3][0] && u[..3][1] == v[..3][1] && u[..3][2] == v[..3][2];
    assert AsciiAt(v, 0) && PackAt(u, 0) == PackAt(v, 0);
  }

  lemma SuffixesDisjoint(u: Bytes, v: Bytes, i: nat, j: nat)
    requires i <= |u| && j <= |v| && Trigrams(u) !! Trigrams(v)
    ensures Trigrams([] + u[i..]) !! Trigrams([] + v[j..])
  {
    TrigramsOfSuffix(u, i);
    TrigramsOfSuffix(v, j);
    assert [] + u[i..] == u[i..] && [] + v[j..] == v[j..];
  }

  lemma {:induction false} CoverIsPositiveExactly(s: Bytes)
    ensures Cover(s) > 0 <==> Trigrams(s) != {}
    decreases |s|
  {
    TrigramsWithinCover(s);
    if |s| >= 3 {
      if AsciiAt(s, 0) {
        assert PackAt(s, 0) in Trigrams(s);
      } else {
        CoverIsPositiveExactly(s[1..]);
        TrigramsOfSuffix(s, 1);
      }
    }
  }

  /** Wiping out every shared trigram takes at least `Cover` edits. */
  lemma {:induction false} WipingNeedsCover(x: Bytes, a: Bytes, b: Bytes)
    requires |x| <= 2
    requires Trigrams(x + a) !! Trigrams(x + b)
    ensures Cover(x + a) <= Lev(a, b)
    decreases |a| + |b|
  {
    hide Trigrams, Cover;
    var u, v := x + a, x + b;
    CoverBound(u);
    if a != [] && b != [] {
      var a', b' := a[1..], b[1..];
      assert u[|x| + 1..] == a' == [] + a' && v[|x| + 1..] == b' == [] + b';
      assert u[|x|..] == a == [] + a && v[|x|..] == b == [] + b;
      if Lev(a, b) == 1 + Lev(a', b) {
        SuffixesDisjoint(u, v, |x| + 1, |x|);
        WipingNeedsCover([], a', b);
        CoverDrop(u, |x| + 1);
      } else if Lev(a, b) == 1 + Lev(a, b') {
        SuffixesDisjoint(u, v, |x|, |x| + 1);
        WipingNeedsCover([], a, b');
        CoverDrop(u, |x|);
      } else if a[0] != b[0] {
        SuffixesDisjoint(u, v, |x| + 1, |x| + 1);
        WipingNeedsCover([], a', b');
        CoverDrop(u, |x| + 1);
      } else if |x| < 2 {
        assert u == (x + [a[0]]) + a' && v == (x + [a[0]]) + b';
        WipingNeedsCover(x + [a[0]], a', b');
      } else {
        WipingKeepsByte(x, a, b);
        WipingNeedsCover(x[1..] + [a[0]], a', b');
      }
    }
  }

  lemma WipingKeepsByte(x: Bytes, a: Bytes, b: Bytes)
    requires |x| == 2 && a != [] && b != [] && a[0] == b[0]
    requires Trigrams(x + a) !! Trigrams(x + b)
    ensures Cover(x + a) == Cover((x[1..] + [a[0]]) + a[1..])
    ensures Trigrams((x[1..] + [a[0]]) + a[1..]) !! Trigrams((x[1..] + [a[0]]) + b[1..])
  {
    var u, v, y := x + a, x + b, x[1..] + [a[0]];
    assert u[1..] == y + a[1..] && v[1..] == y + b[1..];
    assert u[..3] == x + [a[0]] == v[..3];
    hide Trigrams;
    if AsciiAt(u, 0) {
      FirstWindowInBoth(u, v);
    }
    TrigramsOfSuffix(u, 1);
    TrigramsOfSuffix(v, 1);
  }

  /** At most `Cover(s)` bytes of `s` replaced by `c`, so that no ASCII window stays as it was. */
  function Spoil(s: Bytes, c: Byte): (r: Bytes)
    ensures |r| == |s|
    ensures forall i :: 0 <= i < |s| ==> r[i] == s[i] || (s[i] < 0x80 && r[i] == c)
  {
    if |s| < 3 then s
    else if AsciiAt(s, 0) then s[..2] + [c] + Spoil(s[3..], c)
    else [s[0]] + Spoil(s[1..], c)
  }

  predicate HasAt(s: Bytes, i: nat, c: Byte)
    requires i + 3 <= |s|
  {
    s[i] == c || s[i + 1] == c || s[i + 2] == c
  }

  lemma {:induction false} EveryWindowHasIt(s: Bytes, c: Byte, i: nat)
    requires i + 3 <= |s| && AsciiAt(Spoil(s, c), i)
    ensures HasAt(Spoil(s, c), i, c)
    decreases |s|
  {
    var r := Spoil(s, c);
    if AsciiAt(s, 0) {
      assert r[2] == c && r[3..] == Spoil(s[3..], c);
      if i >= 3 {
        EveryWindowHasIt(s[3..], c, i - 3);
      }
    } else {
      assert r[0] == s[0] && r[1..] == Spoil(s[1..], c);
      if i > 0 {
        EveryWindowHasIt(s[1..], c, i - 1);
      }
    }
  }

  /** A byte that is not in `s`, or not in ASCII, spoils every trigram of `s`. */
  lemma SpoilSharesNoTrigram(s: Bytes, c: Byte)
    requires c >= 0x80 || c !in s
    ensures Trigrams(s) !! Trigrams(Spoil(s, c))
  {
    var r := Spoil(s, c);
    forall i, j | 0 <= i <= |s| - 3 && AsciiAt(s, i) && 0 <= j <= |r| - 3 && AsciiAt(r, j)
      ensures PackAt(s, i) != PackAt(r, j)
    {
      EveryWindowHasIt(s, c, j);
      if PackAt(s, i) == PackAt(r, j) {
        PackInjective(s[i], s[i + 1], s[i + 2], r[j], r[j + 1], r[j + 2]);
      }
    }
  }

  lemma {:induction false} SpoilIsNear(s: Bytes, c: Byte)
    ensures Lev(s, Spoil(s, c)) <= Cover(s)
    decreases |s|
  {
    var r := Spoil(s, c);
    if |s| < 3 {
      LevSame(s);
    } else if AsciiAt(s, 0) {
      SpoilIsNear(s[3..], c);
      assert s[1..][1..] == s[2..] && s[2..][1..] == s[3..];
      assert r[1..][1..] == r[2..] && r[2..][1..] == r[3..] == Spoil(s[3..], c);
      assert r[0] == s[0] && r[1] == s[1];
      assert Lev(s[2..], r[2..]) <= 1 + Lev(s[3..], r[3..]);
      assert Lev(s[1..], r[1..]) <= Lev(s[2..], r[2..]);
    } else {
      SpoilIsNear(s[1..], c);
      assert r[1..] == Spoil(s[1..], c);
    }
  }

  lemma LevSame(s: Bytes)
    ensures Lev(s, s) == 0
  {
  }

  /**
    The exact point where sharing a trigram stops being guaranteed: every text with a substring
    within `k` edits of the needle shares one of its trigrams iff `k` is below `Cover(needle)`.
   */
  lemma SharingIsGuaranteedExactly(needle: Bytes, k: nat)
    ensures (forall t: Bytes :: Near(needle, t, k) ==> Trigrams(needle) * Trigrams(t) != {})
       <==> k < Cover(needle)
  {
    if k < Cover(needle) {
      forall t: Bytes | Near(needle, t, k) ensures Trigrams(needle) * Trigrams(t) != {} {
        var sub: Bytes :| Occurs(sub, t) && Lev(needle, sub) <= k;
        TrigramsOfSubstring(sub, t);
        if Trigrams(needle) !! Trigrams(sub) {
          assert [] + needle == needle && [] + sub == sub;
          WipingNeedsCover([], needle, sub);
        } else {
          var g :| g in Trigrams(needle) && g in Trigrams(sub);
          assert g in Trigrams(needle) * Trigrams(t);
        }
      }
    } else {
      var t := Spoil(needle, 0xFF);
      SpoilIsNear(needle, 0xFF);
      SpoilSharesNoTrigram(needle, 0xFF);
      assert OccursAt(t, t, 0);
      assert Near(needle, t, k);
      assert Trigrams(needle) * Trigrams(t) == {};
    }
  }
}
