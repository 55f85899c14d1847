/** White space in message ids. */
module Whitespace {
  // Ids are UTF-8 text, kept as bytes. `split_whitespace` splits at every White_Space character of
  // Unicode, most of which take two or three bytes.

  import opened Base
  import opened Text

  // ----- Characters ---------------------------------------------------------

  predicate IsContinuation(b: Byte) {
    0x80 <= b < 0xC0
  }

  /** Bytes in a character, by its first byte. */
  function CharLen(lead: Byte): nat {
    if lead < 0x80 then 1 else if lead < 0xE0 then 2 else if lead < 0xF0 then 3 else 4
  }

  predicate IsChar(c: Bytes) {
    && c != [] && !(0x80 <= c[0] < 0xC2) && c[0] < 0xF5
    && |c| == CharLen(c[0])
    && (forall i :: 1 <= i < |c| ==> IsContinuation(c[i]))
    && (c[0] == 0xE0 ==> c[1] >= 0xA0) && (c[0] == 0xED ==> c[1] < 0xA0)
    && (c[0] == 0xF0 ==> c[1] >= 0x90) && (c[0] == 0xF4 ==> c[1] < 0x90)
  }

  /** The characters U+0009-000D, 0020, 0085, 00A0, 1680, 2000-200A, 2028, 2029, 202F, 205F and 3000. */
  predicate IsWhite(c: Bytes) {
    || (|c| == 1 && IsBlank(c[0]))
    || c == [0xC2, 0x85] || c == [0xC2, 0xA0]
    || c == [0xE1, 0x9A, 0x80]
    || (|c| == 3 && c[..2] == [0xE2, 0x80] && (0x80 <= c[2] <= 0x8A || c[2] == 0xA8 || c[2] == 0xA9 || c[2] == 0xAF))
    || c == [0xE2, 0x81, 0x9F] || c == [0xE3, 0x80, 0x80]
  }

  /** The number of a character. */
  function CodePoint(c: Bytes): int
    requires IsChar(c)
  {
    var n: int := c[0];
    if |c| == 1 then n
    else if |c| == 2 then 0x40 * (n - 0xC0) + Low(c[1])
    else if |c| == 3 then 0x1000 * (n - 0xE0) + 0x40 * Low(c[1]) + Low(c[2])
    else 0x4_0000 * (n - 0xF0) + 0x1000 * Low(c[1]) + 0x40 * Low(c[2]) + Low(c[3])
  }

  /** The six bits a continuation byte carries. */
  function Low(b: Byte): int {
    (b as int) - 0x80
  }

  /** The characters are the Unicode scalar values, each once. */
  lemma CharIsScalar(c: Bytes)
    requires IsChar(c)
    ensures 0 <= CodePoint(c) < 0x11_0000 && !(0xD800 <= CodePoint(c) < 0xE000)
  {
  }

  lemma CodePointDecides(c: Bytes, d: Bytes)
    requires IsChar(c) && IsChar(d) && CodePoint(c) == CodePoint(d)
    ensures c == d
  {
  }

  /** White space by number, as the Unicode property White_Space lists it. */
  lemma WhiteByNumber(c: Bytes)
    requires IsChar(c)
    ensures IsWhite(c) <==>
      var n := CodePoint(c);
      || 0x9 <= n <= 0xD || n == 0x20 || n == 0x85 || n == 0xA0 || n == 0x1680 || 0x2000 <= n <= 0x200A
      || n == 0x2028 || n == 0x2029 || n == 0x202F || n == 0x205F || n == 0x3000
  {
  }

  predicate IsBlank(b: Byte) {
    9 <= b <= 13 || b == 32
  }

  ghost predicate NoBlank(s: Bytes) {
    forall i :: 0 <= i < |s| ==> !IsBlank(s[i])
  }

  ghost predicate AllChars(chars: seq<Bytes>) {
    forall k :: 0 <= k < |chars| ==> IsChar(chars[k])
  }

  /** Text in UTF-8. */
  ghost predicate IsText(s: Bytes) {
    exists chars: seq<Bytes> :: AllChars(chars) && Concat<Byte>(chars) == s
  }

  /** `r` has ASCII bytes of its own where `s` has ASCII bytes, and is `s` elsewhere. */
  ghost predicate AsciiSwap(s: Bytes, r: Bytes) {
    |r| == |s| && forall i :: 0 <= i < |r| ==> r[i] == s[i] || (s[i] < 0x80 && r[i] < 0x80)
  }

  /** Changing ASCII characters for ASCII characters keeps text text. */
  lemma {:induction false} AsciiSwapKeepsText(chars: seq<Bytes>, r: Bytes)
    requires AllChars(chars) && AsciiSwap(Concat<Byte>(chars), r)
    ensures IsText(r)
    decreases |chars|
  {
    if chars == [] {
      assert AllChars([]) && Concat<Byte>([]) == r;
    } else {
      hide AsciiSwap, IsChar, Concat;
      var c, tail := chars[0], Concat<Byte>(chars[1..]);
      ConcatHead<Byte>(chars);
      SwapSplit(c, tail, r);
      AsciiSwapKeepsText(chars[1..], r[|c|..]);
      var rest: seq<Bytes> :| AllChars(rest) && Concat<Byte>(rest) == r[|c|..];
      TextOf([r[..|c|]] + rest, r[..|c|], rest);
      assert r[..|c|] + r[|c|..] == r;
    }
  }

  lemma SwapSplit(c: Bytes, tail: Bytes, r: Bytes)
    requires IsChar(c) && AsciiSwap(c + tail, r)
    ensures |c| <= |r| && IsChar(r[..|c|]) && AsciiSwap(tail, r[|c|..])
  {
    var s, n := c + tail, |c|;
    forall i | 0 <= i < n ensures r[..n][i] == c[i] || (c[i] < 0x80 && r[..n][i] < 0x80) {
      assert s[i] == c[i];
    }
    forall i | 0 <= i < |tail| ensures r[n..][i] == tail[i] || (tail[i] < 0x80 && r[n..][i] < 0x80) {
      assert s[n + i] == tail[i];
    }
  }

  lemma TextOf(chars: seq<Bytes>, head: Bytes, rest: seq<Bytes>)
    requires chars == [head] + rest && IsChar(head) && AllChars(rest)
    ensures IsText(head + Concat<Byte>(rest))
  {
    assert chars[1..] == rest;
    assert AllChars(chars) && Concat<Byte>(chars) == head + Concat<Byte>(rest);
  }

  // ----- Squeezing ----------------------------------------------------------

  /** Length of the white-space character at the front of `s`, or 0. */
  function WhiteLen(s: Bytes): (n: nat)
    ensures n <= |s| && (n > 0 ==> IsWhite(s[..n]))
    ensures s != [] && IsBlank(s[0]) ==> n == 1
    ensures s != [] && IsContinuation(s[0]) ==> n == 0
  {
    if |s| >= 1 && IsWhite(s[..1]) then 1
    else if |s| >= 2 && IsWhite(s[..2]) then 2
    else if |s| >= 3 && IsWhite(s[..3]) then 3
    else 0
  }

  /** `split_whitespace().collect()`: the id the derived tiers use. */
  function Squeeze(mid: Bytes): (r: Bytes)
    ensures |r| <= |mid|
    ensures NoBlank(r)
  {
    if mid == [] then []
    else if WhiteLen(mid) > 0 then Squeeze(mid[WhiteLen(mid)..])
    else [mid[0]] + Squeeze(mid[1..])
  }

  ghost predicate WhiteAt(s: Bytes, i: nat) {
    i < |s| && WhiteLen(s[i..]) > 0
  }

  ghost predicate HasWhite(s: Bytes) {
    exists i: nat :: WhiteAt(s, i)
  }

  lemma WhiteAtTail(s: Bytes, i: nat)
    requires 0 < i <= |s|
    ensures WhiteAt(s, i) <==> WhiteAt(s[1..], i - 1)
  {
    assert s[i..] == s[1..][i - 1..];
  }

  lemma HasWhiteTail(s: Bytes)
    requires s != []
    ensures HasWhite(s) <==> WhiteLen(s) > 0 || HasWhite(s[1..])
  {
    assert s[0..] == s;
    if HasWhite(s) {
      var i: nat :| WhiteAt(s, i);
      if i > 0 {
        WhiteAtTail(s, i);
      }
    } else if HasWhite(s[1..]) {
      var i: nat :| WhiteAt(s[1..], i);
      WhiteAtTail(s, i + 1);
    }
    if WhiteLen(s) > 0 {
      assert WhiteAt(s, 0);
    }
  }

  /** The metadata row keeps the id as parsed; it is the id of the other tiers iff it has no white space. */
  lemma {:induction false} SqueezeKeepsExactly(mid: Bytes)
    ensures Squeeze(mid) == mid <==> !HasWhite(mid)
    decreases |mid|
  {
    if mid != [] {
      HasWhiteTail(mid);
      if WhiteLen(mid) == 0 {
        SqueezeKeepsExactly(mid[1..]);
        assert mid == [mid[0]] + mid[1..];
      }
    }
  }

  // ----- Bytewise and by characters -----------------------------------------

  /** The characters that stay. */
  function Dropped(chars: seq<Bytes>): seq<Bytes> {
    if chars == [] then []
    else (if IsWhite(chars[0]) then [] else [chars[0]]) + Dropped(chars[1..])
  }

  lemma FrontChar(c: Bytes, rest: Bytes)
    requires IsChar(c)
    ensures WhiteLen(c + rest) == if IsWhite(c) then |c| else 0
  {
    var s := c + rest;
    assert s[0] == c[0] && s[..|c|] == c;
    forall n | 1 <= n <= 3 && n <= |s| && n != |c| ensures !IsWhite(s[..n]) {
      assert s[..n][0] == c[0];
    }
  }

  lemma SqueezeStep(s: Bytes)
    requires s != []
    ensures WhiteLen(s) > 0 ==> Squeeze(s) == Squeeze(s[WhiteLen(s)..]) && HasWhite(s)
    ensures WhiteLen(s) == 0 ==> Squeeze(s) == [s[0]] + Squeeze(s[1..]) && (HasWhite(s) <==> HasWhite(s[1..]))
  {
    HasWhiteTail(s);
  }

  /** No white-space character begins with a continuation byte. */
  lemma {:induction false} SqueezePast(part: Bytes, rest: Bytes)
    requires forall i :: 0 <= i < |part| ==> IsContinuation(part[i])
    ensures Squeeze(part + rest) == part + Squeeze(rest)
    ensures HasWhite(part + rest) <==> HasWhite(rest)
    decreases |part|
  {
    hide WhiteLen, IsWhite, HasWhite, IsBlank, Squeeze;
    if part == [] {
      assert part + rest == rest;
    } else {
      var s := part + rest;
      assert s[0] == part[0] && s[1..] == part[1..] + rest;
      assert WhiteLen(s) == 0;
      SqueezePast(part[1..], rest);
      SqueezeStep(s);
      assert [part[0]] + (part[1..] + Squeeze(rest)) == part + Squeeze(rest);
    }
  }

  lemma {:induction false} SqueezeOne(c: Bytes, rest: Bytes)
    requires IsChar(c)
    ensures Squeeze(c + rest) == (if IsWhite(c) then [] else c) + Squeeze(rest)
    ensures HasWhite(c + rest) <==> IsWhite(c) || HasWhite(rest)
  {
    hide WhiteLen, IsWhite, HasWhite, IsBlank, Squeeze, CharLen;
    var s := c + rest;
    FrontChar(c, rest);
    SqueezeStep(s);
    if IsWhite(c) {
      assert s[|c|..] == rest;
    } else {
      assert s[0] == c[0] && s[1..] == c[1..] + rest;
      SqueezePast(c[1..], rest);
      assert c == [c[0]] + c[1..];
      assert [c[0]] + (c[1..] + Squeeze(rest)) == c + Squeeze(rest);
    }
  }

  /** On UTF-8 text the bytewise pass drops the white-space characters, and nothing else. */
  lemma {:induction false} SqueezeDropsWhite(chars: seq<Bytes>)
    requires AllChars(chars)
    ensures Squeeze(Concat<Byte>(chars)) == Concat<Byte>(Dropped(chars))
    ensures HasWhite(Concat<Byte>(chars)) <==> exists c :: c in chars && IsWhite(c)
    ensures AllChars(Dropped(chars)) && !HasWhite(Concat<Byte>(Dropped(chars)))
    decreases |chars|
  {
    hide IsWhite, IsChar, Squeeze, HasWhite;
    if chars == [] {
      NoWhite();
    } else {
      var c, rest := chars[0], chars[1..];
      assert AllChars(rest);
      SqueezeDropsWhite(rest);
      SqueezeOne(c, Concat<Byte>(rest));
      assert chars == [c] + rest;
      if IsWhite(c) {
        assert Dropped(chars) == Dropped(rest);
      } else {
        assert Dropped(chars) == [c] + Dropped(rest);
        SqueezeOne(c, Concat<Byte>(Dropped(rest)));
      }
    }
  }

  lemma NoWhite()
    ensures Squeeze([]) == [] && !HasWhite([])
  {
  }

  /** A squeezed id has no white space of any kind. */
  lemma SqueezedHasNoWhite(mid: Bytes)
    requires IsText(mid)
    ensures IsText(Squeeze(mid)) && !HasWhite(Squeeze(mid))
  {
    var chars: seq<Bytes> :| AllChars(chars) && Concat<Byte>(chars) == mid;
    SqueezeDropsWhite(chars);
  }

  // ----- What a line file makes of squeezed ids -----------------------------

  /** Ids without blanks have no line feed and no carriage return, so a line file of them reads back unchanged. */
  lemma NoBlankLinesReadBack(lines: seq<Bytes>)
    requires forall k :: 0 <= k < |lines| ==> NoBlank(lines[k])
    ensures OneLiners(lines)
    ensures forall k :: 0 <= k < |lines| ==> lines[k] == [] || lines[k][|lines[k]| - 1] != CR
    ensures Lines(Terminated(lines)) == lines
  {
    forall k | 0 <= k < |lines| ensures LF !in lines[k] {
      assert NoBlank(lines[k]);
    }
    forall k | 0 <= k < |lines| && lines[k] != [] ensures lines[k][|lines[k]| - 1] != CR {
      assert NoBlank(lines[k]);
    }
    TerminatedRoundTrip(lines);
  }
}
